/** The ELF parser of the source: wrapping 64-bit offsets, a guard per table
    and a bounds-checked read per field. Each stage is proved to compute the
    unbounded meaning given in ElfFormat. */
module ElfParser {
  import opened Base
  import opened Reader
  import opened ElfFormat

  method ReadIdent(data: seq<byte>) returns (r: Result<bool, ErrorCode>)
    ensures r == Ident(data)
  {
    if |data| < 16 {
      return Err(InvalidBinary);
    }
    var magic := Bytes(data, 0, 4);
    // The source passes a failed read on here; the size check leaves none.
    assert magic.Ok?;
    if magic.value != [0x7F, 0x45, 0x4C, 0x46] {
      return Err(InvalidBinary);
    }
    var elfClass, encoding := U8(data, 4), U8(data, 5);
    OneByte(data, 4);
    OneByte(data, 5);
    if elfClass.Err? || encoding.Err? {
      return Err(InvalidBinary);
    }
    if elfClass.value != 1 && elfClass.value != 2 {
      return Err(InvalidBinary);
    }
    if encoding.value != 1 {
      return Err(Unsupported);
    }
    return Ok(elfClass.value == 2);
  }

  lemma OneByte(data: seq<byte>, at: nat)
    requires at < |data|
    ensures Field(data, at, 1) == data[at]
  {
    assert data[at..at + 1] == [data[at]];
    assert Le([data[at]]) == data[at] + 256 * Le([]);
  }

  method ReadHeader(data: seq<byte>, is64: bool) returns (r: Result<Header, ErrorCode>)
    ensures r == HeaderOf(data, is64)
  {
    hide Le;
    var base := 16;
    var typ, machine := U16(data, base), U16(data, base + 2);
    if is64 {
      var entry, phoff, shoff := U64(data, base + 8), U64(data, base + 16), U64(data, base + 24);
      var phentsize, phnum := U16(data, base + 0x26), U16(data, base + 0x28);
      var shentsize, shnum, shstrndx := U16(data, base + 0x2A), U16(data, base + 0x2C), U16(data, base + 0x2E);
      if typ.Err? || machine.Err? || entry.Err? || phoff.Err? || shoff.Err? ||
         phentsize.Err? || phnum.Err? || shentsize.Err? || shnum.Err? || shstrndx.Err? {
        return Err(InvalidBinary);
      }
      HeaderFields64(data);
      return Ok(Header(typ.value, machine.value, entry.value, phoff.value, shoff.value,
                       phentsize.value, phnum.value, shentsize.value, shnum.value, shstrndx.value));
    } else {
      var entry, phoff, shoff := U32(data, base + 8), U32(data, base + 12), U32(data, base + 16);
      var phentsize, phnum := U16(data, base + 0x1A), U16(data, base + 0x1C);
      var shentsize, shnum, shstrndx := U16(data, base + 0x1E), U16(data, base + 0x20), U16(data, base + 0x22);
      if typ.Err? || machine.Err? || entry.Err? || phoff.Err? || shoff.Err? ||
         phentsize.Err? || phnum.Err? || shentsize.Err? || shnum.Err? || shstrndx.Err? {
        return Err(InvalidBinary);
      }
      HeaderFields32(data);
      return Ok(Header(typ.value, machine.value, entry.value, phoff.value, shoff.value,
                       phentsize.value, phnum.value, shentsize.value, shnum.value, shstrndx.value));
    }
  }

  lemma HeaderFields64(data: seq<byte>)
    requires |data| >= 64
    ensures DecodeHeader(true, data[..64]) ==
            Header(Field(data, 16, 2), Field(data, 18, 2), Field(data, 24, 8), Field(data, 32, 8), Field(data, 40, 8),
                   Field(data, 54, 2), Field(data, 56, 2), Field(data, 58, 2), Field(data, 60, 2), Field(data, 62, 2))
  {
    hide Le;
    assert data[0..64] == data[..64];
    FieldOfRecord(data, 0, 64, 16, 2);
    FieldOfRecord(data, 0, 64, 18, 2);
    FieldOfRecord(data, 0, 64, 24, 8);
    FieldOfRecord(data, 0, 64, 32, 8);
    FieldOfRecord(data, 0, 64, 40, 8);
    FieldOfRecord(data, 0, 64, 54, 2);
    FieldOfRecord(data, 0, 64, 56, 2);
    FieldOfRecord(data, 0, 64, 58, 2);
    FieldOfRecord(data, 0, 64, 60, 2);
    FieldOfRecord(data, 0, 64, 62, 2);
  }

  lemma HeaderFields32(data: seq<byte>)
    requires |data| >= 52
    ensures DecodeHeader(false, data[..52]) ==
            Header(Field(data, 16, 2), Field(data, 18, 2), Field(data, 24, 4), Field(data, 28, 4), Field(data, 32, 4),
                   Field(data, 42, 2), Field(data, 44, 2), Field(data, 46, 2), Field(data, 48, 2), Field(data, 50, 2))
  {
    hide Le;
    assert data[0..52] == data[..52];
    FieldOfRecord(data, 0, 52, 16, 2);
    FieldOfRecord(data, 0, 52, 18, 2);
    FieldOfRecord(data, 0, 52, 24, 4);
    FieldOfRecord(data, 0, 52, 28, 4);
    FieldOfRecord(data, 0, 52, 32, 4);
    FieldOfRecord(data, 0, 52, 42, 2);
    FieldOfRecord(data, 0, 52, 44, 2);
    FieldOfRecord(data, 0, 52, 46, 2);
    FieldOfRecord(data, 0, 52, 48, 2);
    FieldOfRecord(data, 0, 52, 50, 2);
  }

  // ----- sections -----

  /** The ten reads of one section header. */
  method ReadSection(data: seq<byte>, is64: bool, off: nat) returns (r: Result<Section, ErrorCode>)
    requires |data| < TWO_63 && off < TWO_64
    ensures r == if InBounds(data, off, SectionSize(is64))
                 then Ok(DecodeSection(is64, data[off..off + SectionSize(is64)])) else Err(InvalidBinary)
  {
    hide Le;
    NoWrap64(|data|, off);
    var name, typ := U32(data, off), U32(data, Add64(off, 4));
    if is64 {
      var flags, addr, offset := U64(data, Add64(off, 8)), U64(data, Add64(off, 16)), U64(data, Add64(off, 24));
      var size, link, info := U64(data, Add64(off, 32)), U32(data, Add64(off, 40)), U32(data, Add64(off, 44));
      var align, entsize := U64(data, Add64(off, 48)), U64(data, Add64(off, 56));
      if name.Err? || typ.Err? || flags.Err? || addr.Err? || offset.Err? ||
         size.Err? || link.Err? || info.Err? || align.Err? || entsize.Err? {
        return Err(InvalidBinary);
      }
      SectionFields64(data, off);
      return Ok(Section([], name.value, typ.value, flags.value, addr.value, offset.value,
                        size.value, link.value, info.value, align.value, entsize.value));
    } else {
      var flags, addr, offset := U32(data, Add64(off, 8)), U32(data, Add64(off, 12)), U32(data, Add64(off, 16));
      var size, link, info := U32(data, Add64(off, 20)), U32(data, Add64(off, 24)), U32(data, Add64(off, 28));
      var align, entsize := U32(data, Add64(off, 32)), U32(data, Add64(off, 36));
      if name.Err? || typ.Err? || flags.Err? || addr.Err? || offset.Err? ||
         size.Err? || link.Err? || info.Err? || align.Err? || entsize.Err? {
        return Err(InvalidBinary);
      }
      SectionFields32(data, off);
      return Ok(Section([], name.value, typ.value, flags.value, addr.value, offset.value,
                        size.value, link.value, info.value, align.value, entsize.value));
    }
  }

  lemma SectionFields64(d: seq<byte>, off: nat)
    requires off + 64 <= |d|
    ensures DecodeSection(true, d[off..off + 64]) ==
            Section([], Field(d, off, 4), Field(d, off + 4, 4), Field(d, off + 8, 8), Field(d, off + 16, 8),
                    Field(d, off + 24, 8), Field(d, off + 32, 8), Field(d, off + 40, 4), Field(d, off + 44, 4),
                    Field(d, off + 48, 8), Field(d, off + 56, 8))
  {
    hide Le;
    FieldOfRecord(d, off, 64, 0, 4);
    FieldOfRecord(d, off, 64, 4, 4);
    FieldOfRecord(d, off, 64, 8, 8);
    FieldOfRecord(d, off, 64, 16, 8);
    FieldOfRecord(d, off, 64, 24, 8);
    FieldOfRecord(d, off, 64, 32, 8);
    FieldOfRecord(d, off, 64, 40, 4);
    FieldOfRecord(d, off, 64, 44, 4);
    FieldOfRecord(d, off, 64, 48, 8);
    FieldOfRecord(d, off, 64, 56, 8);
  }

  lemma SectionFields32(d: seq<byte>, off: nat)
    requires off + 40 <= |d|
    ensures DecodeSection(false, d[off..off + 40]) ==
            Section([], Field(d, off, 4), Field(d, off + 4, 4), Field(d, off + 8, 4), Field(d, off + 12, 4),
                    Field(d, off + 16, 4), Field(d, off + 20, 4), Field(d, off + 24, 4), Field(d, off + 28, 4),
                    Field(d, off + 32, 4), Field(d, off + 36, 4))
  {
    hide Le;
    FieldOfRecord(d, off, 40, 0, 4);
    FieldOfRecord(d, off, 40, 4, 4);
    FieldOfRecord(d, off, 40, 8, 4);
    FieldOfRecord(d, off, 40, 12, 4);
    FieldOfRecord(d, off, 40, 16, 4);
    FieldOfRecord(d, off, 40, 20, 4);
    FieldOfRecord(d, off, 40, 24, 4);
    FieldOfRecord(d, off, 40, 28, 4);
    FieldOfRecord(d, off, 40, 32, 4);
    FieldOfRecord(d, off, 40, 36, 4);
  }

  /** Reading the table entry by entry with a wrapping size check finds exactly
      the tables that fit without wrapping. */
  method ReadSectionTable(data: seq<byte>, is64: bool, shoff: nat, shnum: nat, shentsize: nat)
    returns (r: Result<seq<Section>, ErrorCode>)
    requires |data| < TWO_63 && shoff < TWO_64 && shnum < TWO_64
    requires SectionSize(is64) <= shentsize < TWO_16
    ensures r == if TableFits(data, shoff, shnum, shentsize)
                 then Ok(SectionTable(data, is64, shoff, shnum, shentsize)) else Err(InvalidBinary)
  {
    hide Le, DecodeSection, Mul64;
    var tableBytes := Mul64(shnum, shentsize);
    Mul64Bound(shnum, shentsize);
    if shoff > |data| || tableBytes > |data| - shoff {
      assert !TableFits(data, shoff, shnum, shentsize);
      return Err(InvalidBinary);
    }
    var sections: seq<Section> := [];
    var i := 0;
    ghost var at := shoff;
    while i < shnum
      invariant 0 <= i <= shnum && |sections| == i
      invariant at == shoff + i * shentsize
      invariant if i == 0 then at <= |data| else at - shentsize + SectionSize(is64) <= |data|
      invariant forall k :: 0 <= k < i ==> SectionReads(data, is64, shoff + k * shentsize, sections[k])
    {
      Mul64Bound(i, shentsize);
      var off := Add64(shoff, Mul64(i, shentsize));
      assert off == at;
      var section := ReadSection(data, is64, off);
      if section.Err? {
        assert !TableFits(data, shoff, shnum, shentsize) by {
          EntriesBefore(i, shnum, shentsize);
        }
        return Err(InvalidBinary);
      }
      sections := sections + [section.value];
      NextEntry(i, shentsize);
      i, at := i + 1, at + shentsize;
    }
    WrappedTableRunsOut(data, shoff, shnum, shentsize, SectionSize(is64));
    TableCollected(data, is64, shoff, shnum, shentsize, sections);
    return Ok(sections);
  }

  lemma TableCollected(data: seq<byte>, is64: bool, off: nat, n: nat, stride: nat, sections: seq<Section>)
    requires TableFits(data, off, n, stride) && SectionSize(is64) <= stride && |sections| == n
    requires forall k :: 0 <= k < n ==> SectionReads(data, is64, off + k * stride, sections[k])
    ensures sections == SectionTable(data, is64, off, n, stride)
  {
    forall k | 0 <= k < n
      ensures sections[k] == SectionTable(data, is64, off, n, stride)[k]
    {
      assert SectionReads(data, is64, off + k * stride, sections[k]);
    }
  }

  /** A table whose wrapped size passes the guard and whose last record is
      inside the buffer fits without wrapping. */
  lemma WrappedTableRunsOut(data: seq<byte>, off: nat, n: nat, stride: nat, size: nat)
    requires |data| < TWO_63 && 0 < size <= stride < TWO_16
    requires off + Mul64(n, stride) <= |data|
    requires n > 0 ==> off + (n - 1) * stride + size <= |data|
    ensures TableFits(data, off, n, stride)
  {
    if n > 0 {
      NextEntry(n - 1, stride);
    }
  }

  /** Section names, gathered first and then written into the sections. */
  method AssignNames(data: seq<byte>, raw: seq<Section>, shstrndx: nat) returns (sections: seq<Section>)
    requires |data| < TWO_63
    requires forall k :: 0 <= k < |raw| ==> raw[k].name == []
    ensures sections == Named(data, raw, shstrndx)
  {
    var names := GatherNames(data, raw, shstrndx);
    ghost var named := Named(data, raw, shstrndx);
    sections := raw;
    for i := 0 to |raw|
      invariant |sections| == |raw|
      invariant forall k :: 0 <= k < |raw| ==> sections[k] == if k < i then named[k] else raw[k]
    {
      assert named[i] == raw[i].(name := SectionName(data, raw, shstrndx, i));
      assert SanitizeName([]) == [];
      if i < |names| && names[i] != [] {
        var clean := Sanitize(names[i]);
        sections := sections[i := sections[i].(name := clean)];
      }
      assert sections[i] == named[i];
    }
  }

  method GatherNames(data: seq<byte>, raw: seq<Section>, shstrndx: nat) returns (names: seq<seq<byte>>)
    requires |data| < TWO_63
    ensures |names| <= |raw|
    ensures forall k :: 0 <= k < |raw| ==>
              SectionName(data, raw, shstrndx, k) == if k < |names| then SanitizeName(names[k]) else []
  {
    names := [];
    if shstrndx < |raw| {
      var strtab := raw[shstrndx];
      if strtab.typ == SHT_STRTAB && strtab.offset <= |data| && strtab.size <= |data| - strtab.offset {
        for i := 0 to |raw|
          invariant |names| == i
          invariant forall k :: 0 <= k < i ==> SectionName(data, raw, shstrndx, k) == SanitizeName(names[k])
        {
          var name := StringAt(data, strtab, raw[i].nameIndex);
          assert SanitizeName([]) == [];
          names := names + [if name.Some? then name.value else []];
        }
      }
    }
  }

  /** The bounded lookup of one name in a string table that fits the buffer. */
  method StringAt(data: seq<byte>, strtab: Section, index: nat) returns (name: Option<seq<byte>>)
    requires |data| < TWO_63 && strtab.offset + strtab.size <= |data|
    ensures name == NameAt(data, strtab, index)
  {
    if index >= strtab.size {
      return None;
    }
    var r := ReadCString(data, Add64(strtab.offset, index), strtab.size - index);
    if r.Err? {
      return None;
    }
    return Some(r.value);
  }

  // ----- program headers -----

  /** The eight reads of one program header. */
  method ReadProgramHeader(data: seq<byte>, is64: bool, off: nat) returns (r: Result<ProgramHeader, ErrorCode>)
    requires |data| < TWO_63 && off < TWO_64
    ensures r == if InBounds(data, off, ProgramHeaderSize(is64))
                 then Ok(DecodeProgramHeader(is64, data[off..off + ProgramHeaderSize(is64)])) else Err(InvalidBinary)
  {
    hide Le;
    NoWrap64(|data|, off);
    var typ := U32(data, off);
    if is64 {
      var flags, offset, vaddr := U32(data, Add64(off, 4)), U64(data, Add64(off, 8)), U64(data, Add64(off, 16));
      var paddr, filesz := U64(data, Add64(off, 24)), U64(data, Add64(off, 32));
      var memsz, align := U64(data, Add64(off, 40)), U64(data, Add64(off, 48));
      if typ.Err? || flags.Err? || offset.Err? || vaddr.Err? ||
         paddr.Err? || filesz.Err? || memsz.Err? || align.Err? {
        return Err(InvalidBinary);
      }
      ProgramHeaderFields64(data, off);
      return Ok(ProgramHeader(typ.value, flags.value, offset.value, vaddr.value,
                              paddr.value, filesz.value, memsz.value, align.value));
    } else {
      var offset, vaddr, paddr := U32(data, Add64(off, 4)), U32(data, Add64(off, 8)), U32(data, Add64(off, 12));
      var filesz, memsz := U32(data, Add64(off, 16)), U32(data, Add64(off, 20));
      var flags, align := U32(data, Add64(off, 24)), U32(data, Add64(off, 28));
      if typ.Err? || offset.Err? || vaddr.Err? || paddr.Err? ||
         filesz.Err? || memsz.Err? || flags.Err? || align.Err? {
        return Err(InvalidBinary);
      }
      ProgramHeaderFields32(data, off);
      return Ok(ProgramHeader(typ.value, flags.value, offset.value, vaddr.value,
                              paddr.value, filesz.value, memsz.value, align.value));
    }
  }

  lemma ProgramHeaderFields64(d: seq<byte>, off: nat)
    requires off + 56 <= |d|
    ensures DecodeProgramHeader(true, d[off..off + 56]) ==
            ProgramHeader(Field(d, off, 4), Field(d, off + 4, 4), Field(d, off + 8, 8), Field(d, off + 16, 8),
                          Field(d, off + 24, 8), Field(d, off + 32, 8), Field(d, off + 40, 8), Field(d, off + 48, 8))
  {
    hide Le;
    FieldOfRecord(d, off, 56, 0, 4);
    FieldOfRecord(d, off, 56, 4, 4);
    FieldOfRecord(d, off, 56, 8, 8);
    FieldOfRecord(d, off, 56, 16, 8);
    FieldOfRecord(d, off, 56, 24, 8);
    FieldOfRecord(d, off, 56, 32, 8);
    FieldOfRecord(d, off, 56, 40, 8);
    FieldOfRecord(d, off, 56, 48, 8);
  }

  lemma ProgramHeaderFields32(d: seq<byte>, off: nat)
    requires off + 32 <= |d|
    ensures DecodeProgramHeader(false, d[off..off + 32]) ==
            ProgramHeader(Field(d, off, 4), Field(d, off + 24, 4), Field(d, off + 4, 4), Field(d, off + 8, 4),
                          Field(d, off + 12, 4), Field(d, off + 16, 4), Field(d, off + 20, 4), Field(d, off + 28, 4))
  {
    hide Le;
    FieldOfRecord(d, off, 32, 0, 4);
    FieldOfRecord(d, off, 32, 4, 4);
    FieldOfRecord(d, off, 32, 8, 4);
    FieldOfRecord(d, off, 32, 12, 4);
    FieldOfRecord(d, off, 32, 16, 4);
    FieldOfRecord(d, off, 32, 20, 4);
    FieldOfRecord(d, off, 32, 24, 4);
    FieldOfRecord(d, off, 32, 28, 4);
  }

  method ReadProgramHeaders(data: seq<byte>, is64: bool, h: Header, sections: seq<Section>)
    returns (r: Result<seq<ProgramHeader>, ErrorCode>)
    requires |data| < TWO_63
    requires h.phoff < TWO_64 && h.phnum < TWO_16 && h.phentsize < TWO_16
    requires sections != [] ==> sections[0].info < TWO_32
    ensures r == ProgramHeaders(data, is64, h, sections)
  {
    var headers: seq<ProgramHeader> := [];
    if h.phoff != 0 && h.phnum != 0 {
      var phnum := h.phnum;
      if h.phnum == PN_XNUM && sections != [] {
        phnum := sections[0].info;
      }
      if h.phentsize < ProgramHeaderSize(is64) {
        return Err(InvalidBinary);
      }
      var tableBytes := Mul64(phnum, h.phentsize);
      Mul64Bound(phnum, h.phentsize);
      MulMonotone(phnum, TWO_16, h.phentsize);
      if h.phoff > |data| || tableBytes > |data| - h.phoff {
        return Err(InvalidBinary);
      }
      headers := ReadProgramHeaderTable(data, is64, h.phoff, phnum, h.phentsize);
    }
    return Ok(headers);
  }

  /** The program header loop; the guard in front of it makes every read succeed. */
  method ReadProgramHeaderTable(data: seq<byte>, is64: bool, phoff: nat, phnum: nat, phentsize: nat)
    returns (headers: seq<ProgramHeader>)
    requires |data| < TWO_63 && ProgramHeaderSize(is64) <= phentsize && TableFits(data, phoff, phnum, phentsize)
    ensures headers == ProgramHeaderTable(data, is64, phoff, phnum, phentsize)
  {
    hide Le, DecodeProgramHeader;
    headers := [];
    ghost var table := ProgramHeaderTable(data, is64, phoff, phnum, phentsize);
    var i := 0;
    while i < phnum
      invariant 0 <= i <= phnum && headers == table[..i]
    {
      EntriesBefore(i, phnum, phentsize);
      Mul64Bound(i, phentsize);
      var off := Add64(phoff, Mul64(i, phentsize));
      assert off == phoff + i * phentsize;
      var ph := ReadProgramHeader(data, is64, off);
      // The source gives up on a failed read here; the guard leaves none.
      assert ph.Ok? && ph.value == table[i];
      headers := headers + [ph.value];
      i := i + 1;
    }
  }

  // ----- symbols -----

  /** The five reads of one symbol. */
  method ReadSymbol(data: seq<byte>, is64: bool, off: nat) returns (r: Result<RawSymbol, ErrorCode>)
    requires |data| < TWO_63 && off < TWO_64
    ensures r == if InBounds(data, off, SymbolSize(is64))
                 then Ok(DecodeSymbol(is64, data[off..off + SymbolSize(is64)])) else Err(OutOfRange)
  {
    NoWrap64(|data|, off);
    var n := U32(data, off);
    if is64 {
      var i2, s := U8(data, Add64(off, 4)), U16(data, Add64(off, 6));
      var v, z := U64(data, Add64(off, 8)), U64(data, Add64(off, 16));
      if n.Err? || i2.Err? || s.Err? || v.Err? || z.Err? {
        return Err(OutOfRange);
      }
      SymbolFields64(data, off);
      return Ok(RawSymbol(n.value, i2.value, s.value, v.value, z.value));
    } else {
      var v, z := U32(data, Add64(off, 4)), U32(data, Add64(off, 8));
      var i2, s := U8(data, Add64(off, 12)), U16(data, Add64(off, 14));
      if n.Err? || v.Err? || z.Err? || i2.Err? || s.Err? {
        return Err(OutOfRange);
      }
      SymbolFields32(data, off);
      return Ok(RawSymbol(n.value, i2.value, s.value, v.value, z.value));
    }
  }

  lemma SymbolFields64(d: seq<byte>, off: nat)
    requires off + 24 <= |d|
    ensures DecodeSymbol(true, d[off..off + 24]) ==
            RawSymbol(Field(d, off, 4), Field(d, off + 4, 1), Field(d, off + 6, 2),
                      Field(d, off + 8, 8), Field(d, off + 16, 8))
  {
    FieldOfRecord(d, off, 24, 0, 4);
    FieldOfRecord(d, off, 24, 4, 1);
    FieldOfRecord(d, off, 24, 6, 2);
    FieldOfRecord(d, off, 24, 8, 8);
    FieldOfRecord(d, off, 24, 16, 8);
  }

  lemma SymbolFields32(d: seq<byte>, off: nat)
    requires off + 16 <= |d|
    ensures DecodeSymbol(false, d[off..off + 16]) ==
            RawSymbol(Field(d, off, 4), Field(d, off + 12, 1), Field(d, off + 14, 2),
                      Field(d, off + 4, 4), Field(d, off + 8, 4))
  {
    FieldOfRecord(d, off, 16, 0, 4);
    FieldOfRecord(d, off, 16, 4, 4);
    FieldOfRecord(d, off, 16, 8, 4);
    FieldOfRecord(d, off, 16, 12, 1);
    FieldOfRecord(d, off, 16, 14, 2);
  }

  method FindSection(sections: seq<Section>, typ: nat) returns (found: Option<Section>)
    ensures found == FirstOfType(sections, typ)
  {
    for i := 0 to |sections|
      invariant FirstOfType(sections[i..], typ) == FirstOfType(sections, typ)
    {
      if sections[i].typ == typ {
        return Some(sections[i]);
      }
      assert sections[i..][1..] == sections[i + 1..];
    }
    return None;
  }

  /** The filters of the symbol loop, in the order of the source. */
  method FilterSymbol(data: seq<byte>, strtab: Section, raw: RawSymbol) returns (symbol: Option<Symbol>)
    requires |data| < TWO_63 && IsStringTable(data, strtab)
    ensures symbol == Exported(data, strtab, raw)
  {
    var bind, symType := raw.info / 16, raw.info % 16;
    if raw.shndx == 0 {
      return None;
    }
    if bind != 1 && bind != 2 {
      return None;
    }
    var name := StringAt(data, strtab, raw.nameIndex);
    if name.None? || name.value == [] {
      return None;
    }
    if symType != 1 && symType != 2 && symType != 10 {
      return None;
    }
    var clean := Sanitize(name.value);
    return Some(Symbol(clean, raw.value, raw.size));
  }

  lemma SymbolOffset(data: seq<byte>, is64: bool, symtab: Section, i: nat)
    requires |data| < TWO_63 && symtab.offset + symtab.size <= |data| && i < SymbolCount(is64, symtab)
    ensures Mul64(i, SymbolSize(is64)) < TWO_64
    ensures var off := Add64(symtab.offset, Mul64(i, SymbolSize(is64)));
            InBounds(data, off, SymbolSize(is64)) &&
            DecodeSymbol(is64, data[off..off + SymbolSize(is64)]) == RawSymbolAt(data, is64, symtab, i)
  {
    assert Mul64(i, SymbolSize(is64)) == if is64 then 24 * i else 16 * i;
  }

  /** The early exit of the symbol loop is never taken: the result covers every
      entry of the table. */
  method ReadSymbolTable(data: seq<byte>, is64: bool, symtab: Section, strtab: Section) returns (symbols: seq<Symbol>)
    requires |data| < TWO_63 && IsStringTable(data, strtab) && symtab.offset + symtab.size <= |data|
    ensures symbols == SymbolsFrom(data, is64, symtab, strtab, 0)
  {
    hide Le, Exported, DecodeSymbol, Mul64;
    symbols := [];
    var entsize := SymbolSize(is64);
    var count := symtab.size / entsize;
    ghost var all := SymbolsFrom(data, is64, symtab, strtab, 0);
    var i := 0;
    while i < count
      invariant 0 <= i <= count
      invariant all == symbols + SymbolsFrom(data, is64, symtab, strtab, i)
    {
      SymbolOffset(data, is64, symtab, i);
      var off := Add64(symtab.offset, Mul64(i, entsize));
      var raw := ReadSymbol(data, is64, off);
      // The source leaves the loop on a failed read here; the guard leaves none.
      assert raw.Ok? && raw.value == RawSymbolAt(data, is64, symtab, i);
      var symbol := FilterSymbol(data, strtab, raw.value);
      SymbolsStep(data, is64, symtab, strtab, i, symbols, symbol);
      if symbol.Some? {
        symbols := symbols + [symbol.value];
      }
      i := i + 1;
    }
    assert symbols + [] == symbols;
  }

  lemma SymbolsStep(data: seq<byte>, is64: bool, symtab: Section, strtab: Section, i: nat, done: seq<Symbol>,
                    symbol: Option<Symbol>)
    requires symtab.offset + symtab.size <= |data| && i < SymbolCount(is64, symtab)
    requires symbol == Exported(data, strtab, RawSymbolAt(data, is64, symtab, i))
    ensures done + SymbolsFrom(data, is64, symtab, strtab, i) ==
            (if symbol.Some? then done + [symbol.value] else done) + SymbolsFrom(data, is64, symtab, strtab, i + 1)
  {
    hide Le, Exported;
    var rest := SymbolsFrom(data, is64, symtab, strtab, i + 1);
    if symbol.Some? {
      assert done + ([symbol.value] + rest) == done + [symbol.value] + rest;
    } else {
      assert [] + rest == rest;
    }
  }

  method ReadSymbols(data: seq<byte>, is64: bool, sections: seq<Section>) returns (symbols: seq<Symbol>)
    requires |data| < TWO_63
    ensures symbols == Symbols(data, is64, sections)
  {
    symbols := [];
    var symtab := FindSection(sections, SHT_DYNSYM);
    if symtab.None? {
      symtab := FindSection(sections, SHT_SYMTAB);
    }
    if symtab.Some? && symtab.value.link < |sections| {
      var table, strtab := symtab.value, sections[symtab.value.link];
      if strtab.typ == SHT_STRTAB && table.offset <= |data| && table.size <= |data| - table.offset &&
         strtab.offset <= |data| && strtab.size <= |data| - strtab.offset {
        if table.entrySize >= SymbolSize(is64) {
          symbols := ReadSymbolTable(data, is64, table, strtab);
        }
      }
    }
  }

  // ----- the whole parse -----

  lemma HeaderBounds(data: seq<byte>, is64: bool)
    requires |data| >= HeaderSize(is64)
    ensures var h := DecodeHeader(is64, data[..HeaderSize(is64)]);
            && h.phoff < TWO_64 && h.shoff < TWO_64 && h.phentsize < TWO_16 && h.phnum < TWO_16
            && h.shentsize < TWO_16 && h.shnum < TWO_16 && h.shstrndx < TWO_16
            && (!is64 ==> h.shoff < TWO_32)
  {
    var b := data[..HeaderSize(is64)];
    if is64 {
      LeBound(b[32..40]); LeBound(b[40..48]);
      LeBound(b[54..56]); LeBound(b[56..58]); LeBound(b[58..60]); LeBound(b[60..62]); LeBound(b[62..64]);
    } else {
      LeBound(b[28..32]); LeBound(b[32..36]);
      LeBound(b[42..44]); LeBound(b[44..46]); LeBound(b[46..48]); LeBound(b[48..50]); LeBound(b[50..52]);
    }
  }

  /** Extended numbering, with the wrapping offsets of the source. The unused
      64-bit reads of the 32-bit case have no effect and are omitted. */
  method ReadExtended(data: seq<byte>, is64: bool, h: Header) returns (shnum: nat, shstrndx: nat)
    requires |data| < TWO_63 && h.shoff < TWO_64 && h.shnum < TWO_16 && h.shstrndx < TWO_16
    requires !is64 ==> h.shoff < TWO_32
    ensures shnum < TWO_64
    ensures h.shoff <= |data| ==> shnum == ExtendedCount(data, is64, h) && shstrndx == ExtendedNameIndex(data, is64, h)
  {
    shnum, shstrndx := h.shnum, h.shstrndx;
    NoWrap64(|data|, h.shoff);
    if h.shnum == 0 && h.shoff != 0 {
      if is64 {
        var size, link := U64(data, Add64(h.shoff, 32)), U64(data, Add64(h.shoff, 40));
        if size.Ok? {
          LeBound(data[Add64(h.shoff, 32)..Add64(h.shoff, 32) + 8]);
          shnum := size.value;
        }
        if link.Ok? {
          shstrndx := link.value;
        }
      } else {
        var size32, link32 := U32(data, Add64(h.shoff, 20)), U32(data, Add64(h.shoff, 24));
        if size32.Ok? {
          LeBound(data[Add64(h.shoff, 20)..Add64(h.shoff, 20) + 4]);
          shnum := size32.value;
        }
        if link32.Ok? {
          shstrndx := link32.value;
        }
      }
    } else if h.shstrndx == SHN_XINDEX {
      if is64 {
        var link := U64(data, Add64(h.shoff, 40));
        if link.Ok? {
          shstrndx := link.value;
        }
      } else {
        var link32 := U32(data, Add64(h.shoff, 24));
        if link32.Ok? {
          shstrndx := link32.value;
        }
      }
    }
  }

  lemma FirstInfoBound(data: seq<byte>, is64: bool, off: nat, n: nat, stride: nat)
    requires TableFits(data, off, n, stride) && SectionSize(is64) <= stride && n > 0
    ensures SectionTable(data, is64, off, n, stride)[0].info < TWO_32
  {
    var b := Entry(data, off, n, stride, SectionSize(is64), 0);
    if is64 { LeBound(b[44..48]); } else { LeBound(b[28..32]); }
  }

  /** ElfImage::parse. */
  method Parse(data: seq<byte>) returns (r: Result<Image, ErrorCode>)
    requires |data| < TWO_63
    ensures r == ParseImage(data)
  {
    hide Le;
    var ident := ReadIdent(data);
    if ident.Err? {
      return Err(ident.error);
    }
    var is64 := ident.value;
    var header := ReadHeader(data, is64);
    if header.Err? {
      return Err(header.error);
    }
    var h := header.value;
    // The source checks the header size again here; its reads already imply it.
    assert |data| >= HeaderSize(is64);
    HeaderBounds(data, is64);
    var shnum, shstrndx := ReadExtended(data, is64, h);
    if h.shentsize < SectionSize(is64) {
      return Err(InvalidBinary);
    }
    Mul64Bound(ExtendedCount(data, is64, h), h.shentsize);
    Mul64Bound(shnum, h.shentsize);
    var raw := ReadSectionTable(data, is64, h.shoff, shnum, h.shentsize);
    if raw.Err? {
      return Err(raw.error);
    }
    if shnum > 0 {
      FirstInfoBound(data, is64, h.shoff, shnum, h.shentsize);
    }
    var sections := AssignNames(data, raw.value, shstrndx);
    var programHeaders := ReadProgramHeaders(data, is64, h, sections);
    if programHeaders.Err? {
      return Err(programHeaders.error);
    }
    var symbols := ReadSymbols(data, is64, sections);
    return Ok(Image(is64, ArchitectureOf(h.machine, is64), h.machine, h.typ, h.entry,
                    sections, programHeaders.value, symbols));
  }
}
