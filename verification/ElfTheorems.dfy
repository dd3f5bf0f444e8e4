/** What the ELF parse promises: stability under appended bytes, recovery of
    whole serialised images of either class, and the exact symbol view. */
module ElfTheorems {
  import opened Base
  import opened Reader
  import opened LittleEndian
  import opened Packing
  import opened ElfFormat
  import opened ElfEncoding

  // ----- tables under appended bytes -----

  lemma EntryExtends(d: seq<byte>, e: seq<byte>, off: nat, n: nat, stride: nat, size: nat, i: nat)
    requires d <= e && TableFits(d, off, n, stride) && i < n && size <= stride
    ensures TableFits(e, off, n, stride)
    ensures Entry(e, off, n, stride, size, i) == Entry(d, off, n, stride, size, i)
  {
    EntriesBefore(i, n, stride);
  }

  lemma SectionTableExtends(d: seq<byte>, e: seq<byte>, is64: bool, off: nat, n: nat, stride: nat)
    requires d <= e && TableFits(d, off, n, stride) && SectionSize(is64) <= stride
    ensures TableFits(e, off, n, stride)
    ensures SectionTable(e, is64, off, n, stride) == SectionTable(d, is64, off, n, stride)
  {
    forall i | 0 <= i < n
      ensures SectionTable(e, is64, off, n, stride)[i] == SectionTable(d, is64, off, n, stride)[i]
    {
      EntryExtends(d, e, off, n, stride, SectionSize(is64), i);
    }
  }

  lemma ProgramHeaderTableExtends(d: seq<byte>, e: seq<byte>, is64: bool, off: nat, n: nat, stride: nat)
    requires d <= e && TableFits(d, off, n, stride) && ProgramHeaderSize(is64) <= stride
    ensures TableFits(e, off, n, stride)
    ensures ProgramHeaderTable(e, is64, off, n, stride) == ProgramHeaderTable(d, is64, off, n, stride)
  {
    forall i | 0 <= i < n
      ensures ProgramHeaderTable(e, is64, off, n, stride)[i] == ProgramHeaderTable(d, is64, off, n, stride)[i]
    {
      EntryExtends(d, e, off, n, stride, ProgramHeaderSize(is64), i);
    }
  }

  lemma NameExtends(d: seq<byte>, e: seq<byte>, strtab: Section, index: nat)
    requires d <= e && IsStringTable(d, strtab)
    ensures NameAt(e, strtab, index) == NameAt(d, strtab, index)
  {
    if index < strtab.size {
      CStringWindow(d, e, strtab.offset + index, strtab.size - index);
    }
  }

  lemma {:induction false} SymbolsExtend(d: seq<byte>, e: seq<byte>, is64: bool, symtab: Section, strtab: Section,
                                         i: nat)
    requires d <= e && IsStringTable(d, strtab)
    requires symtab.offset + symtab.size <= |d| && i <= SymbolCount(is64, symtab)
    ensures SymbolsFrom(e, is64, symtab, strtab, i) == SymbolsFrom(d, is64, symtab, strtab, i)
    decreases SymbolCount(is64, symtab) - i
  {
    hide Le, Exported;
    if i < SymbolCount(is64, symtab) {
      RawSymbolExtends(d, e, is64, symtab, i);
      ExportedExtends(d, e, strtab, RawSymbolAt(d, is64, symtab, i));
      SymbolsExtend(d, e, is64, symtab, strtab, i + 1);
      var symbol := Exported(d, strtab, RawSymbolAt(d, is64, symtab, i));
      SymbolsUnfold(d, is64, symtab, strtab, i, symbol);
      SymbolsUnfold(e, is64, symtab, strtab, i, symbol);
    }
  }

  lemma ExportedExtends(d: seq<byte>, e: seq<byte>, strtab: Section, raw: RawSymbol)
    requires d <= e && IsStringTable(d, strtab)
    ensures Exported(e, strtab, raw) == Exported(d, strtab, raw)
  {
    NameExtends(d, e, strtab, raw.nameIndex);
  }

  lemma SymbolsUnfold(d: seq<byte>, is64: bool, symtab: Section, strtab: Section, i: nat, symbol: Option<Symbol>)
    requires symtab.offset + symtab.size <= |d| && i < SymbolCount(is64, symtab)
    requires symbol == Exported(d, strtab, RawSymbolAt(d, is64, symtab, i))
    ensures SymbolsFrom(d, is64, symtab, strtab, i) ==
            (if symbol.Some? then [symbol.value] else []) + SymbolsFrom(d, is64, symtab, strtab, i + 1)
  {
  }

  lemma RawSymbolExtends(d: seq<byte>, e: seq<byte>, is64: bool, symtab: Section, i: nat)
    requires d <= e && symtab.offset + symtab.size <= |d| && i < SymbolCount(is64, symtab)
    ensures RawSymbolAt(e, is64, symtab, i) == RawSymbolAt(d, is64, symtab, i)
  {
    var at, size := SymbolStart(is64, symtab, i), SymbolSize(is64);
    assert e[at..at + size] == d[at..at + size];
  }

  /** Where the size field of a section header ends; section 0 keeps the
      extended count there. */
  function SizeFieldEnd(is64: bool): nat { if is64 then 40 else 24 }

  /** The number of sections no longer depends on bytes behind the buffer: the
      header states it, or there is no table, or the buffer holds the size
      field of section 0. */
  predicate CountSettled(d: seq<byte>, is64: bool, h: Header) {
    h.shnum != 0 || h.shoff == 0 || h.shoff + SizeFieldEnd(is64) <= |d|
  }

  lemma CountExtends(d: seq<byte>, e: seq<byte>, is64: bool, h: Header)
    requires d <= e && CountSettled(d, is64, h)
    ensures ExtendedCount(e, is64, h) == ExtendedCount(d, is64, h)
  {
    if h.shnum == 0 && h.shoff != 0 {
      if is64 { FieldExtends(d, e, h.shoff + 32, 8); } else { FieldExtends(d, e, h.shoff + 20, 4); }
    }
  }

  /** With at least one section, section header 0 is in the buffer, so the
      extended index cannot change either. */
  lemma NameIndexExtends(d: seq<byte>, e: seq<byte>, is64: bool, h: Header)
    requires d <= e
    requires ExtendedCount(d, is64, h) > 0
    requires TableFits(d, h.shoff, ExtendedCount(d, is64, h), h.shentsize) && SectionSize(is64) <= h.shentsize
    ensures CountSettled(d, is64, h)
    ensures ExtendedNameIndex(e, is64, h) == ExtendedNameIndex(d, is64, h)
  {
    EntriesBefore(0, ExtendedCount(d, is64, h), h.shentsize);
    assert h.shoff + SectionSize(is64) <= |d|;
    if is64 { FieldExtends(d, e, h.shoff + 40, 8); } else { FieldExtends(d, e, h.shoff + 24, 4); }
  }

  /** t is s, except that an absent name may have appeared. */
  predicate NameMayAppear(s: Section, t: Section) {
    t == s || (s.name == [] && t.(name := []) == s)
  }

  /** The image of a longer buffer, as far as the shorter one fixes it. */
  predicate Refines(a: Image, b: Image) {
    && b.(sections := [], symbols := []) == a.(sections := [], symbols := [])
    && |b.sections| == |a.sections|
    && (forall i :: 0 <= i < |a.sections| ==> NameMayAppear(a.sections[i], b.sections[i]))
    && ((exists i :: 0 <= i < |a.sections| && a.sections[i].name != []) ==> b.sections == a.sections)
    && (b.symbols == a.symbols || a.symbols == [])
  }

  lemma NamedExtends(d: seq<byte>, e: seq<byte>, raw: seq<Section>, shstrndx: nat)
    requires d <= e
    requires forall i :: 0 <= i < |raw| ==> raw[i].name == []
    ensures var a, b := Named(d, raw, shstrndx), Named(e, raw, shstrndx);
            && (forall i :: 0 <= i < |raw| ==> NameMayAppear(a[i], b[i]))
            && ((exists i :: 0 <= i < |raw| && a[i].name != []) ==> b == a)
  {
    var a, b := Named(d, raw, shstrndx), Named(e, raw, shstrndx);
    if shstrndx < |raw| && IsStringTable(d, raw[shstrndx]) {
      forall i | 0 <= i < |raw|
        ensures a[i] == b[i]
      {
        NameExtends(d, e, raw[shstrndx], raw[i].nameIndex);
      }
      assert a == b;
    } else {
      forall i | 0 <= i < |raw|
        ensures a[i].name == [] && NameMayAppear(a[i], b[i])
      {
        assert a[i] == raw[i].(name := []);
        assert b[i] == raw[i].(name := b[i].name);
      }
    }
  }

  /** Names do not take part in the choice or the use of the symbol table. */
  lemma {:induction false} FirstOfTypeIgnoresNames(a: seq<Section>, b: seq<Section>, typ: nat)
    requires |a| == |b|
    requires forall i :: 0 <= i < |a| ==> b[i].(name := []) == a[i].(name := [])
    ensures FirstOfType(a, typ).Some? == FirstOfType(b, typ).Some?
    ensures FirstOfType(a, typ).Some? ==>
              FirstOfType(a, typ).value.(name := []) == FirstOfType(b, typ).value.(name := [])
  {
    if a != [] {
      assert b[0].(name := []) == a[0].(name := []);
      FirstOfTypeIgnoresNames(a[1..], b[1..], typ);
    }
  }

  predicate SameExtent(s: Section, t: Section) {
    t.offset == s.offset && t.size == s.size
  }

  lemma {:induction false} SymbolsFromIgnoresNames(d: seq<byte>, is64: bool, t: Section, u: Section, strtab: Section,
                                                   strtab': Section, i: nat)
    requires SameExtent(t, u) && SameExtent(strtab, strtab')
    requires t.offset + t.size <= |d| && i <= SymbolCount(is64, t)
    ensures SymbolsFrom(d, is64, u, strtab', i) == SymbolsFrom(d, is64, t, strtab, i)
    decreases SymbolCount(is64, t) - i
  {
    hide Le, Exported;
    if i < SymbolCount(is64, t) {
      SymbolsFromIgnoresNames(d, is64, t, u, strtab, strtab', i + 1);
      var raw := RawSymbolAt(d, is64, t, i);
      ExportedIgnoresNames(d, strtab, strtab', raw);
      var symbol := Exported(d, strtab, raw);
      SymbolsUnfold(d, is64, t, strtab, i, symbol);
      SymbolsUnfold(d, is64, u, strtab', i, symbol);
    }
  }

  lemma ExportedIgnoresNames(d: seq<byte>, strtab: Section, strtab': Section, raw: RawSymbol)
    requires SameExtent(strtab, strtab')
    ensures Exported(d, strtab', raw) == Exported(d, strtab, raw)
  {
  }

  lemma SymbolsIgnoreNames(d: seq<byte>, is64: bool, a: seq<Section>, b: seq<Section>)
    requires |a| == |b|
    requires forall i :: 0 <= i < |a| ==> b[i].(name := []) == a[i].(name := [])
    ensures Symbols(d, is64, b) == Symbols(d, is64, a)
  {
    hide FirstOfType, SymbolsFrom;
    FirstOfTypeIgnoresNames(a, b, SHT_DYNSYM);
    FirstOfTypeIgnoresNames(a, b, SHT_SYMTAB);
    if SymbolSection(a).Some? && SymbolSection(a).value.link < |a| {
      var t, u := SymbolSection(a).value, SymbolSection(b).value;
      assert b[t.link].(name := []) == a[t.link].(name := []);
      if SymbolTableUsable(d, is64, a, t) {
        SymbolsFromIgnoresNames(d, is64, t, u, a[t.link], b[t.link], 0);
      }
    }
  }

  lemma SymbolsOfExtended(d: seq<byte>, e: seq<byte>, is64: bool, a: seq<Section>, b: seq<Section>)
    requires d <= e && |a| == |b|
    requires forall i :: 0 <= i < |a| ==> b[i].(name := []) == a[i].(name := [])
    ensures Symbols(e, is64, b) == Symbols(d, is64, a) || Symbols(d, is64, a) == []
  {
    hide FirstOfType, SymbolsFrom;
    SymbolsIgnoreNames(e, is64, a, b);
    if SymbolSection(a).Some? && SymbolTableUsable(d, is64, a, SymbolSection(a).value) {
      var t := SymbolSection(a).value;
      SymbolsExtend(d, e, is64, t, a[t.link], 0);
    }
  }

  /** What the parse reads of the identification and the file header. */
  predicate HasHeader(d: seq<byte>, is64: bool, h: Header) {
    Ident(d) == Ok(is64) && HeaderOf(d, is64) == Ok(h)
  }

  lemma HeaderExtends(d: seq<byte>, e: seq<byte>, is64: bool, h: Header)
    requires d <= e && HasHeader(d, is64, h)
    ensures HasHeader(e, is64, h)
  {
    hide DecodeHeader;
    assert e[..4] == d[..4];
    assert e[..HeaderSize(is64)] == d[..HeaderSize(is64)];
  }

  /** Appending bytes to an image whose section count is settled never
      invalidates it: header fields, raw section fields and program headers
      stay, and names and symbols can only go from absent to present. */
  lemma AppendedBytesRefine(d: seq<byte>, e: seq<byte>, is64: bool, h: Header)
    requires d <= e && ParseImage(d).Ok?
    requires HasHeader(d, is64, h) && CountSettled(d, is64, h)
    ensures ParseImage(e).Ok? && Refines(ParseImage(d).value, ParseImage(e).value)
  {
    hide Le, SymbolsFrom, SectionName;
    HeaderExtends(d, e, is64, h);
    var raw := Sections(d, is64, h).value;
    CountExtends(d, e, is64, h);
    var n, k := ExtendedCount(d, is64, h), ExtendedNameIndex(d, is64, h);
    SectionTableExtends(d, e, is64, h.shoff, n, h.shentsize);
    assert Sections(e, is64, h) == Ok(raw);
    NamedExtends(d, e, raw, k);
    var a, b := Named(d, raw, k), Named(e, raw, k);
    if n > 0 {
      NameIndexExtends(d, e, is64, h);
    }
    assert Named(e, raw, ExtendedNameIndex(e, is64, h)) == b;
    ProgramHeadersExtend(d, e, is64, h, a, b);
    forall i | 0 <= i < |a|
      ensures b[i].(name := []) == a[i].(name := [])
    {
      assert NameMayAppear(a[i], b[i]);
    }
    SymbolsOfExtended(d, e, is64, a, b);
  }

  lemma ProgramHeadersExtend(d: seq<byte>, e: seq<byte>, is64: bool, h: Header, a: seq<Section>, b: seq<Section>)
    requires d <= e && |a| == |b| && (a != [] ==> NameMayAppear(a[0], b[0]))
    requires ProgramHeaders(d, is64, h, a).Ok?
    ensures ProgramHeaders(e, is64, h, b) == ProgramHeaders(d, is64, h, a)
  {
    assert ProgramHeaderCount(h, b) == ProgramHeaderCount(h, a);
    if h.phoff != 0 && h.phnum != 0 {
      ProgramHeaderTableExtends(d, e, is64, h.phoff, ProgramHeaderCount(h, a), h.phentsize);
    }
  }

  // ----- whole images, written and read back -----

  /** How a header announces a list of sections: directly, or through the size
      field of section 0 when e_shnum is zero. */
  predicate Announces(h: Header, sections: seq<Section>) {
    if h.shnum != 0 then |sections| == h.shnum
    else h.shoff != 0 && sections != [] && sections[0].size == |sections|
  }

  predicate AnnouncesProgram(h: Header, sections: seq<Section>, programHeaders: seq<ProgramHeader>) {
    if h.phoff == 0 || h.phnum == 0 then programHeaders == []
    else |programHeaders| == ProgramHeaderCount(h, sections)
  }

  /** The buffer holds these records at the places the header gives; what lies
      between and behind them is arbitrary. */
  predicate LaidOut(d: seq<byte>, is64: bool, h: Header, rest: HeaderRest, sections: seq<Section>,
                    programHeaders: seq<ProgramHeader>) {
    && |rest.ident| == 10 && HeaderSize(is64) <= |d| && d[..HeaderSize(is64)] == EncodeHeader(is64, h, rest)
    && SectionSize(is64) <= h.shentsize && TableFits(d, h.shoff, |sections|, h.shentsize)
    && (forall i :: 0 <= i < |sections| ==>
          Entry(d, h.shoff, |sections|, h.shentsize, SectionSize(is64), i) == EncodeSection(is64, sections[i]))
    && (programHeaders != [] ==>
          && ProgramHeaderSize(is64) <= h.phentsize && TableFits(d, h.phoff, |programHeaders|, h.phentsize)
          && forall i :: 0 <= i < |programHeaders| ==>
               Entry(d, h.phoff, |programHeaders|, h.phentsize, ProgramHeaderSize(is64), i)
               == EncodeProgramHeader(is64, programHeaders[i]))
  }

  predicate AllFit(is64: bool, h: Header, rest: HeaderRest, sections: seq<Section>,
                   programHeaders: seq<ProgramHeader>) {
    && HeaderFits(is64, h, rest)
    && (forall i :: 0 <= i < |sections| ==> sections[i].name == [] && Fits(SectionLayout(is64, sections[i])))
    && (forall i :: 0 <= i < |programHeaders| ==> Fits(ProgramHeaderLayout(is64, programHeaders[i])))
  }

  function WithoutNames(sections: seq<Section>): (s: seq<Section>)
    ensures |s| == |sections|
  {
    seq(|sections|, i requires 0 <= i < |sections| => sections[i].(name := []))
  }

  lemma IdentOfEncoded(d: seq<byte>, is64: bool, h: Header, rest: HeaderRest)
    requires |rest.ident| == 10 && HeaderSize(is64) <= |d| && d[..HeaderSize(is64)] == EncodeHeader(is64, h, rest)
    ensures Ident(d) == Ok(is64)
  {
    var b := EncodeHeader(is64, h, rest);
    assert forall i :: 0 <= i < 16 ==> d[i] == d[..HeaderSize(is64)][i] == IdentBytes(is64, rest)[i];
    assert d[0] == 0x7F && d[1] == 0x45 && d[2] == 0x4C && d[3] == 0x46;
    assert d[4] == IdentBytes(is64, rest)[4] && d[5] == 1;
  }

  /** Section 0 as written gives the announced count back. */
  lemma CountOfEncoded(d: seq<byte>, is64: bool, h: Header, sections: seq<Section>)
    requires SectionSize(is64) <= h.shentsize && TableFits(d, h.shoff, |sections|, h.shentsize)
    requires Announces(h, sections)
    requires sections != [] ==> Fits(SectionLayout(is64, sections[0]))
    requires sections != [] ==>
               Entry(d, h.shoff, |sections|, h.shentsize, SectionSize(is64), 0) == EncodeSection(is64, sections[0])
    ensures ExtendedCount(d, is64, h) == |sections|
  {
    if h.shnum == 0 {
      SectionRoundTrip(is64, sections[0]);
      EntriesBefore(0, |sections|, h.shentsize);
      if is64 {
        FieldOfRecord(d, h.shoff, 64, 32, 8);
      } else {
        FieldOfRecord(d, h.shoff, 40, 20, 4);
      }
    }
  }

  lemma SectionsOfEncoded(d: seq<byte>, is64: bool, h: Header, sections: seq<Section>)
    requires SectionSize(is64) <= h.shentsize && TableFits(d, h.shoff, |sections|, h.shentsize)
    requires forall i :: 0 <= i < |sections| ==> sections[i].name == [] && Fits(SectionLayout(is64, sections[i]))
    requires forall i :: 0 <= i < |sections| ==>
               Entry(d, h.shoff, |sections|, h.shentsize, SectionSize(is64), i) == EncodeSection(is64, sections[i])
    ensures SectionTable(d, is64, h.shoff, |sections|, h.shentsize) == sections
  {
    forall i | 0 <= i < |sections|
      ensures SectionTable(d, is64, h.shoff, |sections|, h.shentsize)[i] == sections[i]
    {
      SectionRoundTrip(is64, sections[i]);
    }
  }

  lemma ProgramHeadersOfEncoded(d: seq<byte>, is64: bool, h: Header, programHeaders: seq<ProgramHeader>)
    requires ProgramHeaderSize(is64) <= h.phentsize && TableFits(d, h.phoff, |programHeaders|, h.phentsize)
    requires forall i :: 0 <= i < |programHeaders| ==> Fits(ProgramHeaderLayout(is64, programHeaders[i]))
    requires forall i :: 0 <= i < |programHeaders| ==>
               Entry(d, h.phoff, |programHeaders|, h.phentsize, ProgramHeaderSize(is64), i)
               == EncodeProgramHeader(is64, programHeaders[i])
    ensures ProgramHeaderTable(d, is64, h.phoff, |programHeaders|, h.phentsize) == programHeaders
  {
    forall i | 0 <= i < |programHeaders|
      ensures ProgramHeaderTable(d, is64, h.phoff, |programHeaders|, h.phentsize)[i] == programHeaders[i]
    {
      ProgramHeaderRoundTrip(is64, programHeaders[i]);
    }
  }

  /** Serialise, then parse: for every list of section records and program
      headers whose fields fit the class, at any offset and with any stride of
      at least the record size, counted directly or through section 0, the
      parse succeeds and returns the same records in order. */
  lemma ParseOfEncoded(d: seq<byte>, is64: bool, h: Header, rest: HeaderRest, sections: seq<Section>,
                       programHeaders: seq<ProgramHeader>)
    requires AllFit(is64, h, rest, sections, programHeaders)
    requires Announces(h, sections) && AnnouncesProgram(h, sections, programHeaders)
    requires LaidOut(d, is64, h, rest, sections, programHeaders)
    requires h.phoff != 0 && h.phnum != 0 ==>
               ProgramHeaderSize(is64) <= h.phentsize && TableFits(d, h.phoff, |programHeaders|, h.phentsize)
    ensures ParseImage(d).Ok?
    ensures var image := ParseImage(d).value;
            && image.is64 == is64 && image.machine == h.machine && image.typ == h.typ && image.entryPoint == h.entry
            && WithoutNames(image.sections) == sections
            && image.programHeaders == programHeaders
  {
    hide Le, SymbolsFrom, SectionName;
    IdentOfEncoded(d, is64, h, rest);
    HeaderRoundTrip(is64, h, rest);
    assert HeaderOf(d, is64) == Ok(h);
    CountOfEncoded(d, is64, h, sections);
    SectionsOfEncoded(d, is64, h, sections);
    assert Sections(d, is64, h) == Ok(sections);
    var named := Named(d, sections, ExtendedNameIndex(d, is64, h));
    assert WithoutNames(named) == sections by {
      forall i | 0 <= i < |sections|
        ensures WithoutNames(named)[i] == sections[i]
      {
        assert named[i].(name := []) == sections[i].(name := []);
      }
    }
    ProgramHeadersOfImage(d, is64, h, rest, sections, named, programHeaders);
  }

  lemma ProgramHeadersOfImage(d: seq<byte>, is64: bool, h: Header, rest: HeaderRest, sections: seq<Section>,
                              named: seq<Section>, programHeaders: seq<ProgramHeader>)
    requires AllFit(is64, h, rest, sections, programHeaders)
    requires AnnouncesProgram(h, sections, programHeaders)
    requires LaidOut(d, is64, h, rest, sections, programHeaders)
    requires h.phoff != 0 && h.phnum != 0 ==>
               ProgramHeaderSize(is64) <= h.phentsize && TableFits(d, h.phoff, |programHeaders|, h.phentsize)
    requires |named| == |sections| && (sections != [] ==> named[0].info == sections[0].info)
    ensures ProgramHeaders(d, is64, h, named) == Ok(programHeaders)
  {
    assert ProgramHeaderCount(h, named) == ProgramHeaderCount(h, sections);
    if h.phoff != 0 && h.phnum != 0 {
      ProgramHeadersOfEncoded(d, is64, h, programHeaders);
    }
  }

  /** Both classes normalise to the same records: a 32-bit and a 64-bit image
      of one list of sections and program headers parse alike, names aside. */
  lemma ClassesNormalise(d32: seq<byte>, d64: seq<byte>, h32: Header, rest32: HeaderRest, h64: Header,
                         rest64: HeaderRest, sections: seq<Section>, programHeaders: seq<ProgramHeader>)
    requires AllFit(false, h32, rest32, sections, programHeaders) && AllFit(true, h64, rest64, sections, programHeaders)
    requires Announces(h32, sections) && Announces(h64, sections)
    requires AnnouncesProgram(h32, sections, programHeaders) && AnnouncesProgram(h64, sections, programHeaders)
    requires h32.phoff != 0 && h32.phnum != 0 ==>
               ProgramHeaderSize(false) <= h32.phentsize && TableFits(d32, h32.phoff, |programHeaders|, h32.phentsize)
    requires h64.phoff != 0 && h64.phnum != 0 ==>
               ProgramHeaderSize(true) <= h64.phentsize && TableFits(d64, h64.phoff, |programHeaders|, h64.phentsize)
    requires LaidOut(d32, false, h32, rest32, sections, programHeaders)
    requires LaidOut(d64, true, h64, rest64, sections, programHeaders)
    ensures ParseImage(d32).Ok? && ParseImage(d64).Ok?
    ensures WithoutNames(ParseImage(d32).value.sections) == WithoutNames(ParseImage(d64).value.sections)
    ensures ParseImage(d32).value.programHeaders == ParseImage(d64).value.programHeaders
  {
    ParseOfEncoded(d32, false, h32, rest32, sections, programHeaders);
    ParseOfEncoded(d64, true, h64, rest64, sections, programHeaders);
  }

  // ----- a serialiser -----

  /** Records of one size, each padded to the stride. */
  function Table(records: seq<seq<byte>>, stride: nat): seq<byte>
    requires forall i :: 0 <= i < |records| ==> |records[i]| <= stride
  {
    if records == [] then []
    else records[0] + ZeroBytes(stride - |records[0]|) + Table(records[1..], stride)
  }

  lemma TableUnfold(records: seq<seq<byte>>, stride: nat)
    requires records != [] && forall i :: 0 <= i < |records| ==> |records[i]| <= stride
    ensures var table, rest := Table(records, stride), Table(records[1..], stride);
            && |table| == stride + |rest|
            && table[..|records[0]|] == records[0] && table[stride..stride + |rest|] == rest
  {
  }

  lemma {:induction false} TableRecord(records: seq<seq<byte>>, stride: nat, i: nat)
    requires forall i :: 0 <= i < |records| ==> |records[i]| <= stride
    requires i < |records|
    ensures |Table(records, stride)| == |records| * stride
    ensures 0 <= i * stride && i * stride + |records[i]| <= |records| * stride
    ensures Table(records, stride)[i * stride..i * stride + |records[i]|] == records[i]
  {
    hide Table;
    TableLength(records, stride);
    EntriesBefore(i, |records|, stride);
    TableUnfold(records, stride);
    if i > 0 {
      NextEntry(i - 1, stride);
      TableRecord(records[1..], stride, i - 1);
      SliceOfSlice(Table(records, stride), stride, |Table(records[1..], stride)|, (i - 1) * stride, |records[i]|);
    }
  }

  lemma {:induction false} TableLength(records: seq<seq<byte>>, stride: nat)
    requires forall i :: 0 <= i < |records| ==> |records[i]| <= stride
    ensures |Table(records, stride)| == |records| * stride
  {
    if records != [] {
      TableLength(records[1..], stride);
      NextEntry(|records| - 1, stride);
    }
  }

  function EncodedSections(is64: bool, sections: seq<Section>): seq<seq<byte>> {
    seq(|sections|, i requires 0 <= i < |sections| => EncodeSection(is64, sections[i]))
  }

  function EncodedProgramHeaders(is64: bool, programHeaders: seq<ProgramHeader>): seq<seq<byte>> {
    seq(|programHeaders|, i requires 0 <= i < |programHeaders| => EncodeProgramHeader(is64, programHeaders[i]))
  }

  /** The header for tables placed right behind it: program headers, then sections. */
  predicate PlacesTables(is64: bool, h: Header, sections: seq<Section>, programHeaders: seq<ProgramHeader>) {
    && SectionSize(is64) <= h.shentsize && ProgramHeaderSize(is64) <= h.phentsize
    && h.phoff == HeaderSize(is64)
    && h.shoff == HeaderSize(is64) + |programHeaders| * h.phentsize
  }

  lemma RecordSizes(is64: bool, sections: seq<Section>, programHeaders: seq<ProgramHeader>)
    ensures forall i :: 0 <= i < |sections| ==> |EncodedSections(is64, sections)[i]| == SectionSize(is64)
    ensures forall i :: 0 <= i < |programHeaders| ==>
                          |EncodedProgramHeaders(is64, programHeaders)[i]| == ProgramHeaderSize(is64)
  {
    forall i | 0 <= i < |sections|
      ensures |EncodedSections(is64, sections)[i]| == SectionSize(is64)
    {
      SectionRecordSize(is64, sections[i]);
    }
    forall i | 0 <= i < |programHeaders|
      ensures |EncodedProgramHeaders(is64, programHeaders)[i]| == ProgramHeaderSize(is64)
    {
      ProgramHeaderRecordSize(is64, programHeaders[i]);
    }
  }

  function Serialize(is64: bool, h: Header, rest: HeaderRest, sections: seq<Section>,
                     programHeaders: seq<ProgramHeader>): seq<byte>
    requires |rest.ident| == 10
    requires PlacesTables(is64, h, sections, programHeaders)
  {
    RecordSizes(is64, sections, programHeaders);
    EncodeHeader(is64, h, rest) + Table(EncodedProgramHeaders(is64, programHeaders), h.phentsize)
    + Table(EncodedSections(is64, sections), h.shentsize)
  }

  /** A table that follows a prefix holds its records at the expected places. */
  lemma TableInside(before: seq<byte>, records: seq<seq<byte>>, stride: nat, size: nat, behind: seq<byte>)
    requires size <= stride && forall i :: 0 <= i < |records| ==> |records[i]| == size
    ensures var d := before + Table(records, stride) + behind;
            TableFits(d, |before|, |records|, stride) &&
            forall i :: 0 <= i < |records| ==> Entry(d, |before|, |records|, stride, size, i) == records[i]
  {
    hide Table;
    var table := Table(records, stride);
    var d := before + table + behind;
    TableLength(records, stride);
    assert d[|before|..|before| + |table|] == table;
    forall i | 0 <= i < |records|
      ensures Entry(d, |before|, |records|, stride, size, i) == records[i]
    {
      TableRecord(records, stride, i);
      SliceOfSlice(d, |before|, |table|, i * stride, size);
    }
  }

  lemma SerializedIsLaidOut(is64: bool, h: Header, rest: HeaderRest, sections: seq<Section>,
                            programHeaders: seq<ProgramHeader>, behind: seq<byte>)
    requires |rest.ident| == 10
    requires PlacesTables(is64, h, sections, programHeaders)
    ensures var d := Serialize(is64, h, rest, sections, programHeaders) + behind;
            LaidOut(d, is64, h, rest, sections, programHeaders) && TableFits(d, h.phoff, |programHeaders|, h.phentsize)
  {
    hide Table, EncodeSection, EncodeProgramHeader, EncodeHeader;
    RecordSizes(is64, sections, programHeaders);
    HeaderSizes(is64, h, rest);
    var head := EncodeHeader(is64, h, rest);
    var ps, ss := EncodedProgramHeaders(is64, programHeaders), EncodedSections(is64, sections);
    var pt, st := Table(ps, h.phentsize), Table(ss, h.shentsize);
    var d := Serialize(is64, h, rest, sections, programHeaders) + behind;
    TableLength(ps, h.phentsize);
    assert d == head + pt + (st + behind);
    TableInside(head, ps, h.phentsize, ProgramHeaderSize(is64), st + behind);
    assert d == (head + pt) + st + behind;
    TableInside(head + pt, ss, h.shentsize, SectionSize(is64), behind);
    assert d[..HeaderSize(is64)] == head;
  }

  lemma HeaderOfSerialized(is64: bool, h: Header, rest: HeaderRest, sections: seq<Section>,
                           programHeaders: seq<ProgramHeader>, behind: seq<byte>)
    requires PlacesTables(is64, h, sections, programHeaders) && HeaderFits(is64, h, rest)
    ensures HasHeader(Serialize(is64, h, rest, sections, programHeaders) + behind, is64, h)
  {
    hide Serialize, EncodeHeader, DecodeHeader;
    SerializedIsLaidOut(is64, h, rest, sections, programHeaders, behind);
    IdentOfEncoded(Serialize(is64, h, rest, sections, programHeaders) + behind, is64, h, rest);
    HeaderRoundTrip(is64, h, rest);
  }

  /** The serialiser produces images that the parser reads back, whatever
      bytes follow the tables. */
  lemma ParseOfSerialized(is64: bool, h: Header, rest: HeaderRest, sections: seq<Section>,
                          programHeaders: seq<ProgramHeader>, behind: seq<byte>)
    requires PlacesTables(is64, h, sections, programHeaders)
    requires AllFit(is64, h, rest, sections, programHeaders)
    requires Announces(h, sections) && AnnouncesProgram(h, sections, programHeaders)
    ensures var r := ParseImage(Serialize(is64, h, rest, sections, programHeaders) + behind);
            && r.Ok? && r.value.is64 == is64
            && r.value.machine == h.machine && r.value.typ == h.typ && r.value.entryPoint == h.entry
            && WithoutNames(r.value.sections) == sections && r.value.programHeaders == programHeaders
  {
    SerializedIsLaidOut(is64, h, rest, sections, programHeaders, behind);
    var d := Serialize(is64, h, rest, sections, programHeaders) + behind;
    ParseOfEncoded(d, is64, h, rest, sections, programHeaders);
  }

  // ----- when appended bytes can break an image -----

  /** The usual contents of the unread fields of a 64-bit header. */
  const PLAIN_REST := HeaderRest([1, 0, 0, 0, 0, 0, 0, 0, 0, 0], 1, 0, 64)

  lemma {:induction false} LastByteCounts(s: seq<byte>)
    requires s != [] && s[|s| - 1] != 0
    ensures Le(s) > 0
  {
    if |s| > 1 {
      LastByteCounts(s[1..]);
    }
  }

  /** A table offset near the end of the buffer, and bytes that let section 0
      announce a count that cannot fit. */
  lemma UnsettledCountBreaks(d: seq<byte>, is64: bool, h: Header)
    requires ParseImage(d).Ok? && HasHeader(d, is64, h) && !CountSettled(d, is64, h)
    ensures exists e: seq<byte> :: d <= e && |e| <= |d| + SizeFieldEnd(is64) && ParseImage(e).Err?
  {
    hide Le, SymbolsFrom, DecodeHeader;
    var end := h.shoff + SizeFieldEnd(is64);
    assert TableFits(d, h.shoff, 0, h.shentsize);
    var fill: seq<byte> := seq(end - |d|, _ => 0xFF);
    var e := d + fill;
    HeaderExtends(d, e, is64, h);
    assert e[end - 1] == fill[|fill| - 1] == 0xFF;
    LastByteCounts(e[if is64 then h.shoff + 32 else h.shoff + 20..end]);
    var n := ExtendedCount(e, is64, h);
    assert n > 0;
    EntriesBefore(0, n, h.shentsize);
    assert Sections(e, is64, h) == Err(InvalidBinary);
    assert ParseImage(e).Err?;
  }

  /** The exact condition: whatever is appended, the parse succeeds and refines
      the shorter one, if and only if the section count is settled. */
  lemma AppendIsSafeIff(d: seq<byte>, is64: bool, h: Header)
    requires ParseImage(d).Ok? && HasHeader(d, is64, h)
    ensures (forall e: seq<byte> :: d <= e ==>
               ParseImage(e).Ok? && Refines(ParseImage(d).value, ParseImage(e).value))
            <==> CountSettled(d, is64, h)
  {
    hide ParseImage, Refines, HasHeader;
    if CountSettled(d, is64, h) {
      forall e: seq<byte> | d <= e
        ensures ParseImage(e).Ok? && Refines(ParseImage(d).value, ParseImage(e).value)
      {
        AppendedBytesRefine(d, e, is64, h);
      }
    } else {
      UnsettledCountBreaks(d, is64, h);
    }
  }

  /** Any section at all settles the count. */
  lemma SectionsSettleCount(d: seq<byte>, is64: bool, h: Header)
    requires ParseImage(d).Ok? && HasHeader(d, is64, h) && ParseImage(d).value.sections != []
    ensures CountSettled(d, is64, h)
  {
    hide Le, SymbolsFrom, SectionName, DecodeHeader;
    NameIndexExtends(d, d, is64, h);
  }

  /** An instance of the failure: a bare header whose section table starts at
      the end of the buffer parses with no sections, and stops parsing when a
      section 0 that announces two is appended. */
  lemma AppendBreaksEmptyTable()
    ensures exists d, e: seq<byte> ::
              (d <= e && ParseImage(d).Ok? && ParseImage(d).value.sections == [] && ParseImage(e).Err?)
  {
    hide Le, Pack, Pow256, HeaderLayout, HeaderFits, SectionLayout, DecodeSection, SymbolsFrom;
    var h := Header(3, 62, 0, 0, 64, 56, 0, 64, 0, 0);
    var first := Section([], 0, 0, 0, 0, 0, 2, 0, 0, 0, 0);
    BreakFits(h, first);
    HeaderRoundTrip(true, h, PLAIN_REST);
    SectionRoundTrip64(first);
    var d, record := EncodeHeader(true, h, PLAIN_REST), EncodeSection(true, first);
    var e := d + record;
    assert d[..64] == d && e[..64] == d && e[64..64 + 64] == record;
    IdentOfEncoded(d, true, h, PLAIN_REST);
    IdentOfEncoded(e, true, h, PLAIN_REST);
    BareHeaderParses(d, h);
    AnnouncedSizeRead(e, first);
    assert ParseImage(e).Err?;
  }

  lemma BreakFits(h: Header, first: Section)
    requires h == Header(3, 62, 0, 0, 64, 56, 0, 64, 0, 0)
    requires first == Section([], 0, 0, 0, 0, 0, 2, 0, 0, 0, 0)
    ensures HeaderFits(true, h, PLAIN_REST) && Fits(SectionLayout(true, first))
  {
    hide Pow256;
    PowValues();
  }

  lemma BareHeaderParses(d: seq<byte>, h: Header)
    requires |d| == 64 && Ident(d) == Ok(true) && HeaderOf(d, true) == Ok(h)
    requires h.shnum == 0 && h.shoff == 64 && h.phoff == 0 && h.shentsize == 64
    ensures ParseImage(d).Ok? && ParseImage(d).value.sections == []
  {
    hide Le;
  }

  lemma AnnouncedSizeRead(e: seq<byte>, first: Section)
    requires |e| == 128 && DecodeSection(true, e[64..128]) == first
    ensures U64(e, 96) == Ok(first.size)
  {
    hide Le;
    FieldOfRecord(e, 64, 64, 32, 8);
  }

  // ----- the symbol view -----

  /** The values of the entries that are there, in order. */
  function Somes<T>(s: seq<Option<T>>): seq<T> {
    if s == [] then []
    else
      var last := s[|s| - 1];
      Somes(s[..|s| - 1]) + (if last.Some? then [last.value] else [])
  }

  /** Their indices. */
  function Positions<T>(s: seq<Option<T>>): seq<nat> {
    if s == [] then []
    else Positions(s[..|s| - 1]) + (if s[|s| - 1].Some? then [|s| - 1] else [])
  }

  lemma {:induction false} SomesExact<T>(s: seq<Option<T>>)
    ensures |Positions(s)| == |Somes(s)|
    ensures forall k :: 0 <= k < |Positions(s)| ==> Positions(s)[k] < |s| && s[Positions(s)[k]] == Some(Somes(s)[k])
    ensures forall j, k :: 0 <= j < k < |Positions(s)| ==> Positions(s)[j] < Positions(s)[k]
    ensures forall j :: 0 <= j < |s| && s[j].Some? ==> j in Positions(s)
  {
    if s != [] {
      var n := |s| - 1;
      SomesExact(s[..n]);
      assert forall j :: 0 <= j < n ==> s[..n][j] == s[j];
    }
  }

  /** The export test of every entry of the table. */
  function Tests(d: seq<byte>, is64: bool, symtab: Section, strtab: Section): (t: seq<Option<Symbol>>)
    requires symtab.offset + symtab.size <= |d|
    ensures |t| == SymbolCount(is64, symtab)
  {
    seq(SymbolCount(is64, symtab), i requires 0 <= i < SymbolCount(is64, symtab) =>
      Exported(d, strtab, RawSymbolAt(d, is64, symtab, i)))
  }

  lemma {:induction false} SymbolsFromTests(d: seq<byte>, is64: bool, symtab: Section, strtab: Section, i: nat)
    requires symtab.offset + symtab.size <= |d| && i <= SymbolCount(is64, symtab)
    ensures var t := Tests(d, is64, symtab, strtab); Somes(t) == Somes(t[..i]) + SymbolsFrom(d, is64, symtab, strtab, i)
    decreases SymbolCount(is64, symtab) - i
  {
    hide Le, Exported;
    var t := Tests(d, is64, symtab, strtab);
    if i == |t| {
      assert t[..i] == t;
    } else {
      SymbolsFromTests(d, is64, symtab, strtab, i + 1);
      SymbolsUnfold(d, is64, symtab, strtab, i, t[i]);
      assert t[..i + 1][..i] == t[..i];
    }
  }

  /** The symbol list is the image of exactly the entries that pass the export
      test, over the whole table and in table order. */
  lemma SymbolsAreFilterMap(d: seq<byte>, is64: bool, symtab: Section, strtab: Section)
    requires symtab.offset + symtab.size <= |d|
    ensures var t, symbols := Tests(d, is64, symtab, strtab), SymbolsFrom(d, is64, symtab, strtab, 0);
            var kept := Positions(t);
            && |kept| == |symbols|
            && (forall k :: 0 <= k < |kept| ==> kept[k] < |t| && t[kept[k]] == Some(symbols[k]))
            && (forall j, k :: 0 <= j < k < |kept| ==> kept[j] < kept[k])
            && (forall j :: 0 <= j < |t| && t[j].Some? ==> j in kept)
  {
    var t := Tests(d, is64, symtab, strtab);
    SymbolsFromTests(d, is64, symtab, strtab, 0);
    assert t[..0] == [];
    assert Somes(t) == SymbolsFrom(d, is64, symtab, strtab, 0);
    SomesExact(t);
  }

  /** A written symbol: its record, and the st_other byte nobody reads. */
  datatype WrittenSymbol = WrittenSymbol(raw: RawSymbol, other: nat)

  predicate SymbolsLaidOut(d: seq<byte>, is64: bool, symtab: Section, written: seq<WrittenSymbol>) {
    && symtab.offset + symtab.size <= |d| && |written| == SymbolCount(is64, symtab)
    && forall i :: 0 <= i < |written| ==>
         && Fits(SymbolLayout(is64, written[i].raw, written[i].other))
         && d[SymbolStart(is64, symtab, i)..SymbolStart(is64, symtab, i) + SymbolSize(is64)]
            == EncodeSymbol(is64, written[i].raw, written[i].other)
  }

  /** Written symbols, read back: the symbol view is the export filter of what
      was written, in both classes. */
  lemma SymbolsOfEncoded(d: seq<byte>, is64: bool, symtab: Section, strtab: Section, written: seq<WrittenSymbol>)
    requires SymbolsLaidOut(d, is64, symtab, written)
    ensures SymbolsFrom(d, is64, symtab, strtab, 0)
         == Somes(seq(|written|, i requires 0 <= i < |written| => Exported(d, strtab, written[i].raw)))
  {
    hide Le, Exported, EncodeSymbol, DecodeSymbol, SymbolsFrom, Fits;
    var t := Tests(d, is64, symtab, strtab);
    SymbolsFromTests(d, is64, symtab, strtab, 0);
    assert t[..0] == [];
    forall i | 0 <= i < |written|
      ensures t[i] == Exported(d, strtab, written[i].raw)
    {
      SymbolRoundTrip(is64, written[i].raw, written[i].other);
    }
    assert t == seq(|written|, i requires 0 <= i < |written| => Exported(d, strtab, written[i].raw));
  }

  /** The string table names index with s: not empty, free of NULs, its NUL
      inside the table. */
  predicate NamedBy(d: seq<byte>, strtab: Section, index: nat, s: seq<byte>) {
    s != [] && index < strtab.size && TerminatedAt(d, strtab.offset + index, strtab.size - index, s)
  }

  /** What passing the export test means, and where the name comes from. */
  lemma ExportedMeans(d: seq<byte>, strtab: Section, raw: RawSymbol)
    ensures Exported(d, strtab, raw).Some? <==>
              (&& raw.shndx != 0
               && (raw.info / 16 == 1 || raw.info / 16 == 2)
               && (raw.info % 16 == 1 || raw.info % 16 == 2 || raw.info % 16 == 10)
               && exists s :: NamedBy(d, strtab, raw.nameIndex, s))
    ensures Exported(d, strtab, raw).Some? ==>
              exists s :: NamedBy(d, strtab, raw.nameIndex, s) &&
                          Exported(d, strtab, raw).value == Symbol(SanitizeName(s), raw.value, raw.size)
  {
    if raw.nameIndex < strtab.size {
      var at, bound := strtab.offset + raw.nameIndex, strtab.size - raw.nameIndex;
      forall s
        ensures CString(d, at, bound) == Ok(s) <==> TerminatedAt(d, at, bound, s)
      {
        CStringExact(d, at, bound, s);
      }
      if Exported(d, strtab, raw).Some? {
        assert NamedBy(d, strtab, raw.nameIndex, CString(d, at, bound).value);
      }
    }
  }

  /** A section is named exactly when the index leads to a string table inside
      the buffer that holds a non-empty string at its name offset, and then
      bears that string, made printable. */
  lemma SectionNameMeans(d: seq<byte>, sections: seq<Section>, k: nat, i: nat)
    requires i < |sections|
    ensures SectionName(d, sections, k, i) != [] <==>
              (&& k < |sections| && sections[k].typ == 3 && sections[k].offset + sections[k].size <= |d|
               && exists s :: NamedBy(d, sections[k], sections[i].nameIndex, s))
    ensures k < |sections| && sections[k].typ == 3 && sections[k].offset + sections[k].size <= |d| ==>
              forall s :: NamedBy(d, sections[k], sections[i].nameIndex, s) ==>
                    SectionName(d, sections, k, i) == SanitizeName(s)
  {
    hide CString, TerminatedAt;
    if k < |sections| && sections[i].nameIndex < sections[k].size {
      var at, bound := sections[k].offset + sections[i].nameIndex, sections[k].size - sections[i].nameIndex;
      forall s
        ensures CString(d, at, bound) == Ok(s) <==> TerminatedAt(d, at, bound, s)
      {
        CStringExact(d, at, bound, s);
      }
      if SectionName(d, sections, k, i) != [] {
        assert NamedBy(d, sections[k], sections[i].nameIndex, CString(d, at, bound).value);
      }
    }
  }

  // ----- whole images, names and symbols included -----

  /** The string table that the header leads to holds these names where the
      sections say. */
  predicate NamesStand(d: seq<byte>, k: nat, sections: seq<Section>, names: seq<seq<byte>>) {
    && |names| == |sections| && k < |sections|
    && sections[k].typ == 3 && sections[k].offset + sections[k].size <= |d|
    && forall i :: 0 <= i < |sections| ==>
         && sections[i].nameIndex < sections[k].size
         && TerminatedAt(d, sections[k].offset + sections[i].nameIndex, sections[k].size - sections[i].nameIndex,
                         names[i])
  }

  function WithNames(sections: seq<Section>, names: seq<seq<byte>>): (s: seq<Section>)
    requires |names| == |sections|
    ensures |s| == |sections|
  {
    seq(|sections|, i requires 0 <= i < |sections| => sections[i].(name := SanitizeName(names[i])))
  }

  lemma NamesOfEncoded(d: seq<byte>, k: nat, sections: seq<Section>, names: seq<seq<byte>>)
    requires NamesStand(d, k, sections, names)
    ensures |names| == |sections| && Named(d, sections, k) == WithNames(sections, names)
  {
    hide CString, TerminatedAt;
    forall i | 0 <= i < |sections|
      ensures Named(d, sections, k)[i] == WithNames(sections, names)[i]
    {
      var at := sections[i].nameIndex;
      CStringExact(d, sections[k].offset + at, sections[k].size - at, names[i]);
    }
  }

  /** The symbol table that the sections offer holds these records; without one
      there are none. */
  predicate SymbolsPlaced(d: seq<byte>, is64: bool, sections: seq<Section>, written: seq<WrittenSymbol>) {
    match SymbolSection(sections)
    case None => written == []
    case Some(t) => SymbolTableUsable(d, is64, sections, t) && SymbolsLaidOut(d, is64, t, written)
  }

  /** The export view of written symbols. */
  function ExportedOf(d: seq<byte>, is64: bool, sections: seq<Section>, written: seq<WrittenSymbol>): seq<Symbol>
    requires SymbolsPlaced(d, is64, sections, written)
  {
    match SymbolSection(sections)
    case None => []
    case Some(t) =>
      Somes(seq(|written|, i requires 0 <= i < |written| => Exported(d, sections[t.link], written[i].raw)))
  }

  lemma SymbolsOfPlaced(d: seq<byte>, is64: bool, sections: seq<Section>, written: seq<WrittenSymbol>)
    requires SymbolsPlaced(d, is64, sections, written)
    ensures Symbols(d, is64, sections) == ExportedOf(d, is64, sections, written)
  {
    hide SymbolsFrom, SymbolsLaidOut, Exported, Somes;
    if SymbolSection(sections).Some? {
      var t := SymbolSection(sections).value;
      SymbolsOfEncoded(d, is64, t, sections[t.link], written);
    }
  }

  /** The names of an image come from the index that the source reads. */
  lemma NamesOfImage(d: seq<byte>, is64: bool, h: Header)
    requires ParseImage(d).Ok? && HasHeader(d, is64, h)
    ensures var sections := ParseImage(d).value.sections;
            sections == Named(d, WithoutNames(sections), ExtendedNameIndex(d, is64, h))
  {
    hide Le, SymbolsFrom, SectionName, DecodeHeader, DecodeSection;
    TableOfImage(d, is64, h, ExtendedCount(d, is64, h), ParseImage(d).value);
  }

  lemma PartsOfImage(d: seq<byte>, is64: bool, h: Header)
    requires ParseImage(d).Ok? && HasHeader(d, is64, h)
    ensures ParseImage(d).value.architecture == ArchitectureOf(h.machine, is64)
    ensures ParseImage(d).value.symbols == Symbols(d, is64, ParseImage(d).value.sections)
  {
    hide Symbols, Named, Sections, ProgramHeaders, DecodeHeader;
  }

  /** Whole-image round trip: any buffer that carries the records of an image,
      its section names and its symbols parses to exactly that image, in either
      class and whatever else the buffer holds. */
  lemma ImageOfEncoded(d: seq<byte>, is64: bool, h: Header, rest: HeaderRest, sections: seq<Section>,
                       programHeaders: seq<ProgramHeader>, names: seq<seq<byte>>, written: seq<WrittenSymbol>)
    requires AllFit(is64, h, rest, sections, programHeaders)
    requires Announces(h, sections) && AnnouncesProgram(h, sections, programHeaders)
    requires LaidOut(d, is64, h, rest, sections, programHeaders)
    requires h.phoff != 0 && h.phnum != 0 ==>
               ProgramHeaderSize(is64) <= h.phentsize && TableFits(d, h.phoff, |programHeaders|, h.phentsize)
    requires NamesStand(d, ExtendedNameIndex(d, is64, h), sections, names)
    requires SymbolsPlaced(d, is64, sections, written)
    ensures ParseImage(d) ==
            Ok(Image(is64, ArchitectureOf(h.machine, is64), h.machine, h.typ, h.entry, WithNames(sections, names),
                     programHeaders, ExportedOf(d, is64, sections, written)))
  {
    hide AllFit, Announces, AnnouncesProgram, ParseImage, NamesStand, SymbolsPlaced, ExportedOf, Symbols, Fits,
      ExtendedNameIndex, Named, EncodeHeader, DecodeHeader;
    ParseOfEncoded(d, is64, h, rest, sections, programHeaders);
    HeaderOfEncoded(d, is64, h, rest, sections, programHeaders);
    PartsOfImage(d, is64, h);
    NamesOfImage(d, is64, h);
    NamesOfEncoded(d, ExtendedNameIndex(d, is64, h), sections, names);
    var named := WithNames(sections, names);
    assert forall i :: 0 <= i < |sections| ==> named[i].(name := []) == sections[i].(name := []);
    SymbolsIgnoreNames(d, is64, sections, named);
    SymbolsOfPlaced(d, is64, sections, written);
  }

  lemma HeaderOfEncoded(d: seq<byte>, is64: bool, h: Header, rest: HeaderRest, sections: seq<Section>,
                        programHeaders: seq<ProgramHeader>)
    requires AllFit(is64, h, rest, sections, programHeaders) && LaidOut(d, is64, h, rest, sections, programHeaders)
    ensures HasHeader(d, is64, h)
  {
    hide EncodeHeader, DecodeHeader, Fits, Ident;
    IdentOfEncoded(d, is64, h, rest);
    HeaderRoundTrip(is64, h, rest);
  }

  // ----- the extended string-table index -----

  /** The index the system ABI prescribes: e_shstrndx, or section 0's sh_link
      when e_shstrndx is SHN_XINDEX, 0xFFFF. */
  function AbiNameIndex(h: Header, first: Section): nat {
    if h.shstrndx == 0xFFFF then first.link else h.shstrndx
  }

  /** What the source reads instead of sh_link: eight bytes in a 64-bit image. */
  lemma ExtendedIndexValue(d: seq<byte>, is64: bool, h: Header)
    requires h.shoff + SectionSize(is64) <= |d|
    requires (h.shnum == 0 && h.shoff != 0) || h.shstrndx == 0xFFFF
    ensures var first := DecodeSection(is64, d[h.shoff..h.shoff + SectionSize(is64)]);
            ExtendedNameIndex(d, is64, h) == if is64 then first.link + TWO_32 * first.info else first.link
  {
    hide Le;
    if is64 {
      FieldOfRecord(d, h.shoff, 64, 40, 4);
      FieldOfRecord(d, h.shoff, 64, 44, 4);
      var at := h.shoff + 40;
      var b := d[at..at + 8];
      LeSplit(b, 4);
      PowValues();
      assert b[..4] == d[at..at + 4] && b[4..] == d[at + 4..at + 8];
    } else {
      FieldOfRecord(d, h.shoff, 40, 24, 4);
    }
  }

  /** The index agrees with the ABI exactly when the header does not use
      extended numbering, or when section 0 makes up for the way it is read:
      its sh_info is zero in a 64-bit image, and its sh_link repeats a plain
      e_shstrndx. */
  lemma NameIndexConformsIff(d: seq<byte>, is64: bool, h: Header)
    requires h.shoff + SectionSize(is64) <= |d| && h.shstrndx < TWO_16
    ensures var first := DecodeSection(is64, d[h.shoff..h.shoff + SectionSize(is64)]);
            ExtendedNameIndex(d, is64, h) == AbiNameIndex(h, first) <==>
              || ((h.shnum != 0 || h.shoff == 0) && h.shstrndx != 0xFFFF)
              || ((!is64 || first.info == 0) && (h.shstrndx == 0xFFFF || first.link == h.shstrndx))
  {
    hide Le;
    if (h.shnum == 0 && h.shoff != 0) || h.shstrndx == 0xFFFF {
      ExtendedIndexValue(d, is64, h);
      var b := d[h.shoff..h.shoff + SectionSize(is64)];
      if is64 { LeBound(b[40..44]); } else { LeBound(b[24..28]); }
    }
  }

  /** A 64-bit image of two sections and a string table behind them. Its header
      leaves the string-table index to section 0, whose sh_info is not zero. */
  const XINDEX_HEADER := Header(3, 62, 0, 64, 64, 56, 0, 64, 2, 0xFFFF)

  const XINDEX_SECTIONS := [Section([], 0, 0, 0, 0, 0, 0, 1, 1, 0, 0), Section([], 1, 3, 0, 0, 192, 3, 0, 0, 0, 0)]

  const XINDEX_NAMES: seq<byte> := [0, 0x61, 0]

  lemma XIndexPlaces()
    ensures PlacesTables(true, XINDEX_HEADER, XINDEX_SECTIONS, []) && |PLAIN_REST.ident| == 10
  {
    assert |XINDEX_SECTIONS| == 2;
  }

  function XIndexImage(): seq<byte> {
    hide PlacesTables;
    XIndexPlaces();
    Serialize(true, XINDEX_HEADER, PLAIN_REST, XINDEX_SECTIONS, []) + XINDEX_NAMES
  }

  lemma XIndexFits()
    ensures AllFit(true, XINDEX_HEADER, PLAIN_REST, XINDEX_SECTIONS, [])
  {
    hide Pow256;
    PowValues();
  }

  lemma XIndexBytes()
    ensures var d := XIndexImage();
            |d| == 195 && d[192..] == XINDEX_NAMES && d[64..128] == EncodeSection(true, XINDEX_SECTIONS[0])
  {
    hide Table, EncodeSection, EncodeHeader;
    SerializedIsLaidOut(true, XINDEX_HEADER, PLAIN_REST, XINDEX_SECTIONS, [], XINDEX_NAMES);
    RecordSizes(true, XINDEX_SECTIONS, []);
    HeaderSizes(true, XINDEX_HEADER, PLAIN_REST);
    TableLength(EncodedSections(true, XINDEX_SECTIONS), 64);
    TableLength(EncodedProgramHeaders(true, []), 56);
    assert Entry(XIndexImage(), 64, 2, 64, 64, 0) == EncodeSection(true, XINDEX_SECTIONS[0]);
  }

  lemma XIndexName(d: seq<byte>)
    requires |d| == 195 && d[192..] == XINDEX_NAMES
    ensures SectionName(d, XINDEX_SECTIONS, 1, 1) == [0x61]
  {
    hide SanitizeName;
    assert d[193] == d[192..][1] && d[194] == d[192..][2];
    assert d[193..194] == [0x61];
    CStringExact(d, 193, 2, [0x61]);
    SanitizePrintable([0x61]);
  }

  lemma XIndexParses()
    ensures HasHeader(XIndexImage(), true, XINDEX_HEADER) && ParseImage(XIndexImage()).Ok?
    ensures WithoutNames(ParseImage(XIndexImage()).value.sections) == XINDEX_SECTIONS
  {
    hide Serialize, ParseImage, HasHeader, Fits;
    XIndexFits();
    ParseOfSerialized(true, XINDEX_HEADER, PLAIN_REST, XINDEX_SECTIONS, [], XINDEX_NAMES);
    HeaderOfSerialized(true, XINDEX_HEADER, PLAIN_REST, XINDEX_SECTIONS, [], XINDEX_NAMES);
  }

  lemma XIndexRead(d: seq<byte>)
    requires |d| == 195 && d[64..128] == EncodeSection(true, XINDEX_SECTIONS[0])
    ensures ExtendedNameIndex(d, true, XINDEX_HEADER) == 1 + TWO_32
  {
    hide Le, EncodeSection, DecodeSection, ExtendedNameIndex;
    XIndexFits();
    SectionRoundTrip(true, XINDEX_SECTIONS[0]);
    ExtendedIndexValue(d, true, XINDEX_HEADER);
  }

  /** An index beyond the table leaves every section unnamed. */
  lemma UnnamedBeyond(d: seq<byte>, is64: bool, h: Header)
    requires ParseImage(d).Ok? && HasHeader(d, is64, h)
    requires ExtendedNameIndex(d, is64, h) >= |ParseImage(d).value.sections|
    ensures forall s :: s in ParseImage(d).value.sections ==> s.name == []
  {
    hide ParseImage, HasHeader, ExtendedNameIndex;
    NamesOfImage(d, is64, h);
  }

  /** On that image the parse succeeds and finds both sections, but looks for
      names at index 1 + 2^32 instead of 1, so that every section stays unnamed
      although the string table at index 1 names one of them. */
  lemma NameIndexExample()
    ensures AbiNameIndex(XINDEX_HEADER, XINDEX_SECTIONS[0]) == 1
    ensures ExtendedNameIndex(XIndexImage(), true, XINDEX_HEADER) == 1 + TWO_32
    ensures SectionName(XIndexImage(), XINDEX_SECTIONS, 1, 1) == [0x61]
    ensures HasHeader(XIndexImage(), true, XINDEX_HEADER) && ParseImage(XIndexImage()).Ok?
    ensures WithoutNames(ParseImage(XIndexImage()).value.sections) == XINDEX_SECTIONS
    ensures forall s :: s in ParseImage(XIndexImage()).value.sections ==> s.name == []
  {
    hide XIndexImage, ParseImage, HasHeader, ExtendedNameIndex, SectionName, EncodeSection;
    XIndexParses();
    XIndexBytes();
    XIndexRead(XIndexImage());
    UnnamedBeyond(XIndexImage(), true, XINDEX_HEADER);
    XIndexName(XIndexImage());
  }

  // ----- exactness of the section table -----

  /** The table fits in unbounded arithmetic, where the wrapping product is the
      product, and each of its n sections is read from its own entry. */
  predicate ExactTable(d: seq<byte>, is64: bool, off: nat, n: nat, stride: nat, table: seq<Section>) {
    && |table| == n && off + n * stride <= |d| && Mul64(n, stride) == n * stride && n * SectionSize(is64) <= |d|
    && forall i :: 0 <= i < n ==> SectionReads(d, is64, off + i * stride, table[i])
  }

  lemma FittingTableIsExact(d: seq<byte>, is64: bool, off: nat, n: nat, stride: nat)
    requires |d| < TWO_63 && TableFits(d, off, n, stride) && SectionSize(is64) <= stride
    ensures ExactTable(d, is64, off, n, stride, SectionTable(d, is64, off, n, stride))
  {
    Mul64Bound(n, stride);
    MulMonotone(n, stride, SectionSize(is64));
    forall i | 0 <= i < n
      ensures SectionReads(d, is64, off + i * stride, SectionTable(d, is64, off, n, stride)[i])
    {
      TableReads(d, is64, off, n, stride, i);
    }
  }

  /** A successful parse of a buffer below 2^63 bytes found an exact table,
      however large the count taken from section 0. */
  lemma SuccessfulTableIsExact(d: seq<byte>, is64: bool, h: Header, image: Image)
    requires |d| < TWO_63 && ParseImage(d) == Ok(image)
    requires Ident(d) == Ok(is64) && HeaderOf(d, is64) == Ok(h)
    ensures ExactTable(d, is64, h.shoff, ExtendedCount(d, is64, h), h.shentsize, WithoutNames(image.sections))
  {
    TableOfImage(d, is64, h, ExtendedCount(d, is64, h), image);
    FittingTableIsExact(d, is64, h.shoff, ExtendedCount(d, is64, h), h.shentsize);
  }

  lemma TableOfImage(d: seq<byte>, is64: bool, h: Header, n: nat, image: Image)
    requires ParseImage(d) == Ok(image)
    requires Ident(d) == Ok(is64) && HeaderOf(d, is64) == Ok(h) && n == ExtendedCount(d, is64, h)
    ensures SectionSize(is64) <= h.shentsize && TableFits(d, h.shoff, n, h.shentsize)
    ensures WithoutNames(image.sections) == SectionTable(d, is64, h.shoff, n, h.shentsize)
  {
    hide Le, SymbolsFrom;
    var raw := SectionTable(d, is64, h.shoff, n, h.shentsize);
    assert forall i :: 0 <= i < n ==> image.sections[i].(name := []) == raw[i];
  }

  lemma TableReads(d: seq<byte>, is64: bool, off: nat, n: nat, stride: nat, i: nat)
    requires TableFits(d, off, n, stride) && SectionSize(is64) <= stride && i < n
    ensures SectionReads(d, is64, off + i * stride, SectionTable(d, is64, off, n, stride)[i])
  {
    EntriesBefore(i, n, stride);
  }
}
