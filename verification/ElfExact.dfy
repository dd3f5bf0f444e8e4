/** The ELF parse on the bytes of the buffer: exactly which images it accepts,
    which error it returns for the others, and which symbols it finds, written
    without the helpers that define it. */
module ElfExact {
  import opened Base
  import opened Reader
  import opened ElfFormat
  import opened ElfTheorems

  // ----- identification -----

  predicate Magic(d: seq<byte>) {
    |d| >= 16 && d[0] == 0x7F && d[1] == 0x45 && d[2] == 0x4C && d[3] == 0x46
  }

  /** Only little-endian images of the two classes are identified; another byte
      order is unsupported, everything else invalid. */
  lemma IdentExact(d: seq<byte>, is64: bool)
    ensures Ident(d) == Ok(is64) <==> Magic(d) && d[4] == (if is64 then 2 else 1) && d[5] == 1
    ensures Ident(d) == Err(Unsupported) <==> Magic(d) && (d[4] == 1 || d[4] == 2) && d[5] != 1
    ensures Ident(d).Err? ==> Ident(d).error == Unsupported || Ident(d).error == InvalidBinary
  {
    if |d| >= 16 {
      assert d[..4] == [d[0], d[1], d[2], d[3]];
    }
  }

  // ----- acceptance -----

  /** The number of sections a 64-bit image announces: e_shnum, or when that is
      zero and there is a table, the size field of section 0 if it can be read. */
  function Count64(d: seq<byte>): nat
    requires |d| >= 64
  {
    var shoff, shnum := Field(d, 40, 8), Field(d, 60, 2);
    if shnum == 0 && shoff != 0 && shoff + 40 <= |d| then Field(d, shoff + 32, 8) else shnum
  }

  function Count32(d: seq<byte>): nat
    requires |d| >= 52
  {
    var shoff, shnum := Field(d, 32, 4), Field(d, 48, 2);
    if shnum == 0 && shoff != 0 && shoff + 24 <= |d| then Field(d, shoff + 20, 4) else shnum
  }

  /** The section headers of a 64-bit image fit: each at least 64 bytes apart. */
  predicate SectionsFit64(d: seq<byte>)
    requires |d| >= 64
  {
    Field(d, 58, 2) >= 64 && Field(d, 40, 8) + Count64(d) * Field(d, 58, 2) <= |d|
  }

  predicate SectionsFit32(d: seq<byte>)
    requires |d| >= 52
  {
    Field(d, 46, 2) >= 40 && Field(d, 32, 4) + Count32(d) * Field(d, 46, 2) <= |d|
  }

  /** The program headers fit, if there are any: e_phnum of them, or as many as
      the info field of section 0 says when e_phnum is 0xFFFF. */
  predicate ProgramHeadersFit64(d: seq<byte>)
    requires |d| >= 64
  {
    var phoff, shoff, phentsize, phnum := Field(d, 32, 8), Field(d, 40, 8), Field(d, 54, 2), Field(d, 56, 2);
    phoff == 0 || phnum == 0 ||
    (phentsize >= 56 &&
     var n := if phnum == 0xFFFF && Count64(d) > 0 && shoff + 48 <= |d| then Field(d, shoff + 44, 4) else phnum;
     phoff + n * phentsize <= |d|)
  }

  predicate ProgramHeadersFit32(d: seq<byte>)
    requires |d| >= 52
  {
    var phoff, shoff, phentsize, phnum := Field(d, 28, 4), Field(d, 32, 4), Field(d, 42, 2), Field(d, 44, 2);
    phoff == 0 || phnum == 0 ||
    (phentsize >= 32 &&
     var n := if phnum == 0xFFFF && Count32(d) > 0 && shoff + 32 <= |d| then Field(d, shoff + 28, 4) else phnum;
     phoff + n * phentsize <= |d|)
  }

  predicate Accepts64(d: seq<byte>) {
    && Magic(d) && d[4] == 2 && d[5] == 1
    && |d| >= 64 && SectionsFit64(d) && ProgramHeadersFit64(d)
  }

  predicate Accepts32(d: seq<byte>) {
    && Magic(d) && d[4] == 1 && d[5] == 1
    && |d| >= 52 && SectionsFit32(d) && ProgramHeadersFit32(d)
  }

  lemma HeaderBytes(d: seq<byte>, is64: bool, h: Header)
    requires HeaderOf(d, is64) == Ok(h)
    ensures is64 ==>
              && |d| >= 64 && h.phoff == Field(d, 32, 8) && h.shoff == Field(d, 40, 8) && h.phentsize == Field(d, 54, 2)
              && h.phnum == Field(d, 56, 2) && h.shentsize == Field(d, 58, 2) && h.shnum == Field(d, 60, 2)
              && h.shstrndx == Field(d, 62, 2)
    ensures !is64 ==>
              && |d| >= 52 && h.phoff == Field(d, 28, 4) && h.shoff == Field(d, 32, 4) && h.phentsize == Field(d, 42, 2)
              && h.phnum == Field(d, 44, 2) && h.shentsize == Field(d, 46, 2) && h.shnum == Field(d, 48, 2)
              && h.shstrndx == Field(d, 50, 2)
  {
    hide Le;
    var n := HeaderSize(is64);
    assert d[0..n] == d[..n];
    if is64 {
      FieldOfRecord(d, 0, 64, 32, 8);
      FieldOfRecord(d, 0, 64, 40, 8);
      FieldOfRecord(d, 0, 64, 54, 2);
      FieldOfRecord(d, 0, 64, 56, 2);
      FieldOfRecord(d, 0, 64, 58, 2);
      FieldOfRecord(d, 0, 64, 60, 2);
      FieldOfRecord(d, 0, 64, 62, 2);
    } else {
      FieldOfRecord(d, 0, 52, 28, 4);
      FieldOfRecord(d, 0, 52, 32, 4);
      FieldOfRecord(d, 0, 52, 42, 2);
      FieldOfRecord(d, 0, 52, 44, 2);
      FieldOfRecord(d, 0, 52, 46, 2);
      FieldOfRecord(d, 0, 52, 48, 2);
      FieldOfRecord(d, 0, 52, 50, 2);
    }
  }

  lemma CountBytes(d: seq<byte>, is64: bool, h: Header)
    requires HeaderOf(d, is64) == Ok(h)
    ensures is64 ==> |d| >= 64 && ExtendedCount(d, is64, h) == Count64(d)
    ensures !is64 ==> |d| >= 52 && ExtendedCount(d, is64, h) == Count32(d)
  {
    hide Le, DecodeHeader;
    HeaderBytes(d, is64, h);
  }

  lemma SectionsBytes(d: seq<byte>, is64: bool, h: Header)
    requires HeaderOf(d, is64) == Ok(h)
    ensures is64 ==> |d| >= 64 && (Sections(d, is64, h).Ok? <==> SectionsFit64(d))
    ensures !is64 ==> |d| >= 52 && (Sections(d, is64, h).Ok? <==> SectionsFit32(d))
    ensures Sections(d, is64, h).Err? ==> Sections(d, is64, h).error == InvalidBinary
  {
    hide Le, DecodeHeader, ExtendedCount, Count64, Count32;
    HeaderBytes(d, is64, h);
    CountBytes(d, is64, h);
  }

  /** The info field of section 0, where the extended program-header count is. */
  lemma FirstInfo(d: seq<byte>, is64: bool, h: Header, sections: seq<Section>)
    requires Sections(d, is64, h) == Ok(sections) && sections != []
    ensures is64 ==> h.shoff + 48 <= |d| && sections[0].info == Field(d, h.shoff + 44, 4)
    ensures !is64 ==> h.shoff + 32 <= |d| && sections[0].info == Field(d, h.shoff + 28, 4)
  {
    hide Le;
    EntriesBefore(0, ExtendedCount(d, is64, h), h.shentsize);
    if is64 { FieldOfRecord(d, h.shoff, 64, 44, 4); } else { FieldOfRecord(d, h.shoff, 40, 28, 4); }
  }

  lemma ProgramHeadersBytes(d: seq<byte>, is64: bool, h: Header, raw: seq<Section>, named: seq<Section>)
    requires HeaderOf(d, is64) == Ok(h) && Sections(d, is64, h) == Ok(raw)
    requires |named| == |raw| && (raw != [] ==> named[0].info == raw[0].info)
    ensures is64 ==> |d| >= 64 && (ProgramHeaders(d, is64, h, named).Ok? <==> ProgramHeadersFit64(d))
    ensures !is64 ==> |d| >= 52 && (ProgramHeaders(d, is64, h, named).Ok? <==> ProgramHeadersFit32(d))
    ensures ProgramHeaders(d, is64, h, named).Err? ==> ProgramHeaders(d, is64, h, named).error == InvalidBinary
  {
    hide Le, DecodeHeader, ExtendedCount, Count64, Count32, DecodeSection, ProgramHeaderTable;
    HeaderBytes(d, is64, h);
    CountBytes(d, is64, h);
    assert |raw| == ExtendedCount(d, is64, h);
    if raw != [] {
      FirstInfo(d, is64, h, raw);
    }
  }

  /** What the parse does with identification, header and tables. */
  lemma Stages(d: seq<byte>, is64: bool, h: Header)
    requires HasHeader(d, is64, h)
    ensures ParseImage(d).Ok? ==> Sections(d, is64, h).Ok?
    ensures Sections(d, is64, h).Ok? ==>
              var named := Named(d, Sections(d, is64, h).value, ExtendedNameIndex(d, is64, h));
              && (ParseImage(d).Ok? <==> ProgramHeaders(d, is64, h, named).Ok?)
              && (ParseImage(d).Err? ==> ParseImage(d).error == ProgramHeaders(d, is64, h, named).error)
    ensures Sections(d, is64, h).Err? ==> ParseImage(d) == Err(Sections(d, is64, h).error)
  {
    hide Le, DecodeHeader, Sections, ProgramHeaders, Named, Symbols;
  }

  lemma AcceptedBytes(d: seq<byte>, is64: bool, h: Header)
    requires HasHeader(d, is64, h)
    ensures is64 ==> |d| >= 64 && (ParseImage(d).Ok? <==> SectionsFit64(d) && ProgramHeadersFit64(d))
    ensures !is64 ==> |d| >= 52 && (ParseImage(d).Ok? <==> SectionsFit32(d) && ProgramHeadersFit32(d))
    ensures ParseImage(d).Err? ==> ParseImage(d).error == InvalidBinary
  {
    hide ParseImage, Sections, ProgramHeaders, ExtendedNameIndex, Ident, HeaderOf,
      SectionsFit64, SectionsFit32, ProgramHeadersFit64, ProgramHeadersFit32;
    Stages(d, is64, h);
    SectionsBytes(d, is64, h);
    if Sections(d, is64, h).Ok? {
      var raw := Sections(d, is64, h).value;
      ProgramHeadersBytes(d, is64, h, raw, Named(d, raw, ExtendedNameIndex(d, is64, h)));
    }
  }

  /** Exactly the images whose identification, header and tables are in place,
      said on the bytes, are accepted. */
  lemma ParseSucceedsIff(d: seq<byte>)
    ensures ParseImage(d).Ok? <==> Accepts64(d) || Accepts32(d)
  {
    hide Le, SectionsFit64, SectionsFit32, ProgramHeadersFit64, ProgramHeadersFit32, ParseImage, DecodeHeader;
    ParseNeedsHeader(d);
    IdentExact(d, true);
    IdentExact(d, false);
    if Ident(d).Ok? && HeaderOf(d, Ident(d).value).Ok? {
      AcceptedBytes(d, Ident(d).value, HeaderOf(d, Ident(d).value).value);
    }
  }

  lemma ParseNeedsHeader(d: seq<byte>)
    ensures Ident(d).Err? ==> ParseImage(d) == Err(Ident(d).error)
    ensures Ident(d).Ok? && HeaderOf(d, Ident(d).value).Err? ==> ParseImage(d) == Err(InvalidBinary)
  {
    hide Ident, Sections, ProgramHeaders, Symbols;
  }

  /** The others are refused as invalid, except that a byte order other than
      little-endian is unsupported. */
  lemma ParseFailsWith(d: seq<byte>)
    ensures ParseImage(d) == Err(Unsupported) <==> Magic(d) && (d[4] == 1 || d[4] == 2) && d[5] != 1
    ensures ParseImage(d).Err? ==> ParseImage(d).error == Unsupported || ParseImage(d).error == InvalidBinary
  {
    hide ParseImage, DecodeHeader, Magic;
    ParseNeedsHeader(d);
    IdentExact(d, true);
    if Ident(d).Ok? && HeaderOf(d, Ident(d).value).Ok? {
      AcceptedBytes(d, Ident(d).value, HeaderOf(d, Ident(d).value).value);
    }
  }

  /** The string-table index of an accepted image, on the bytes: e_shstrndx,
      unless that is 0xFFFF or e_shnum is zero and there is a table; then what
      section 0 holds, eight bytes wide in a 64-bit image, if it can be read. */
  lemma NameIndexBytes(d: seq<byte>, is64: bool, h: Header)
    requires HasHeader(d, is64, h)
    ensures is64 && |d| >= 64 ==>
              var shoff, shnum, shstrndx := Field(d, 40, 8), Field(d, 60, 2), Field(d, 62, 2);
              ExtendedNameIndex(d, is64, h) ==
              if ((shnum == 0 && shoff != 0) || shstrndx == 0xFFFF) && shoff + 48 <= |d| then Field(d, shoff + 40, 8)
              else shstrndx
    ensures !is64 && |d| >= 52 ==>
              var shoff, shnum, shstrndx := Field(d, 32, 4), Field(d, 48, 2), Field(d, 50, 2);
              ExtendedNameIndex(d, is64, h) ==
              if ((shnum == 0 && shoff != 0) || shstrndx == 0xFFFF) && shoff + 28 <= |d| then Field(d, shoff + 24, 4)
              else shstrndx
  {
    hide Le, DecodeHeader;
    HeaderBytes(d, is64, h);
  }

  /** The five architectures the library names, by e_machine. */
  lemma ArchitectureExact(machine: nat, is64: bool)
    ensures ArchitectureOf(machine, is64) == X86 <==> machine == 3
    ensures ArchitectureOf(machine, is64) == X86_64 <==> machine == 62
    ensures ArchitectureOf(machine, is64) == Arm <==> machine == 40
    ensures ArchitectureOf(machine, is64) == Arm64 <==> machine == 183
    ensures ArchitectureOf(machine, is64) == RiscV64 <==> machine == 243 && is64
    ensures ArchitectureOf(machine, is64) == RiscV32 <==> machine == 243 && !is64
  {
  }

  // ----- symbols -----

  /** The section whose symbols are read: the first dynamic symbol table, type
      11, or without one the first static table, type 2. */
  predicate Chosen(sections: seq<Section>, c: nat) {
    && c < |sections|
    && (sections[c].typ == 11 || (sections[c].typ == 2 && forall i :: 0 <= i < |sections| ==> sections[i].typ != 11))
    && forall i :: 0 <= i < c ==> sections[i].typ != sections[c].typ
  }

  /** Its link leads to a string table, both lie inside the buffer, and its
      entries are declared large enough. */
  predicate Readable(d: seq<byte>, is64: bool, sections: seq<Section>, t: Section) {
    && t.link < |sections| && sections[t.link].typ == 3
    && sections[t.link].offset + sections[t.link].size <= |d|
    && t.offset + t.size <= |d|
    && t.entrySize >= (if is64 then 24 else 16)
  }

  /** The export test of all its records. */
  function Records64(d: seq<byte>, t: Section, strtab: Section): seq<Option<Symbol>>
    requires t.offset + t.size <= |d|
  {
    seq(t.size / 24, i requires 0 <= i < t.size / 24 =>
      Exported(d, strtab, DecodeSymbol(true, d[t.offset + 24 * i..t.offset + 24 * i + 24])))
  }

  function Records32(d: seq<byte>, t: Section, strtab: Section): seq<Option<Symbol>>
    requires t.offset + t.size <= |d|
  {
    seq(t.size / 16, i requires 0 <= i < t.size / 16 =>
      Exported(d, strtab, DecodeSymbol(false, d[t.offset + 16 * i..t.offset + 16 * i + 16])))
  }

  lemma {:induction false} FirstOfTypeExact(sections: seq<Section>, typ: nat)
    ensures FirstOfType(sections, typ).None? <==> forall i :: 0 <= i < |sections| ==> sections[i].typ != typ
    ensures FirstOfType(sections, typ).Some? ==>
              exists c :: && 0 <= c < |sections| && sections[c].typ == typ
                          && FirstOfType(sections, typ) == Some(sections[c])
                          && forall i :: 0 <= i < c ==> sections[i].typ != typ
  {
    if sections != [] {
      var rest := sections[1..];
      FirstOfTypeExact(rest, typ);
      assert forall i :: 1 <= i < |sections| ==> sections[i] == rest[i - 1];
      if sections[0].typ != typ && FirstOfType(rest, typ).Some? {
        var c :| && 0 <= c < |rest| && rest[c].typ == typ && FirstOfType(rest, typ) == Some(rest[c])
                 && forall i :: 0 <= i < c ==> rest[i].typ != typ;
        assert sections[c + 1] == rest[c];
        assert forall i :: 0 <= i < c + 1 ==> sections[i].typ != typ;
      }
    }
  }

  lemma ChosenSection(sections: seq<Section>, c: nat)
    requires Chosen(sections, c)
    ensures SymbolSection(sections) == Some(sections[c])
  {
    hide FirstOfType;
    FirstOfTypeExact(sections, 11);
    FirstOfTypeExact(sections, 2);
  }

  lemma SomeChosen(sections: seq<Section>)
    ensures SymbolSection(sections).Some? ==> exists c: nat :: Chosen(sections, c)
  {
    hide FirstOfType;
    FirstOfTypeExact(sections, 11);
    FirstOfTypeExact(sections, 2);
    if FirstOfType(sections, 11).Some? {
      var c :| && 0 <= c < |sections| && sections[c].typ == 11 && forall i :: 0 <= i < c ==> sections[i].typ != 11;
      assert Chosen(sections, c);
    } else if FirstOfType(sections, 2).Some? {
      var c :| && 0 <= c < |sections| && sections[c].typ == 2 && forall i :: 0 <= i < c ==> sections[i].typ != 2;
      assert Chosen(sections, c);
    }
  }

  lemma RecordsAreTests(d: seq<byte>, is64: bool, t: Section, strtab: Section)
    requires t.offset + t.size <= |d|
    ensures SymbolsFrom(d, is64, t, strtab, 0) ==
            Somes(if is64 then Records64(d, t, strtab) else Records32(d, t, strtab))
  {
    hide Le, Exported, SymbolsFrom, DecodeSymbol;
    var tests := Tests(d, is64, t, strtab);
    SymbolsFromTests(d, is64, t, strtab, 0);
    assert tests[..0] == [];
    if is64 {
      assert tests == Records64(d, t, strtab);
    } else {
      assert tests == Records32(d, t, strtab);
    }
  }

  /** When symbols are read and which: the export filter of every record of the
      chosen table when it is readable, and none in every other case. */
  ghost predicate SymbolsAre(d: seq<byte>, is64: bool, sections: seq<Section>, symbols: seq<Symbol>) {
    && (forall c: nat :: Chosen(sections, c) && Readable(d, is64, sections, sections[c]) ==>
          var t := sections[c];
          var strtab := sections[t.link];
          symbols == Somes(if is64 then Records64(d, t, strtab) else Records32(d, t, strtab)))
    && ((forall c: nat :: Chosen(sections, c) ==> !Readable(d, is64, sections, sections[c])) ==> symbols == [])
  }

  lemma SymbolsExact(d: seq<byte>, is64: bool, sections: seq<Section>)
    ensures SymbolsAre(d, is64, sections, Symbols(d, is64, sections))
  {
    hide SymbolsFrom, SymbolSection, Somes, Records64, Records32;
    forall c: nat | Chosen(sections, c) && Readable(d, is64, sections, sections[c])
      ensures var t := sections[c];
              var strtab := sections[t.link];
              Symbols(d, is64, sections) == Somes(if is64 then Records64(d, t, strtab) else Records32(d, t, strtab))
    {
      ChosenSection(sections, c);
      RecordsAreTests(d, is64, sections[c], sections[sections[c].link]);
    }
    SomeChosen(sections);
    if c: nat :| Chosen(sections, c) {
      ChosenSection(sections, c);
    }
  }

  /** So it is for the image that a parse returns. */
  lemma ImageSymbolsExact(d: seq<byte>, image: Image)
    requires ParseImage(d) == Ok(image)
    ensures SymbolsAre(d, image.is64, image.sections, image.symbols)
  {
    hide Symbols, Named, Sections, ProgramHeaders, DecodeHeader, SymbolsAre;
    SymbolsExact(d, image.is64, image.sections);
  }
}
