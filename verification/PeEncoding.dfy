/** Writers for the PE records, laid out as the format prescribes, and the
    proof that the parse recovers what they wrote. */
module PeEncoding {
  import opened Base
  import opened Reader
  import opened LittleEndian
  import opened Packing
  import opened RvaMap
  import opened PeFormat

  // ----- headers -----

  /** What the parser does not read of the COFF header (symbol table) and of the
      optional header: linker version and sizes, base of code (and of data in the
      32-bit class), alignments and versions, checksum to loader flags. */
  datatype Unread = Unread(symbols: nat, sizes: nat, bases: nat, versions: nat, limits: nat)

  /** Signature and COFF header. */
  function CoffLayout(h: Headers, sizeOfOptional: nat, u: Unread): seq<FieldValue> {
    [FieldValue(0x4550, 4), FieldValue(h.machine, 2), FieldValue(h.sectionCount, 2), FieldValue(h.timestamp, 4),
     FieldValue(u.symbols, 8), FieldValue(sizeOfOptional, 2), FieldValue(h.characteristics, 2)]
  }

  function OptionalLayout64(h: Headers, u: Unread): seq<FieldValue> {
    [FieldValue(0x20B, 2), FieldValue(u.sizes, 14), FieldValue(h.entryRva, 4), FieldValue(u.bases, 4),
     FieldValue(h.imageBase, 8), FieldValue(u.versions, 24), FieldValue(h.sizeOfImage, 4), FieldValue(u.limits, 48),
     FieldValue(h.dirCount, 4)]
  }

  function OptionalLayout32(h: Headers, u: Unread): seq<FieldValue> {
    [FieldValue(0x10B, 2), FieldValue(u.sizes, 14), FieldValue(h.entryRva, 4), FieldValue(u.bases, 8),
     FieldValue(h.imageBase, 4), FieldValue(u.versions, 24), FieldValue(h.sizeOfImage, 4), FieldValue(u.limits, 32),
     FieldValue(h.dirCount, 4)]
  }

  /** The optional header up to the directory count. */
  function OptionalLayout(h: Headers, u: Unread): seq<FieldValue> {
    if h.is64 then OptionalLayout64(h, u) else OptionalLayout32(h, u)
  }

  /** The buffer carries a DOS header that points to these NT headers. */
  predicate CarriesHeaders(d: seq<byte>, e: nat, h: Headers, sizeOfOptional: nat, u: Unread) {
    && Fits(CoffLayout(h, sizeOfOptional, u)) && Fits(OptionalLayout(h, u)) && sizeOfOptional >= 2
    && 64 <= |d| && Field(d, 0, 2) == 0x5A4D && Field(d, 0x3C, 4) == e && e != 0
    && e + 24 + OptionalSize(h.is64) <= |d|
    && d[e..e + 24] == Pack(CoffLayout(h, sizeOfOptional, u))
    && d[e + 24..e + 24 + OptionalSize(h.is64)] == Pack(OptionalLayout(h, u))
    && h.dirOffset == e + 24 + OptionalSize(h.is64)
    && h.tableOffset == e + 24 + sizeOfOptional
    && h.tableOffset + 40 * h.sectionCount <= |d|
  }

  ghost predicate CoffReads(b: seq<byte>, h: Headers, sizeOfOptional: nat) {
    && |b| == 24
    && Field(b, 0, 4) == 0x4550 && Field(b, 4, 2) == h.machine && Field(b, 6, 2) == h.sectionCount
    && Field(b, 8, 4) == h.timestamp && Field(b, 20, 2) == sizeOfOptional && Field(b, 22, 2) == h.characteristics
  }

  ghost predicate OptionalReads(b: seq<byte>, h: Headers) {
    && |b| == OptionalSize(h.is64)
    && Field(b, 0, 2) == (if h.is64 then 0x20B else 0x10B) && Field(b, 16, 4) == h.entryRva
    && (if h.is64 then Field(b, 24, 8) else Field(b, 28, 4)) == h.imageBase
    && Field(b, 56, 4) == h.sizeOfImage && Field(b, if h.is64 then 108 else 92, 4) == h.dirCount
  }

  lemma CoffPacked(h: Headers, sizeOfOptional: nat, u: Unread)
    requires Fits(CoffLayout(h, sizeOfOptional, u))
    ensures CoffReads(Pack(CoffLayout(h, sizeOfOptional, u)), h, sizeOfOptional)
  {
    hide Le, LeBytes, Pow256;
    var fs := CoffLayout(h, sizeOfOptional, u);
    PackedField(fs, 0, 0);
    PackedField(fs, 1, 4);
    PackedField(fs, 2, 6);
    PackedField(fs, 3, 8);
    PackedField(fs, 4, 12);
    PackedField(fs, 5, 20);
    PackedField(fs, 6, 22);
  }

  lemma OptionalPacked64(h: Headers, u: Unread)
    requires h.is64 && Fits(OptionalLayout64(h, u))
    ensures OptionalReads(Pack(OptionalLayout64(h, u)), h)
  {
    hide Le, LeBytes, Pow256;
    var fs := OptionalLayout64(h, u);
    PackedField(fs, 0, 0);
    PackedField(fs, 1, 2);
    PackedField(fs, 2, 16);
    PackedField(fs, 3, 20);
    PackedField(fs, 4, 24);
    PackedField(fs, 5, 32);
    PackedField(fs, 6, 56);
    PackedField(fs, 7, 60);
    PackedField(fs, 8, 108);
  }

  lemma OptionalPacked32(h: Headers, u: Unread)
    requires !h.is64 && Fits(OptionalLayout32(h, u))
    ensures OptionalReads(Pack(OptionalLayout32(h, u)), h)
  {
    hide Le, LeBytes, Pow256;
    var fs := OptionalLayout32(h, u);
    PackedField(fs, 0, 0);
    PackedField(fs, 1, 2);
    PackedField(fs, 2, 16);
    PackedField(fs, 3, 20);
    PackedField(fs, 4, 28);
    PackedField(fs, 5, 32);
    PackedField(fs, 6, 56);
    PackedField(fs, 7, 60);
    PackedField(fs, 8, 92);
  }

  lemma CoffShifted(d: seq<byte>, e: nat, h: Headers, sizeOfOptional: nat)
    requires e + 24 <= |d| && CoffReads(d[e..e + 24], h, sizeOfOptional)
    ensures Field(d, e, 4) == 0x4550 && Field(d, e + 4, 2) == h.machine && Field(d, e + 6, 2) == h.sectionCount
    ensures Field(d, e + 8, 4) == h.timestamp && Field(d, e + 20, 2) == sizeOfOptional
    ensures Field(d, e + 22, 2) == h.characteristics
  {
    hide Le;
    FieldOfRecord(d, e, 24, 0, 4);
    FieldOfRecord(d, e, 24, 4, 2);
    FieldOfRecord(d, e, 24, 6, 2);
    FieldOfRecord(d, e, 24, 8, 4);
    FieldOfRecord(d, e, 24, 20, 2);
    FieldOfRecord(d, e, 24, 22, 2);
  }

  lemma OptionalShifted(d: seq<byte>, opt: nat, h: Headers)
    requires opt + OptionalSize(h.is64) <= |d| && OptionalReads(d[opt..opt + OptionalSize(h.is64)], h)
    ensures Field(d, opt, 2) == (if h.is64 then 0x20B else 0x10B) && Field(d, opt + 16, 4) == h.entryRva
    ensures (if h.is64 then Field(d, opt + 24, 8) else Field(d, opt + 28, 4)) == h.imageBase
    ensures Field(d, opt + 56, 4) == h.sizeOfImage && Field(d, opt + (if h.is64 then 108 else 92), 4) == h.dirCount
  {
    hide Le;
    var n := OptionalSize(h.is64);
    FieldOfRecord(d, opt, n, 0, 2);
    FieldOfRecord(d, opt, n, 16, 4);
    FieldOfRecord(d, opt, n, if h.is64 then 24 else 28, if h.is64 then 8 else 4);
    FieldOfRecord(d, opt, n, 56, 4);
    FieldOfRecord(d, opt, n, if h.is64 then 108 else 92, 4);
  }

  lemma SignatureBytes(d: seq<byte>, e: nat)
    requires e + 4 <= |d| && Field(d, e, 4) == 0x4550
    ensures d[e..e + 4] == [0x50, 0x45, 0, 0]
  {
    hide Field;
    FieldBytes(d, e);
    assert d[e] == 0x50 && d[e + 1] == 0x45 && d[e + 2] == 0 && d[e + 3] == 0;
  }

  /** Header round trip: for any place of the NT headers, both classes, any
      declared optional-header size of at least two and any contents of the
      unread fields, the chain of the parser recovers every header field and both
      table offsets. */
  lemma HeadersOfEncoded(d: seq<byte>, e: nat, h: Headers, sizeOfOptional: nat, u: Unread)
    requires CarriesHeaders(d, e, h, sizeOfOptional, u)
    ensures HeadersOf(d) == Ok(h)
  {
    hide Le, LeBytes, Pack, Fits, CoffLayout, OptionalLayout64, OptionalLayout32;
    CoffPacked(h, sizeOfOptional, u);
    CoffShifted(d, e, h, sizeOfOptional);
    if h.is64 { OptionalPacked64(h, u); } else { OptionalPacked32(h, u); }
    OptionalShifted(d, e + 24, h);
    SignatureBytes(d, e);
  }

  lemma FieldFits(b: seq<byte>, at: nat, n: nat)
    requires at + n <= |b|
    ensures Field(b, at, n) < Pow256(n)
  {
    LeLessThanPow(b[at..at + n]);
  }

  lemma CoffWriteBack(b: seq<byte>, h: Headers, sizeOfOptional: nat, u: Unread)
    requires CoffReads(b, h, sizeOfOptional) && u.symbols == Field(b, 12, 8)
    ensures Fits(CoffLayout(h, sizeOfOptional, u)) && Pack(CoffLayout(h, sizeOfOptional, u)) == b
  {
    hide Le, Pack, Pow256;
    var fs := CoffLayout(h, sizeOfOptional, u);
    assert Width(fs, 1) == 4;
    assert Width(fs, 2) == 6;
    assert Width(fs, 3) == 8;
    assert Width(fs, 4) == 12;
    assert Width(fs, 5) == 20;
    assert Width(fs, 6) == 22;
    assert Width(fs, 7) == 24;
    HeldFits(fs, b);
    PackInverse(fs, b);
  }

  lemma OptionalWriteBack64(b: seq<byte>, h: Headers, u: Unread)
    requires h.is64 && OptionalReads(b, h) && u.sizes == Field(b, 2, 14) && u.bases == Field(b, 20, 4)
    requires u.versions == Field(b, 32, 24) && u.limits == Field(b, 60, 48)
    ensures Fits(OptionalLayout64(h, u)) && Pack(OptionalLayout64(h, u)) == b
  {
    hide Le, Pack, Pow256;
    var fs := OptionalLayout64(h, u);
    assert Width(fs, 1) == 2;
    assert Width(fs, 2) == 16;
    assert Width(fs, 3) == 20;
    assert Width(fs, 4) == 24;
    assert Width(fs, 5) == 32;
    assert Width(fs, 6) == 56;
    assert Width(fs, 7) == 60;
    assert Width(fs, 8) == 108;
    assert Width(fs, 9) == 112;
    HeldFits(fs, b);
    PackInverse(fs, b);
  }

  lemma OptionalWriteBack32(b: seq<byte>, h: Headers, u: Unread)
    requires !h.is64 && OptionalReads(b, h) && u.sizes == Field(b, 2, 14) && u.bases == Field(b, 20, 8)
    requires u.versions == Field(b, 32, 24) && u.limits == Field(b, 60, 32)
    ensures Fits(OptionalLayout32(h, u)) && Pack(OptionalLayout32(h, u)) == b
  {
    hide Le, Pack, Pow256;
    var fs := OptionalLayout32(h, u);
    assert Width(fs, 1) == 2;
    assert Width(fs, 2) == 16;
    assert Width(fs, 3) == 20;
    assert Width(fs, 4) == 28;
    assert Width(fs, 5) == 32;
    assert Width(fs, 6) == 56;
    assert Width(fs, 7) == 60;
    assert Width(fs, 8) == 92;
    assert Width(fs, 9) == 96;
    HeldFits(fs, b);
    PackInverse(fs, b);
  }

  lemma HeldFits(fs: seq<FieldValue>, b: seq<byte>)
    requires forall i :: 0 <= i < |fs| ==> Holds(fs, b, i)
    ensures Fits(fs)
  {
    forall i | 0 <= i < |fs|
      ensures fs[i].value < Pow256(fs[i].width)
    {
      assert Holds(fs, b, i);
      FieldFits(b, Width(fs, i), fs[i].width);
    }
  }

  /** What stands in the unread fields. */
  function UnreadOf(coff: seq<byte>, optional: seq<byte>, is64: bool): Unread
    requires |coff| == 24 && |optional| == OptionalSize(is64)
  {
    Unread(Field(coff, 12, 8), Field(optional, 2, 14), Field(optional, 20, if is64 then 4 else 8),
           Field(optional, 32, 24), Field(optional, 60, if is64 then 48 else 32))
  }

  lemma HeaderRecords(d: seq<byte>, e: nat, h: Headers)
    requires HeadersOf(d) == Ok(h) && e == Field(d, 0x3C, 4) && e + 24 + OptionalSize(h.is64) <= |d|
    ensures CoffReads(d[e..e + 24], h, Field(d, e + 20, 2))
    ensures OptionalReads(d[e + 24..e + 24 + OptionalSize(h.is64)], h)
  {
    hide Le;
    assert d[e..e + 24][0..4] == d[e..e + 4] == [0x50, 0x45, 0, 0];
    FieldBytes(d[e..e + 24], 0);
    FieldOfRecord(d, e, 24, 4, 2);
    FieldOfRecord(d, e, 24, 6, 2);
    FieldOfRecord(d, e, 24, 8, 4);
    FieldOfRecord(d, e, 24, 20, 2);
    FieldOfRecord(d, e, 24, 22, 2);
    var opt, n := e + 24, OptionalSize(h.is64);
    FieldOfRecord(d, opt, n, 0, 2);
    FieldOfRecord(d, opt, n, 16, 4);
    FieldOfRecord(d, opt, n, if h.is64 then 24 else 28, if h.is64 then 8 else 4);
    FieldOfRecord(d, opt, n, 56, 4);
    FieldOfRecord(d, opt, n, if h.is64 then 108 else 92, 4);
  }

  /** The header chain of the parser is exactly the inverse of the writer: it
      returns h for the buffers that carry h, with some unread fields at some
      place, and for no others. */
  lemma HeadersCarriedIff(d: seq<byte>, h: Headers)
    ensures HeadersOf(d) == Ok(h) <==>
              exists e: nat, sizeOfOptional: nat, u: Unread :: CarriesHeaders(d, e, h, sizeOfOptional, u)
  {
    hide Le, Pack, Fits, CoffReads, OptionalReads, CoffLayout, OptionalLayout64, OptionalLayout32;
    if HeadersOf(d) == Ok(h) {
      var e := Field(d, 0x3C, 4);
      var coff, optional := d[e..e + 24], d[e + 24..e + 24 + OptionalSize(h.is64)];
      var sizeOfOptional, u := Field(d, e + 20, 2), UnreadOf(coff, optional, h.is64);
      HeaderRecords(d, e, h);
      CoffWriteBack(coff, h, sizeOfOptional, u);
      if h.is64 { OptionalWriteBack64(optional, h, u); } else { OptionalWriteBack32(optional, h, u); }
      assert CarriesHeaders(d, e, h, sizeOfOptional, u);
    }
    if e: nat, sizeOfOptional: nat, u: Unread :| CarriesHeaders(d, e, h, sizeOfOptional, u) {
      HeadersOfEncoded(d, e, h, sizeOfOptional, u);
    }
  }

  // ----- sections -----

  /** A section name as stored: at most eight bytes, printable, padded with NULs. */
  predicate StorableName(name: seq<byte>) {
    |name| <= 8 && forall c :: c in name ==> 0x20 <= c < 0x7F
  }

  function PaddedName(name: seq<byte>): (b: seq<byte>)
    requires |name| <= 8
    ensures |b| == 8
  {
    name + ZeroBytes(8 - |name|)
  }

  /** The section header behind its name. The twelve bytes of relocation and
      line-number fields are not read. */
  function SectionLayout(s: Section, relocations: nat): seq<FieldValue> {
    [FieldValue(s.virtualSize, 4), FieldValue(s.virtualAddress, 4), FieldValue(s.rawSize, 4),
     FieldValue(s.rawOffset, 4), FieldValue(relocations, 12), FieldValue(s.characteristics, 4)]
  }

  function EncodeSection(s: Section, relocations: nat): seq<byte>
    requires |s.name| <= 8
  {
    PaddedName(s.name) + Pack(SectionLayout(s, relocations))
  }

  lemma StoredName(name: seq<byte>, b: seq<byte>)
    requires StorableName(name) && |b| >= 8 && b[..8] == PaddedName(name)
    ensures SanitizeName(b[..FirstNul(b, 0, 8)]) == name
  {
    hide FirstNul, SanitizeName;
    var n := |name|;
    assert forall i :: 0 <= i < n ==> b[i] == b[..8][i] == name[i];
    if n < 8 {
      assert b[n] == b[..8][n] == 0;
      assert 0 !in b[0..n] by {
        assert b[0..n] == name;
      }
      FirstNulAt(b, 0, 8, n);
    } else {
      assert forall i :: 0 <= i < 8 ==> b[i] in name;
    }
    assert FirstNul(b, 0, 8) == n;
    assert b[..n] == name;
    SanitizePrintable(name);
  }

  lemma SectionTail(s: Section, relocations: nat, b: seq<byte>)
    requires Fits(SectionLayout(s, relocations)) && |b| == 40 && b[8..40] == Pack(SectionLayout(s, relocations))
    ensures Field(b, 8, 4) == s.virtualSize && Field(b, 12, 4) == s.virtualAddress && Field(b, 16, 4) == s.rawSize
    ensures Field(b, 20, 4) == s.rawOffset && Field(b, 36, 4) == s.characteristics
  {
    hide Le, LeBytes, Pow256;
    var fs := SectionLayout(s, relocations);
    PackedField(fs, 0, 0);
    PackedField(fs, 1, 4);
    PackedField(fs, 2, 8);
    PackedField(fs, 3, 12);
    PackedField(fs, 4, 16);
    PackedField(fs, 5, 28);
    FieldOfRecord(b, 8, 32, 0, 4);
    FieldOfRecord(b, 8, 32, 4, 4);
    FieldOfRecord(b, 8, 32, 8, 4);
    FieldOfRecord(b, 8, 32, 12, 4);
    FieldOfRecord(b, 8, 32, 28, 4);
  }

  lemma SectionLength(s: Section, relocations: nat)
    requires |s.name| <= 8
    ensures |EncodeSection(s, relocations)| == 40
  {
    var fs := SectionLayout(s, relocations);
    assert Width(fs, 1) == 4;
    assert Width(fs, 2) == 8;
    assert Width(fs, 3) == 12;
    assert Width(fs, 4) == 16;
    assert Width(fs, 5) == 28;
    assert Width(fs, 6) == 32;
  }

  /** A section header with a storable name survives a write and a read. */
  lemma SectionRoundTrip(s: Section, relocations: nat)
    requires StorableName(s.name) && Fits(SectionLayout(s, relocations))
    ensures |EncodeSection(s, relocations)| == 40
    ensures DecodeSection(EncodeSection(s, relocations)) == s
  {
    hide Le, LeBytes, Pack;
    SectionLength(s, relocations);
    var b := EncodeSection(s, relocations);
    assert b[..8] == PaddedName(s.name) && b[8..40] == Pack(SectionLayout(s, relocations));
    StoredName(s.name, b);
    SectionTail(s, relocations, b);
  }

  /** The section table, written at an offset. */
  predicate SectionsHold(d: seq<byte>, off: nat, sections: seq<Section>, relocations: seq<nat>) {
    && off + 40 * |sections| <= |d| && |relocations| == |sections|
    && forall i :: 0 <= i < |sections| ==>
         && StorableName(sections[i].name) && Fits(SectionLayout(sections[i], relocations[i]))
         && d[off + 40 * i..off + 40 * i + 40] == EncodeSection(sections[i], relocations[i])
  }

  /** A written section table is recovered in order. */
  lemma SectionsOfEncoded(d: seq<byte>, off: nat, sections: seq<Section>, relocations: seq<nat>)
    requires SectionsHold(d, off, sections, relocations)
    ensures SectionTable(d, off, |sections|) == sections
  {
    hide EncodeSection, DecodeSection;
    forall i | 0 <= i < |sections|
      ensures SectionTable(d, off, |sections|)[i] == sections[i]
    {
      SectionRoundTrip(sections[i], relocations[i]);
    }
  }

  // ----- exports -----

  /** The export directory record. The parser reads its last six fields, not the
      sixteen bytes of flags, time, version and name in front. */
  function ExportDirectoryLayout(base: nat, numFunctions: nat, numNames: nat, functionsRva: nat, namesRva: nat,
                                 ordinalsRva: nat, front: nat): seq<FieldValue> {
    [FieldValue(front, 16), FieldValue(base, 4), FieldValue(numFunctions, 4), FieldValue(numNames, 4),
     FieldValue(functionsRva, 4), FieldValue(namesRva, 4), FieldValue(ordinalsRva, 4)]
  }

  lemma ExportDirectoryPacked(base: nat, numFunctions: nat, numNames: nat, functionsRva: nat, namesRva: nat,
                              ordinalsRva: nat, front: nat)
    requires Fits(ExportDirectoryLayout(base, numFunctions, numNames, functionsRva, namesRva, ordinalsRva, front))
    ensures var fs := ExportDirectoryLayout(base, numFunctions, numNames, functionsRva, namesRva, ordinalsRva, front);
            var b := Pack(fs);
            && |b| == 40 && Field(b, 16, 4) == base && Field(b, 20, 4) == numFunctions && Field(b, 24, 4) == numNames
            && Field(b, 28, 4) == functionsRva && Field(b, 32, 4) == namesRva && Field(b, 36, 4) == ordinalsRva
  {
    hide Le, LeBytes, Pow256;
    var fs := ExportDirectoryLayout(base, numFunctions, numNames, functionsRva, namesRva, ordinalsRva, front);
    PackedField(fs, 0, 0);
    PackedField(fs, 1, 16);
    PackedField(fs, 2, 20);
    PackedField(fs, 3, 24);
    PackedField(fs, 4, 28);
    PackedField(fs, 5, 32);
    PackedField(fs, 6, 36);
  }

  /** A written directory leads the parser to the three arrays it names. */
  lemma ExportTableOfEncoded(d: seq<byte>, sections: seq<Section>, rva: nat, t: ExportTable, functionsRva: nat,
                             namesRva: nat, ordinalsRva: nat, front: nat)
    requires RvaToOffset(sections, rva).Some? && RvaToOffset(sections, rva).value + 40 <= |d|
    requires var fs := ExportDirectoryLayout(t.base, t.numFunctions, t.numNames, functionsRva, namesRva, ordinalsRva,
                                             front);
             Fits(fs) && d[RvaToOffset(sections, rva).value..RvaToOffset(sections, rva).value + 40] == Pack(fs)
    requires RvaToOffset(sections, functionsRva) == Some(t.functions)
    requires RvaToOffset(sections, namesRva) == Some(t.names)
    requires RvaToOffset(sections, ordinalsRva) == Some(t.ordinals)
    requires ArraysFit(d, t)
    ensures ExportTableAt(d, sections, rva) == Ok(t)
  {
    hide Le, LeBytes, Pack, RvaToOffset, Fits, ExportDirectoryLayout;
    ExportDirectoryPacked(t.base, t.numFunctions, t.numNames, functionsRva, namesRva, ordinalsRva, front);
    var off := RvaToOffset(sections, rva).value;
    FieldOfRecord(d, off, 40, 16, 4);
    FieldOfRecord(d, off, 40, 20, 4);
    FieldOfRecord(d, off, 40, 24, 4);
    FieldOfRecord(d, off, 40, 28, 4);
    FieldOfRecord(d, off, 40, 32, 4);
    FieldOfRecord(d, off, 40, 36, 4);
  }

  /** A named export as its writer sees it; the forwarder text counts only when
      the function lies inside the export directory. */
  datatype NamedExport = NamedExport(name: seq<byte>, nameRva: nat, index: nat, forwarder: seq<byte>)

  /** The string of one export stands, NUL-terminated and short enough, where
      its address leads. */
  predicate NameStands(d: seq<byte>, sections: seq<Section>, x: NamedExport) {
    match RvaToOffset(sections, x.nameRva)
    case None => false
    case Some(off) => TerminatedAt(d, off, 4096, x.name)
  }

  /** The forwarder text of a forwarded function stands at the address of the
      function; the empty text also stands for one that cannot be read. */
  predicate ForwarderStands(d: seq<byte>, sections: seq<Section>, rva: nat, text: seq<byte>) {
    match RvaToOffset(sections, rva)
    case None => text == []
    case Some(off) => TerminatedAt(d, off, 4096, text) || (text == [] && CString(d, off, 4096).Err?)
  }

  /** Name and forwarder text of every export stand in the buffer. */
  predicate TextsStand(d: seq<byte>, sections: seq<Section>, dirRva: nat, dirSize: nat, functions: seq<nat>,
                       xs: seq<NamedExport>) {
    forall k :: 0 <= k < |xs| ==>
      && xs[k].index < |functions| && NameStands(d, sections, xs[k])
      && (Forwarded(dirRva, dirSize, functions[xs[k].index]) ==>
            ForwarderStands(d, sections, functions[xs[k].index], xs[k].forwarder))
  }

  function NameRvas(xs: seq<NamedExport>): (s: seq<nat>)
    ensures |s| == |xs|
  {
    seq(|xs|, i requires 0 <= i < |xs| => xs[i].nameRva)
  }

  function Indices(xs: seq<NamedExport>): (s: seq<nat>)
    ensures |s| == |xs|
  {
    seq(|xs|, i requires 0 <= i < |xs| => xs[i].index)
  }

  /** The three parallel arrays, written at the offsets of the table. */
  predicate ExportArraysHold(d: seq<byte>, t: ExportTable, functions: seq<nat>, xs: seq<NamedExport>)
    requires ArraysFit(d, t)
  {
    && t.numFunctions == |functions| && t.numNames == |xs|
    && (forall i :: 0 <= i < |functions| ==> functions[i] < TWO_32)
    && (forall i :: 0 <= i < |xs| ==> xs[i].nameRva < TWO_32 && xs[i].index < |functions| && xs[i].index < TWO_16)
    && d[t.functions..t.functions + 4 * |functions|] == Pack(Words(functions, 4))
    && d[t.names..t.names + 4 * |xs|] == Pack(Words(NameRvas(xs), 4))
    && d[t.ordinals..t.ordinals + 2 * |xs|] == Pack(Words(Indices(xs), 2))
  }

  function WrittenExport(dirRva: nat, dirSize: nat, base: nat, functions: seq<nat>, x: NamedExport): Export
    requires x.index < |functions|
  {
    var rva := functions[x.index];
    var forwarded := dirRva + dirSize < TWO_32 && dirRva <= rva < dirRva + dirSize;
    Export(SanitizeName(x.name), rva, (base + x.index) % TWO_16, forwarded,
           if forwarded then SanitizeName(x.forwarder) else [])
  }

  lemma ForwarderOfEncoded(d: seq<byte>, sections: seq<Section>, rva: nat, text: seq<byte>)
    requires ForwarderStands(d, sections, rva, text)
    ensures ForwarderAt(d, sections, rva) == SanitizeName(text)
  {
    hide CString, TerminatedAt, RvaToOffset;
    if RvaToOffset(sections, rva).Some? {
      CStringExact(d, RvaToOffset(sections, rva).value, 4096, text);
    }
  }

  lemma ExportOfEncoded(d: seq<byte>, sections: seq<Section>, dirRva: nat, dirSize: nat, t: ExportTable,
                        functions: seq<nat>, xs: seq<NamedExport>, i: nat)
    requires ArraysFit(d, t) && ExportArraysHold(d, t, functions, xs) && i < |xs|
    requires TextsStand(d, sections, dirRva, dirSize, functions, xs)
    ensures ExportAt(d, sections, dirRva, dirSize, t, i) ==
            Ok(WrittenExport(dirRva, dirSize, t.base, functions, xs[i]))
  {
    hide Le, Pack, RvaToOffset, SanitizeName, CString, TerminatedAt, ForwarderAt, ForwarderStands, Pow256;
    PowValues();
    WordReads(d, t.names, NameRvas(xs), 4, i);
    WordReads(d, t.ordinals, Indices(xs), 2, i);
    WordReads(d, t.functions, functions, 4, xs[i].index);
    assert NameStands(d, sections, xs[i]);
    CStringExact(d, RvaToOffset(sections, xs[i].nameRva).value, 4096, xs[i].name);
    if Forwarded(dirRva, dirSize, functions[xs[i].index]) {
      ForwarderOfEncoded(d, sections, functions[xs[i].index], xs[i].forwarder);
    }
  }

  function WrittenExports(dirRva: nat, dirSize: nat, base: nat, functions: seq<nat>, xs: seq<NamedExport>)
    : (es: seq<Export>)
    requires forall i :: 0 <= i < |xs| ==> xs[i].index < |functions|
    ensures |es| == |xs|
  {
    seq(|xs|, i requires 0 <= i < |xs| => WrittenExport(dirRva, dirSize, base, functions, xs[i]))
  }

  /** Export round trip: writing the three arrays, the names and the forwarder
      texts, then parsing, gives every named export in order, its address taken
      through its index. */
  lemma {:induction false} ExportsOfEncoded(d: seq<byte>, sections: seq<Section>, dirRva: nat, dirSize: nat,
                                            t: ExportTable, functions: seq<nat>, xs: seq<NamedExport>, i: nat)
    requires ArraysFit(d, t) && ExportArraysHold(d, t, functions, xs) && i <= |xs|
    requires TextsStand(d, sections, dirRva, dirSize, functions, xs)
    ensures ExportsFrom(d, sections, dirRva, dirSize, t, i) ==
            Ok(WrittenExports(dirRva, dirSize, t.base, functions, xs)[i..])
    decreases |xs| - i
  {
    hide Le, Pack, ExportAt, WrittenExport, TextsStand, RvaToOffset;
    var all := WrittenExports(dirRva, dirSize, t.base, functions, xs);
    if i < |xs| {
      ExportOfEncoded(d, sections, dirRva, dirSize, t, functions, xs, i);
      ExportsOfEncoded(d, sections, dirRva, dirSize, t, functions, xs, i + 1);
      assert all[i..] == [all[i]] + all[i + 1..];
    } else {
      assert all[i..] == [];
    }
  }

  // ----- imports -----

  /** The import descriptor record. The eight bytes of timestamp and forwarder
      chain are not read, not even to find the end of the table. */
  function DescriptorLayout(x: Descriptor, chain: nat): seq<FieldValue> {
    [FieldValue(x.originalThunk, 4), FieldValue(chain, 8), FieldValue(x.nameRva, 4), FieldValue(x.firstThunk, 4)]
  }

  lemma DescriptorRoundTrip(d: seq<byte>, off: nat, x: Descriptor, chain: nat)
    requires off + 20 <= |d| && Fits(DescriptorLayout(x, chain))
    requires d[off..off + 20] == Pack(DescriptorLayout(x, chain))
    ensures DescriptorAt(d, off) == x
  {
    hide Le, LeBytes, Pow256;
    var fs := DescriptorLayout(x, chain);
    PackedField(fs, 0, 0);
    PackedField(fs, 1, 4);
    PackedField(fs, 2, 12);
    PackedField(fs, 3, 16);
    FieldOfRecord(d, off, 20, 0, 4);
    FieldOfRecord(d, off, 20, 12, 4);
    FieldOfRecord(d, off, 20, 16, 4);
  }

  /** An imported function as its writer sees it: an ordinal, or a name with a
      hint standing at an address. */
  datatype WrittenImport = ByOrdinal(ordinal: nat) | ByName(name: seq<byte>, hint: nat, rva: nat)

  predicate ImportStands(d: seq<byte>, sections: seq<Section>, is64: bool, x: WrittenImport) {
    match x
    case ByOrdinal(ordinal) => ordinal < TWO_16
    case ByName(name, hint, rva) =>
      0 < rva < (if is64 then TWO_32 else TWO_31) &&
      match RvaToOffset(sections, rva)
      case None => false
      case Some(off) => off + 2 <= |d| && Field(d, off, 2) == hint && TerminatedAt(d, off + 2, 4096, name)
  }

  function ThunkOf(is64: bool, x: WrittenImport): nat {
    match x
    case ByOrdinal(ordinal) => (if is64 then 0x8000_0000_0000_0000 else 0x8000_0000) + ordinal
    case ByName(_, _, rva) => rva
  }

  function ReadImport(x: WrittenImport): ImportFunction {
    match x
    case ByOrdinal(ordinal) => ImportFunction(OrdinalName(ordinal), ordinal, true)
    case ByName(name, hint, _) => ImportFunction(SanitizeName(name), hint, false)
  }

  lemma ThunkRoundTrip(d: seq<byte>, sections: seq<Section>, is64: bool, x: WrittenImport)
    requires ImportStands(d, sections, is64, x)
    ensures 0 < ThunkOf(is64, x) < if is64 then 0x1_0000_0000_0000_0000 else 0x1_0000_0000
    ensures DecodeThunk(d, sections, is64, ThunkOf(is64, x)) == Ok(ReadImport(x))
  {
    hide Le, RvaToOffset, SanitizeName, OrdinalName;
    match x
    case ByOrdinal(ordinal) =>
    case ByName(name, hint, rva) =>
      CStringExact(d, RvaToOffset(sections, rva).value + 2, 4096, name);
  }

  function Thunks(is64: bool, xs: seq<WrittenImport>): (s: seq<nat>)
    ensures |s| == |xs| + 1
  {
    seq(|xs| + 1, i requires 0 <= i < |xs| + 1 => if i < |xs| then ThunkOf(is64, xs[i]) else 0)
  }

  function ReadImports(xs: seq<WrittenImport>): (fs: seq<ImportFunction>)
    ensures |fs| == |xs|
  {
    seq(|xs|, i requires 0 <= i < |xs| => ReadImport(xs[i]))
  }

  /** The zero-terminated thunk array of these functions stands at an offset. */
  predicate ThunksStand(d: seq<byte>, sections: seq<Section>, is64: bool, off: nat, xs: seq<WrittenImport>) {
    var w := if is64 then 8 else 4;
    && off + w * (|xs| + 1) <= |d|
    && d[off..off + w * (|xs| + 1)] == Pack(Words(Thunks(is64, xs), w))
    && forall k :: 0 <= k < |xs| ==> ImportStands(d, sections, is64, xs[k])
  }

  /** Import round trip: a zero-terminated thunk array in either width, with
      the hints and names in place, is read back function by function. */
  lemma {:induction false} FunctionsOfEncoded(d: seq<byte>, sections: seq<Section>, is64: bool, off: nat,
                                              xs: seq<WrittenImport>, i: nat)
    requires i <= |xs| && ThunksStand(d, sections, is64, off, xs)
    ensures FunctionsFrom(d, sections, is64, off + ThunkSize(is64) * i) == Ok(ReadImports(xs)[i..])
    decreases |xs| - i
  {
    hide Le, Pack, DecodeThunk, ReadImport, ThunkOf, ImportStands;
    var w := ThunkSize(is64);
    PowValues();
    if i < |xs| {
      ThunkRoundTrip(d, sections, is64, xs[i]);
      WordReads(d, off, Thunks(is64, xs), w, i);
      FunctionsOfEncoded(d, sections, is64, off, xs, i + 1);
      assert off + w * (i + 1) == off + w * i + w;
      var all := ReadImports(xs);
      assert all[i..] == [all[i]] + all[i + 1..];
    } else {
      WordReads(d, off, Thunks(is64, xs), w, i);
      assert ReadImports(xs)[i..] == [];
    }
  }

  /** An imported module as its writer sees it. */
  datatype WrittenModule = WrittenModule(
    name: seq<byte>, descriptor: Descriptor, chain: nat, functions: seq<WrittenImport>)

  /** The name and the thunk array of a module stand where its descriptor leads. */
  predicate ModuleStands(d: seq<byte>, sections: seq<Section>, is64: bool, m: WrittenModule) {
    var desc := m.descriptor;
    && desc != Descriptor(0, 0, 0)
    && match (RvaToOffset(sections, desc.nameRva),
              RvaToOffset(sections, if desc.originalThunk != 0 then desc.originalThunk else desc.firstThunk))
       case (Some(name), Some(thunks)) =>
         TerminatedAt(d, name, 4096, m.name) && ThunksStand(d, sections, is64, thunks, m.functions)
       case _ => false
  }

  function ReadModule(m: WrittenModule): ImportModule {
    ImportModule(SanitizeName(m.name), ReadImports(m.functions))
  }

  lemma ModuleOfEncoded(d: seq<byte>, sections: seq<Section>, is64: bool, m: WrittenModule)
    requires ModuleStands(d, sections, is64, m)
    ensures ModuleOf(d, sections, is64, m.descriptor) == Ok(ReadModule(m))
  {
    hide Le, Pack, RvaToOffset, SanitizeName, CString, TerminatedAt, FunctionsFrom, ReadImports, ImportStands;
    var desc := m.descriptor;
    CStringExact(d, RvaToOffset(sections, desc.nameRva).value, 4096, m.name);
    var thunkRva := if desc.originalThunk != 0 then desc.originalThunk else desc.firstThunk;
    var off := RvaToOffset(sections, thunkRva).value;
    FunctionsOfEncoded(d, sections, is64, off, m.functions, 0);
    assert off + ThunkSize(is64) * 0 == off;
    assert ReadImports(m.functions)[0..] == ReadImports(m.functions);
  }

  /** The descriptor table of these modules, closed by a descriptor whose tested
      fields are zero, with everything it leads to. */
  predicate ModulesStand(d: seq<byte>, sections: seq<Section>, is64: bool, off: nat, ms: seq<WrittenModule>,
                         last: nat) {
    && off + 20 * |ms| + 20 <= |d|
    && (forall k :: 0 <= k < |ms| ==>
          && Fits(DescriptorLayout(ms[k].descriptor, ms[k].chain))
          && d[off + 20 * k..off + 20 * k + 20] == Pack(DescriptorLayout(ms[k].descriptor, ms[k].chain))
          && ModuleStands(d, sections, is64, ms[k]))
    && Fits(DescriptorLayout(Descriptor(0, 0, 0), last))
    && d[off + 20 * |ms|..off + 20 * |ms| + 20] == Pack(DescriptorLayout(Descriptor(0, 0, 0), last))
  }

  function ReadModules(ms: seq<WrittenModule>): (r: seq<ImportModule>)
    ensures |r| == |ms|
  {
    seq(|ms|, i requires 0 <= i < |ms| => ReadModule(ms[i]))
  }

  /** Import table round trip: a written descriptor table is read back module by
      module, names and functions included, up to its terminator. */
  lemma {:induction false} ModulesOfEncoded(d: seq<byte>, sections: seq<Section>, is64: bool, off: nat,
                                            ms: seq<WrittenModule>, last: nat, i: nat)
    requires i <= |ms| && ModulesStand(d, sections, is64, off, ms, last)
    ensures ModulesFrom(d, sections, is64, off + 20 * i) == Ok(ReadModules(ms)[i..])
    decreases |ms| - i
  {
    hide Le, Pack, Fits, DescriptorLayout, DescriptorAt, ModuleOf, ModuleStands, ReadModule;
    if i < |ms| {
      DescriptorRoundTrip(d, off + 20 * i, ms[i].descriptor, ms[i].chain);
      ModuleOfEncoded(d, sections, is64, ms[i]);
      ModuleHasDescriptor(d, sections, is64, ms[i]);
      ModulesOfEncoded(d, sections, is64, off, ms, last, i + 1);
      var all := ReadModules(ms);
      assert all[i..] == [all[i]] + all[i + 1..];
    } else {
      DescriptorRoundTrip(d, off + 20 * i, Descriptor(0, 0, 0), last);
      assert ReadModules(ms)[i..] == [];
    }
  }

  lemma ModuleHasDescriptor(d: seq<byte>, sections: seq<Section>, is64: bool, m: WrittenModule)
    requires ModuleStands(d, sections, is64, m)
    ensures m.descriptor != Descriptor(0, 0, 0)
  {
  }

  // ----- whole images -----

  /** The data directories, written one after the other. */
  predicate DirectoriesHold(d: seq<byte>, off: nat, dirs: Directories) {
    && |dirs.rvas| == |dirs.sizes| && off + 8 * |dirs.rvas| <= |d|
    && forall i :: 0 <= i < |dirs.rvas| ==>
         && dirs.rvas[i] < TWO_32 && dirs.sizes[i] < TWO_32
         && d[off + 8 * i..off + 8 * i + 8] == Pack(Words([dirs.rvas[i], dirs.sizes[i]], 4))
  }

  lemma DirectoriesOfEncoded(d: seq<byte>, off: nat, dirs: Directories)
    requires DirectoriesHold(d, off, dirs)
    ensures DirectoryTable(d, off, |dirs.rvas|) == dirs
  {
    hide Le, Pack, Pow256;
    PowValues();
    var table := DirectoryTable(d, off, |dirs.rvas|);
    forall i | 0 <= i < |dirs.rvas|
      ensures table.rvas[i] == dirs.rvas[i] && table.sizes[i] == dirs.sizes[i]
    {
      WordReads(d, off + 8 * i, [dirs.rvas[i], dirs.sizes[i]], 4, 0);
      WordReads(d, off + 8 * i, [dirs.rvas[i], dirs.sizes[i]], 4, 1);
    }
    assert table.rvas == dirs.rvas && table.sizes == dirs.sizes;
  }

  /** An export directory as its writer sees it: where its arrays are, by offset
      and by address, and what they hold. */
  datatype ExportDirectory = ExportDirectory(
    table: ExportTable, functionsRva: nat, namesRva: nat, ordinalsRva: nat, front: nat,
    functions: seq<nat>, names: seq<NamedExport>)

  predicate ExportsHold(d: seq<byte>, sections: seq<Section>, rva: nat, size: nat, x: ExportDirectory) {
    var t := x.table;
    var fs := ExportDirectoryLayout(t.base, t.numFunctions, t.numNames, x.functionsRva, x.namesRva, x.ordinalsRva,
                                    x.front);
    && RvaToOffset(sections, x.functionsRva) == Some(t.functions)
    && RvaToOffset(sections, x.namesRva) == Some(t.names)
    && RvaToOffset(sections, x.ordinalsRva) == Some(t.ordinals)
    && ArraysFit(d, t) && ExportArraysHold(d, t, x.functions, x.names)
    && TextsStand(d, sections, rva, size, x.functions, x.names)
    && match RvaToOffset(sections, rva)
       case Some(off) => off + 40 <= |d| && Fits(fs) && d[off..off + 40] == Pack(fs)
       case None => false
  }

  /** Modules, and the unread bytes of the descriptor that ends their table. */
  datatype ImportDirectory = ImportDirectory(modules: seq<WrittenModule>, last: nat)

  /** A PE image as its writer sees it, with all the fields that the parser does
      not read; without an export or import directory the parts are absent. */
  datatype WrittenImage = WrittenImage(
    headers: Headers, sizeOfOptional: nat, unread: Unread, sections: seq<Section>, relocations: seq<nat>,
    dirs: Directories, exports: Option<ExportDirectory>, imports: Option<ImportDirectory>)

  /** A directory entry is present exactly when there is something to point to. */
  predicate Announced(dirs: Directories, i: nat, present: bool) {
    present <==> i < |dirs.rvas| && dirs.rvas[i] != 0
  }

  predicate ExportsPlaced(d: seq<byte>, x: WrittenImage) {
    && |x.dirs.rvas| == |x.dirs.sizes| && Announced(x.dirs, 0, x.exports.Some?)
    && (x.exports.Some? ==> ExportsHold(d, x.sections, x.dirs.rvas[0], x.dirs.sizes[0], x.exports.value))
  }

  predicate ImportsPlaced(d: seq<byte>, x: WrittenImage) {
    && Announced(x.dirs, 1, x.imports.Some?)
    && (x.imports.Some? ==>
          match RvaToOffset(x.sections, x.dirs.rvas[1])
          case Some(off) =>
            ModulesStand(d, x.sections, x.headers.is64, off, x.imports.value.modules, x.imports.value.last)
          case None => false)
  }

  /** The buffer holds every part of the image where the others say it is: NT
      headers at e, section table, directories, exports and imports. What lies
      between them is arbitrary. */
  predicate Carries(d: seq<byte>, e: nat, x: WrittenImage) {
    && CarriesHeaders(d, e, x.headers, x.sizeOfOptional, x.unread)
    && x.headers.sectionCount == |x.sections| && SectionsHold(d, x.headers.tableOffset, x.sections, x.relocations)
    && x.headers.dirCount == |x.dirs.rvas| && DirectoriesHold(d, x.headers.dirOffset, x.dirs)
    && ExportsPlaced(d, x) && ImportsPlaced(d, x)
  }

  /** The indices of the names lead to functions. */
  predicate IndicesFit(x: WrittenImage) {
    x.exports.Some? ==>
      && |x.dirs.rvas| > 0 && |x.dirs.sizes| > 0
      && forall k :: 0 <= k < |x.exports.value.names| ==> x.exports.value.names[k].index < |x.exports.value.functions|
  }

  /** What the parse should return. */
  function ExportsOf(x: WrittenImage): seq<Export>
    requires IndicesFit(x)
  {
    match x.exports
    case None => []
    case Some(w) => WrittenExports(x.dirs.rvas[0], x.dirs.sizes[0], w.table.base, w.functions, w.names)
  }

  function ImportsOf(x: WrittenImage): seq<ImportModule> {
    match x.imports
    case None => []
    case Some(w) => ReadModules(w.modules)
  }

  lemma ExportsOfImage(d: seq<byte>, x: WrittenImage)
    requires ExportsPlaced(d, x)
    ensures IndicesFit(x) && Exports(d, x.sections, x.dirs) == Ok(ExportsOf(x))
  {
    hide Le, Pack, RvaToOffset, Fits, ExportDirectoryLayout, ExportTableAt, ExportsFrom, WrittenExports, TextsStand;
    if x.exports.Some? {
      var rva, w := x.dirs.rvas[0], x.exports.value;
      ExportTableOfEncoded(d, x.sections, rva, w.table, w.functionsRva, w.namesRva, w.ordinalsRva, w.front);
      ExportsOfEncoded(d, x.sections, rva, x.dirs.sizes[0], w.table, w.functions, w.names, 0);
      var es := WrittenExports(rva, x.dirs.sizes[0], w.table.base, w.functions, w.names);
      assert es[0..] == es;
    }
  }

  lemma ImportsOfImage(d: seq<byte>, x: WrittenImage)
    requires ImportsPlaced(d, x)
    ensures Imports(d, x.sections, x.headers.is64, x.dirs) == Ok(ImportsOf(x))
  {
    hide ModulesFrom, ModulesStand, ReadModules, RvaToOffset;
    if x.imports.Some? {
      var off := RvaToOffset(x.sections, x.dirs.rvas[1]).value;
      var w := x.imports.value;
      ModulesOfEncoded(d, x.sections, x.headers.is64, off, w.modules, w.last, 0);
      assert ReadModules(w.modules)[0..] == ReadModules(w.modules);
    }
  }

  /** Whole-image round trip: any buffer that carries the parts of an image, at
      any places and in either class, parses to exactly that image. */
  lemma ParseOfEncoded(d: seq<byte>, e: nat, x: WrittenImage)
    requires Carries(d, e, x)
    ensures IndicesFit(x)
    ensures ParseImage(d) ==
            Ok(Image(x.headers, ArchitectureOf(x.headers.machine), x.sections, ExportsOf(x), ImportsOf(x)))
  {
    hide HeadersOf, CarriesHeaders, Fits, StorableName, EncodeSection, SectionTable, DirectoryTable, Exports, Imports,
      ExportsPlaced, ImportsPlaced, ExportsOf, ImportsOf, OptionalLayout, CoffLayout;
    HeadersOfEncoded(d, e, x.headers, x.sizeOfOptional, x.unread);
    HeadersInside(d);
    SectionsOfEncoded(d, x.headers.tableOffset, x.sections, x.relocations);
    DirectoriesOfEncoded(d, x.headers.dirOffset, x.dirs);
    ExportsOfImage(d, x);
    ImportsOfImage(d, x);
  }
}
