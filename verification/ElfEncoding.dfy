/** Writers for the ELF records, inverse to the decoders in both directions. */
module ElfEncoding {
  import opened Base
  import opened Reader
  import opened LittleEndian
  import opened Packing
  import opened ElfFormat

  // ----- record writers -----

  /** The fields of a record, in file order, with their widths. */
  function SectionLayout(is64: bool, s: Section): seq<FieldValue> {
    var w := if is64 then 8 else 4;
    [FieldValue(s.nameIndex, 4), FieldValue(s.typ, 4), FieldValue(s.flags, w), FieldValue(s.address, w),
     FieldValue(s.offset, w), FieldValue(s.size, w), FieldValue(s.link, 4), FieldValue(s.info, 4),
     FieldValue(s.alignment, w), FieldValue(s.entrySize, w)]
  }

  function ProgramHeaderLayout(is64: bool, p: ProgramHeader): seq<FieldValue> {
    if is64 then
      [FieldValue(p.typ, 4), FieldValue(p.flags, 4), FieldValue(p.offset, 8), FieldValue(p.virtualAddress, 8),
       FieldValue(p.physicalAddress, 8), FieldValue(p.fileSize, 8), FieldValue(p.memorySize, 8),
       FieldValue(p.alignment, 8)]
    else
      [FieldValue(p.typ, 4), FieldValue(p.offset, 4), FieldValue(p.virtualAddress, 4), FieldValue(p.physicalAddress, 4),
       FieldValue(p.fileSize, 4), FieldValue(p.memorySize, 4), FieldValue(p.flags, 4), FieldValue(p.alignment, 4)]
  }

  /** What the parser does not read of the file header: identification bytes 6
      to 15, e_version, e_flags and e_ehsize. */
  datatype HeaderRest = HeaderRest(ident: seq<byte>, version: nat, flags: nat, ehsize: nat)

  /** The header after its 16 identification bytes. */
  function HeaderLayout(is64: bool, h: Header, rest: HeaderRest): seq<FieldValue> {
    var w := if is64 then 8 else 4;
    [FieldValue(h.typ, 2), FieldValue(h.machine, 2), FieldValue(rest.version, 4), FieldValue(h.entry, w),
     FieldValue(h.phoff, w), FieldValue(h.shoff, w), FieldValue(rest.flags, 4), FieldValue(rest.ehsize, 2),
     FieldValue(h.phentsize, 2),
     FieldValue(h.phnum, 2), FieldValue(h.shentsize, 2), FieldValue(h.shnum, 2), FieldValue(h.shstrndx, 2)]
  }

  function EncodeSection(is64: bool, s: Section): seq<byte> { Pack(SectionLayout(is64, s)) }

  function EncodeProgramHeader(is64: bool, p: ProgramHeader): seq<byte> { Pack(ProgramHeaderLayout(is64, p)) }

  function IdentBytes(is64: bool, rest: HeaderRest): (b: seq<byte>)
    requires |rest.ident| == 10
    ensures |b| == 16
  {
    [0x7F, 0x45, 0x4C, 0x46, if is64 then 2 else 1, 1] + rest.ident
  }

  /** Every value fits its field, the unread ones included. */
  predicate HeaderFits(is64: bool, h: Header, rest: HeaderRest) {
    |rest.ident| == 10 && Fits(HeaderLayout(is64, h, rest))
  }

  function EncodeHeader(is64: bool, h: Header, rest: HeaderRest): seq<byte>
    requires |rest.ident| == 10
  {
    IdentBytes(is64, rest) + Pack(HeaderLayout(is64, h, rest))
  }

  lemma SectionRecordSize(is64: bool, s: Section)
    ensures |EncodeSection(is64, s)| == SectionSize(is64)
  {
    var fs, w := SectionLayout(is64, s), if is64 then 8 else 4;
    assert Width(fs, 1) == 4;
    assert Width(fs, 2) == 8;
    assert Width(fs, 3) == 8 + w;
    assert Width(fs, 4) == 8 + 2 * w;
    assert Width(fs, 5) == 8 + 3 * w;
    assert Width(fs, 6) == 8 + 4 * w;
    assert Width(fs, 7) == 12 + 4 * w;
    assert Width(fs, 8) == 16 + 4 * w;
    assert Width(fs, 9) == 16 + 5 * w;
    assert Width(fs, 10) == 16 + 6 * w;
  }

  lemma ProgramHeaderRecordSize(is64: bool, p: ProgramHeader)
    ensures |EncodeProgramHeader(is64, p)| == ProgramHeaderSize(is64)
  {
    var fs, w := ProgramHeaderLayout(is64, p), if is64 then 8 else 4;
    assert Width(fs, 1) == 4;
    assert Width(fs, 2) == 8;
    assert Width(fs, 3) == 8 + w;
    assert Width(fs, 4) == 8 + 2 * w;
    assert Width(fs, 5) == 8 + 3 * w;
    assert Width(fs, 6) == 8 + 4 * w;
    assert Width(fs, 7) == 8 + 5 * w;
    assert Width(fs, 8) == 8 + 6 * w;
  }

  // ----- decode after encode -----

  lemma SectionRoundTrip64(s: Section)
    requires Fits(SectionLayout(true, s))
    ensures |EncodeSection(true, s)| == 64
    ensures DecodeSection(true, EncodeSection(true, s)) == s.(name := [])
  {
    hide Le, LeBytes, Pow256;
    var fs := SectionLayout(true, s);
    PackedField(fs, 0, 0);
    PackedField(fs, 1, 4);
    PackedField(fs, 2, 8);
    PackedField(fs, 3, 16);
    PackedField(fs, 4, 24);
    PackedField(fs, 5, 32);
    PackedField(fs, 6, 40);
    PackedField(fs, 7, 44);
    PackedField(fs, 8, 48);
    PackedField(fs, 9, 56);
  }

  lemma SectionRoundTrip32(s: Section)
    requires Fits(SectionLayout(false, s))
    ensures |EncodeSection(false, s)| == 40
    ensures DecodeSection(false, EncodeSection(false, s)) == s.(name := [])
  {
    hide Le, LeBytes, Pow256;
    var fs := SectionLayout(false, s);
    PackedField(fs, 0, 0);
    PackedField(fs, 1, 4);
    PackedField(fs, 2, 8);
    PackedField(fs, 3, 12);
    PackedField(fs, 4, 16);
    PackedField(fs, 5, 20);
    PackedField(fs, 6, 24);
    PackedField(fs, 7, 28);
    PackedField(fs, 8, 32);
    PackedField(fs, 9, 36);
  }

  lemma ProgramHeaderRoundTrip64(p: ProgramHeader)
    requires Fits(ProgramHeaderLayout(true, p))
    ensures |EncodeProgramHeader(true, p)| == 56
    ensures DecodeProgramHeader(true, EncodeProgramHeader(true, p)) == p
  {
    hide Le, LeBytes, Pow256;
    var fs := ProgramHeaderLayout(true, p);
    PackedField(fs, 0, 0);
    PackedField(fs, 1, 4);
    PackedField(fs, 2, 8);
    PackedField(fs, 3, 16);
    PackedField(fs, 4, 24);
    PackedField(fs, 5, 32);
    PackedField(fs, 6, 40);
    PackedField(fs, 7, 48);
  }

  lemma ProgramHeaderRoundTrip32(p: ProgramHeader)
    requires Fits(ProgramHeaderLayout(false, p))
    ensures |EncodeProgramHeader(false, p)| == 32
    ensures DecodeProgramHeader(false, EncodeProgramHeader(false, p)) == p
  {
    hide Le, LeBytes, Pow256;
    var fs := ProgramHeaderLayout(false, p);
    PackedField(fs, 0, 0);
    PackedField(fs, 1, 4);
    PackedField(fs, 2, 8);
    PackedField(fs, 3, 12);
    PackedField(fs, 4, 16);
    PackedField(fs, 5, 20);
    PackedField(fs, 6, 24);
    PackedField(fs, 7, 28);
  }

  /** A section record of either class survives a write and a read. */
  lemma SectionRoundTrip(is64: bool, s: Section)
    requires Fits(SectionLayout(is64, s))
    ensures |EncodeSection(is64, s)| == SectionSize(is64)
    ensures DecodeSection(is64, EncodeSection(is64, s)) == s.(name := [])
  {
    if is64 { SectionRoundTrip64(s); } else { SectionRoundTrip32(s); }
  }

  lemma ProgramHeaderRoundTrip(is64: bool, p: ProgramHeader)
    requires Fits(ProgramHeaderLayout(is64, p))
    ensures |EncodeProgramHeader(is64, p)| == ProgramHeaderSize(is64)
    ensures DecodeProgramHeader(is64, EncodeProgramHeader(is64, p)) == p
  {
    if is64 { ProgramHeaderRoundTrip64(p); } else { ProgramHeaderRoundTrip32(p); }
  }

  // ----- encode after decode -----

  /** Section headers have no unread bytes: writing back what was read
      reproduces the record byte for byte. */
  lemma SectionWriteBack64(b: seq<byte>)
    requires |b| == 64
    ensures EncodeSection(true, DecodeSection(true, b)) == b
  {
    var fs := SectionLayout(true, DecodeSection(true, b));
    assert Width(fs, 1) == 4;
    assert Width(fs, 2) == 8;
    assert Width(fs, 3) == 16;
    assert Width(fs, 4) == 24;
    assert Width(fs, 5) == 32;
    assert Width(fs, 6) == 40;
    assert Width(fs, 7) == 44;
    assert Width(fs, 8) == 48;
    assert Width(fs, 9) == 56;
    PackInverse(fs, b);
  }

  lemma SectionWriteBack32(b: seq<byte>)
    requires |b| == 40
    ensures EncodeSection(false, DecodeSection(false, b)) == b
  {
    var fs := SectionLayout(false, DecodeSection(false, b));
    assert Width(fs, 1) == 4;
    assert Width(fs, 2) == 8;
    assert Width(fs, 3) == 12;
    assert Width(fs, 4) == 16;
    assert Width(fs, 5) == 20;
    assert Width(fs, 6) == 24;
    assert Width(fs, 7) == 28;
    assert Width(fs, 8) == 32;
    assert Width(fs, 9) == 36;
    PackInverse(fs, b);
  }

  lemma ProgramHeaderWriteBack64(b: seq<byte>)
    requires |b| == 56
    ensures EncodeProgramHeader(true, DecodeProgramHeader(true, b)) == b
  {
    var fs := ProgramHeaderLayout(true, DecodeProgramHeader(true, b));
    assert Width(fs, 1) == 4;
    assert Width(fs, 2) == 8;
    assert Width(fs, 3) == 16;
    assert Width(fs, 4) == 24;
    assert Width(fs, 5) == 32;
    assert Width(fs, 6) == 40;
    assert Width(fs, 7) == 48;
    PackInverse(fs, b);
  }

  lemma ProgramHeaderWriteBack32(b: seq<byte>)
    requires |b| == 32
    ensures EncodeProgramHeader(false, DecodeProgramHeader(false, b)) == b
  {
    var fs := ProgramHeaderLayout(false, DecodeProgramHeader(false, b));
    assert Width(fs, 1) == 4;
    assert Width(fs, 2) == 8;
    assert Width(fs, 3) == 12;
    assert Width(fs, 4) == 16;
    assert Width(fs, 5) == 20;
    assert Width(fs, 6) == 24;
    assert Width(fs, 7) == 28;
    PackInverse(fs, b);
  }

  // ----- symbols -----

  /** A symbol record; st_other is written but never read. */
  function SymbolLayout(is64: bool, r: RawSymbol, other: nat): seq<FieldValue> {
    if is64 then
      [FieldValue(r.nameIndex, 4), FieldValue(r.info, 1), FieldValue(other, 1), FieldValue(r.shndx, 2),
       FieldValue(r.value, 8), FieldValue(r.size, 8)]
    else
      [FieldValue(r.nameIndex, 4), FieldValue(r.value, 4), FieldValue(r.size, 4), FieldValue(r.info, 1),
       FieldValue(other, 1), FieldValue(r.shndx, 2)]
  }

  function EncodeSymbol(is64: bool, r: RawSymbol, other: nat): seq<byte> { Pack(SymbolLayout(is64, r, other)) }

  /** A symbol of either class survives a write and a read, whatever st_other is. */
  lemma SymbolRoundTrip(is64: bool, r: RawSymbol, other: nat)
    requires Fits(SymbolLayout(is64, r, other))
    ensures |EncodeSymbol(is64, r, other)| == SymbolSize(is64)
    ensures DecodeSymbol(is64, EncodeSymbol(is64, r, other)) == r
  {
    hide Le, LeBytes, Pow256;
    var fs := SymbolLayout(is64, r, other);
    PackedField(fs, 0, 0);
    PackedField(fs, 1, 4);
    if is64 {
      PackedField(fs, 2, 5);
      PackedField(fs, 3, 6);
      PackedField(fs, 4, 8);
      PackedField(fs, 5, 16);
    } else {
      PackedField(fs, 2, 8);
      PackedField(fs, 3, 12);
      PackedField(fs, 4, 13);
      PackedField(fs, 5, 14);
    }
  }

  // ----- the file header -----

  lemma HeaderSizes(is64: bool, h: Header, rest: HeaderRest)
    requires |rest.ident| == 10
    ensures |EncodeHeader(is64, h, rest)| == HeaderSize(is64)
  {
    var fs, w := HeaderLayout(is64, h, rest), if is64 then 8 else 4;
    assert Width(fs, 1) == 2;
    assert Width(fs, 2) == 4;
    assert Width(fs, 3) == 8;
    assert Width(fs, 4) == 8 + w;
    assert Width(fs, 5) == 8 + 2 * w;
    assert Width(fs, 6) == 8 + 3 * w;
    assert Width(fs, 7) == 12 + 3 * w;
    assert Width(fs, 8) == 14 + 3 * w;
    assert Width(fs, 9) == 16 + 3 * w;
    assert Width(fs, 10) == 18 + 3 * w;
    assert Width(fs, 11) == 20 + 3 * w;
    assert Width(fs, 12) == 22 + 3 * w;
    assert Width(fs, 13) == 24 + 3 * w;
  }

  /** The header fields, read from the part after the identification bytes. */
  ghost predicate Tail64(h: Header, t: seq<byte>) {
    && |t| == 48
    && Field(t, 0, 2) == h.typ
    && Field(t, 2, 2) == h.machine
    && Field(t, 8, 8) == h.entry
    && Field(t, 16, 8) == h.phoff
    && Field(t, 24, 8) == h.shoff
    && Field(t, 38, 2) == h.phentsize
    && Field(t, 40, 2) == h.phnum
    && Field(t, 42, 2) == h.shentsize
    && Field(t, 44, 2) == h.shnum
    && Field(t, 46, 2) == h.shstrndx
  }

  lemma HeaderPacked64(h: Header, rest: HeaderRest)
    requires Fits(HeaderLayout(true, h, rest))
    ensures Tail64(h, Pack(HeaderLayout(true, h, rest)))
  {
    hide Le, LeBytes, Pow256;
    var fs := HeaderLayout(true, h, rest);
    PackedField(fs, 0, 0);
    PackedField(fs, 1, 2);
    PackedField(fs, 2, 4);
    PackedField(fs, 3, 8);
    PackedField(fs, 4, 16);
    PackedField(fs, 5, 24);
    PackedField(fs, 6, 32);
    PackedField(fs, 7, 36);
    PackedField(fs, 8, 38);
    PackedField(fs, 9, 40);
    PackedField(fs, 10, 42);
    PackedField(fs, 11, 44);
    PackedField(fs, 12, 46);
  }

  lemma HeaderFromTail64(h: Header, b: seq<byte>)
    requires |b| == 64 && Tail64(h, b[16..64])
    ensures DecodeHeader(true, b) == h
  {
    hide Le;
    FieldOfRecord(b, 16, 48, 0, 2);
    FieldOfRecord(b, 16, 48, 2, 2);
    FieldOfRecord(b, 16, 48, 8, 8);
    FieldOfRecord(b, 16, 48, 16, 8);
    FieldOfRecord(b, 16, 48, 24, 8);
    FieldOfRecord(b, 16, 48, 38, 2);
    FieldOfRecord(b, 16, 48, 40, 2);
    FieldOfRecord(b, 16, 48, 42, 2);
    FieldOfRecord(b, 16, 48, 44, 2);
    FieldOfRecord(b, 16, 48, 46, 2);
  }

  /** The header fields, read from the part after the identification bytes. */
  ghost predicate Tail32(h: Header, t: seq<byte>) {
    && |t| == 36
    && Field(t, 0, 2) == h.typ
    && Field(t, 2, 2) == h.machine
    && Field(t, 8, 4) == h.entry
    && Field(t, 12, 4) == h.phoff
    && Field(t, 16, 4) == h.shoff
    && Field(t, 26, 2) == h.phentsize
    && Field(t, 28, 2) == h.phnum
    && Field(t, 30, 2) == h.shentsize
    && Field(t, 32, 2) == h.shnum
    && Field(t, 34, 2) == h.shstrndx
  }

  lemma HeaderPacked32(h: Header, rest: HeaderRest)
    requires Fits(HeaderLayout(false, h, rest))
    ensures Tail32(h, Pack(HeaderLayout(false, h, rest)))
  {
    hide Le, LeBytes, Pow256;
    var fs := HeaderLayout(false, h, rest);
    PackedField(fs, 0, 0);
    PackedField(fs, 1, 2);
    PackedField(fs, 2, 4);
    PackedField(fs, 3, 8);
    PackedField(fs, 4, 12);
    PackedField(fs, 5, 16);
    PackedField(fs, 6, 20);
    PackedField(fs, 7, 24);
    PackedField(fs, 8, 26);
    PackedField(fs, 9, 28);
    PackedField(fs, 10, 30);
    PackedField(fs, 11, 32);
    PackedField(fs, 12, 34);
  }

  lemma HeaderFromTail32(h: Header, b: seq<byte>)
    requires |b| == 52 && Tail32(h, b[16..52])
    ensures DecodeHeader(false, b) == h
  {
    hide Le;
    FieldOfRecord(b, 16, 36, 0, 2);
    FieldOfRecord(b, 16, 36, 2, 2);
    FieldOfRecord(b, 16, 36, 8, 4);
    FieldOfRecord(b, 16, 36, 12, 4);
    FieldOfRecord(b, 16, 36, 16, 4);
    FieldOfRecord(b, 16, 36, 26, 2);
    FieldOfRecord(b, 16, 36, 28, 2);
    FieldOfRecord(b, 16, 36, 30, 2);
    FieldOfRecord(b, 16, 36, 32, 2);
    FieldOfRecord(b, 16, 36, 34, 2);
  }

  /** A file header of either class survives a write and a read, whatever its
      unread fields hold. */
  lemma HeaderRoundTrip(is64: bool, h: Header, rest: HeaderRest)
    requires HeaderFits(is64, h, rest)
    ensures |EncodeHeader(is64, h, rest)| == HeaderSize(is64)
    ensures DecodeHeader(is64, EncodeHeader(is64, h, rest)) == h
  {
    HeaderSizes(is64, h, rest);
    var b := EncodeHeader(is64, h, rest);
    assert b[16..HeaderSize(is64)] == Pack(HeaderLayout(is64, h, rest));
    if is64 {
      HeaderPacked64(h, rest);
      HeaderFromTail64(h, b);
    } else {
      HeaderPacked32(h, rest);
      HeaderFromTail32(h, b);
    }
  }
}
