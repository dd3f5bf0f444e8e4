/** The ELF records as fixed-size byte strings, and what a parse of a whole
    image means: every table in unbounded arithmetic, every record read at once. */
module ElfFormat {
  import opened Base
  import opened Reader

  const SHT_SYMTAB: nat := 2
  const SHT_STRTAB: nat := 3
  const SHT_DYNSYM: nat := 11
  const SHN_XINDEX: nat := 0xFFFF
  const PN_XNUM: nat := 0xFFFF

  datatype Header = Header(
    typ: nat, machine: nat, entry: nat, phoff: nat, shoff: nat,
    phentsize: nat, phnum: nat, shentsize: nat, shnum: nat, shstrndx: nat)

  datatype Section = Section(
    name: seq<byte>, nameIndex: nat, typ: nat, flags: nat, address: nat, offset: nat,
    size: nat, link: nat, info: nat, alignment: nat, entrySize: nat)

  datatype ProgramHeader = ProgramHeader(
    typ: nat, flags: nat, offset: nat, virtualAddress: nat, physicalAddress: nat,
    fileSize: nat, memorySize: nat, alignment: nat)

  datatype Symbol = Symbol(name: seq<byte>, address: nat, size: nat)

  datatype Image = Image(
    is64: bool, architecture: Architecture, machine: nat, typ: nat, entryPoint: nat,
    sections: seq<Section>, programHeaders: seq<ProgramHeader>, symbols: seq<Symbol>)

  // ----- record sizes -----

  function HeaderSize(is64: bool): nat { if is64 then 64 else 52 }

  function SectionSize(is64: bool): nat { if is64 then 64 else 40 }

  function ProgramHeaderSize(is64: bool): nat { if is64 then 56 else 32 }

  function SymbolSize(is64: bool): nat { if is64 then 24 else 16 }

  // ----- record decoders -----

  function DecodeHeader(is64: bool, b: seq<byte>): Header
    requires |b| == HeaderSize(is64)
  {
    if is64 then
      Header(Field(b, 16, 2), Field(b, 18, 2), Field(b, 24, 8), Field(b, 32, 8), Field(b, 40, 8),
             Field(b, 54, 2), Field(b, 56, 2), Field(b, 58, 2), Field(b, 60, 2), Field(b, 62, 2))
    else
      Header(Field(b, 16, 2), Field(b, 18, 2), Field(b, 24, 4), Field(b, 28, 4), Field(b, 32, 4),
             Field(b, 42, 2), Field(b, 44, 2), Field(b, 46, 2), Field(b, 48, 2), Field(b, 50, 2))
  }

  function DecodeSection(is64: bool, b: seq<byte>): Section
    requires |b| == SectionSize(is64)
  {
    if is64 then
      Section([], Field(b, 0, 4), Field(b, 4, 4), Field(b, 8, 8), Field(b, 16, 8), Field(b, 24, 8),
              Field(b, 32, 8), Field(b, 40, 4), Field(b, 44, 4), Field(b, 48, 8), Field(b, 56, 8))
    else
      Section([], Field(b, 0, 4), Field(b, 4, 4), Field(b, 8, 4), Field(b, 12, 4), Field(b, 16, 4),
              Field(b, 20, 4), Field(b, 24, 4), Field(b, 28, 4), Field(b, 32, 4), Field(b, 36, 4))
  }

  function DecodeProgramHeader(is64: bool, b: seq<byte>): ProgramHeader
    requires |b| == ProgramHeaderSize(is64)
  {
    if is64 then
      ProgramHeader(Field(b, 0, 4), Field(b, 4, 4), Field(b, 8, 8), Field(b, 16, 8), Field(b, 24, 8),
                    Field(b, 32, 8), Field(b, 40, 8), Field(b, 48, 8))
    else
      ProgramHeader(Field(b, 0, 4), Field(b, 24, 4), Field(b, 4, 4), Field(b, 8, 4), Field(b, 12, 4),
                    Field(b, 16, 4), Field(b, 20, 4), Field(b, 28, 4))
  }

  /** A symbol table entry before any filtering. */
  datatype RawSymbol = RawSymbol(nameIndex: nat, info: nat, shndx: nat, value: nat, size: nat)

  function DecodeSymbol(is64: bool, b: seq<byte>): RawSymbol
    requires |b| == SymbolSize(is64)
  {
    if is64 then
      RawSymbol(Field(b, 0, 4), Field(b, 4, 1), Field(b, 6, 2), Field(b, 8, 8), Field(b, 16, 8))
    else
      RawSymbol(Field(b, 0, 4), Field(b, 12, 1), Field(b, 14, 2), Field(b, 4, 4), Field(b, 8, 4))
  }

  // ----- tables, in unbounded arithmetic -----

  /** A table of n entries of the given stride lies inside the buffer. */
  predicate TableFits(data: seq<byte>, off: nat, n: nat, stride: nat) {
    off + n * stride <= |data|
  }

  /** Record i of a table whose stride is at least the record size. */
  function Entry(data: seq<byte>, off: nat, n: nat, stride: nat, size: nat, i: nat): (b: seq<byte>)
    requires TableFits(data, off, n, stride) && i < n && size <= stride
    ensures |b| == size
  {
    EntriesBefore(i, n, stride);
    data[off + i * stride..off + i * stride + size]
  }

  function SectionTable(data: seq<byte>, is64: bool, off: nat, n: nat, stride: nat): (s: seq<Section>)
    requires TableFits(data, off, n, stride) && SectionSize(is64) <= stride
    ensures |s| == n
  {
    seq(n, i requires 0 <= i < n => DecodeSection(is64, Entry(data, off, n, stride, SectionSize(is64), i)))
  }

  function ProgramHeaderTable(data: seq<byte>, is64: bool, off: nat, n: nat, stride: nat): (s: seq<ProgramHeader>)
    requires TableFits(data, off, n, stride) && ProgramHeaderSize(is64) <= stride
    ensures |s| == n
  {
    seq(n, i requires 0 <= i < n =>
      DecodeProgramHeader(is64, Entry(data, off, n, stride, ProgramHeaderSize(is64), i)))
  }

  /** The record that starts at an offset inside the buffer reads as s. */
  predicate SectionReads(data: seq<byte>, is64: bool, at: nat, s: Section) {
    at + SectionSize(is64) <= |data| && s == DecodeSection(is64, data[at..at + SectionSize(is64)])
  }

  // ----- header -----

  function Ident(data: seq<byte>): Result<bool, ErrorCode> {
    if |data| < 16 then Err(InvalidBinary)
    else if data[..4] != [0x7F, 0x45, 0x4C, 0x46] then Err(InvalidBinary)
    else if data[4] != 1 && data[4] != 2 then Err(InvalidBinary)
    else if data[5] != 1 then Err(Unsupported)
    else Ok(data[4] == 2)
  }

  function ArchitectureOf(machine: nat, is64: bool): Architecture {
    if machine == 3 then X86
    else if machine == 62 then X86_64
    else if machine == 40 then Arm
    else if machine == 183 then Arm64
    else if machine == 243 then (if is64 then RiscV64 else RiscV32)
    else Other
  }

  /** Where section header 0 keeps the extended count and string-table index.
      In a 64-bit image the index read is eight bytes wide, so it spans the
      link and info fields. */
  function ExtendedCount(data: seq<byte>, is64: bool, h: Header): nat {
    if h.shnum == 0 && h.shoff != 0 then
      if is64 then U64(data, h.shoff + 32).GetOr(h.shnum) else U32(data, h.shoff + 20).GetOr(h.shnum)
    else h.shnum
  }

  function ExtendedNameIndex(data: seq<byte>, is64: bool, h: Header): nat {
    if (h.shnum == 0 && h.shoff != 0) || h.shstrndx == SHN_XINDEX then
      if is64 then U64(data, h.shoff + 40).GetOr(h.shstrndx) else U32(data, h.shoff + 24).GetOr(h.shstrndx)
    else h.shstrndx
  }

  // ----- names -----

  predicate IsStringTable(data: seq<byte>, s: Section) {
    s.typ == SHT_STRTAB && s.offset + s.size <= |data|
  }

  /** The string at an index of a string table, when its NUL lies inside the table. */
  function NameAt(data: seq<byte>, strtab: Section, index: nat): Option<seq<byte>> {
    if index >= strtab.size then None
    else
      match CString(data, strtab.offset + index, strtab.size - index)
      case Ok(s) => Some(s)
      case Err(_) => None
  }

  function SectionName(data: seq<byte>, sections: seq<Section>, shstrndx: nat, i: nat): seq<byte>
    requires i < |sections|
  {
    if shstrndx < |sections| && IsStringTable(data, sections[shstrndx]) then
      match NameAt(data, sections[shstrndx], sections[i].nameIndex)
      case Some(s) => SanitizeName(s)
      case None => []
    else []
  }

  function Named(data: seq<byte>, sections: seq<Section>, shstrndx: nat): (s: seq<Section>)
    ensures |s| == |sections|
  {
    seq(|sections|, i requires 0 <= i < |sections| =>
      sections[i].(name := SectionName(data, sections, shstrndx, i)))
  }

  // ----- symbols -----

  function FirstOfType(sections: seq<Section>, typ: nat): Option<Section> {
    if sections == [] then None
    else if sections[0].typ == typ then Some(sections[0])
    else FirstOfType(sections[1..], typ)
  }

  /** The dynamic symbol table, or failing that the static one. */
  function SymbolSection(sections: seq<Section>): Option<Section> {
    match FirstOfType(sections, SHT_DYNSYM)
    case Some(s) => Some(s)
    case None => FirstOfType(sections, SHT_SYMTAB)
  }

  /** The export view: defined, global or weak, named, OBJECT, FUNC or IFUNC. */
  function Exported(data: seq<byte>, strtab: Section, raw: RawSymbol): Option<Symbol> {
    var bind, kind := raw.info / 16, raw.info % 16;
    if raw.shndx == 0 || (bind != 1 && bind != 2) || (kind != 1 && kind != 2 && kind != 10) then None
    else
      match NameAt(data, strtab, raw.nameIndex)
      case None => None
      case Some(s) => if s == [] then None else Some(Symbol(SanitizeName(s), raw.value, raw.size))
  }

  /** The table is read with the fixed entry size of its class, whatever entry
      size the section declares. */
  function SymbolCount(is64: bool, symtab: Section): nat {
    if is64 then symtab.size / 24 else symtab.size / 16
  }

  function SymbolStart(is64: bool, symtab: Section, i: nat): nat {
    symtab.offset + (if is64 then 24 * i else 16 * i)
  }

  function RawSymbolAt(data: seq<byte>, is64: bool, symtab: Section, i: nat): RawSymbol
    requires symtab.offset + symtab.size <= |data| && i < SymbolCount(is64, symtab)
  {
    var at := SymbolStart(is64, symtab, i);
    DecodeSymbol(is64, data[at..at + SymbolSize(is64)])
  }

  /** The order-preserving filter of entries i.. of the symbol table. */
  function SymbolsFrom(data: seq<byte>, is64: bool, symtab: Section, strtab: Section, i: nat): seq<Symbol>
    requires symtab.offset + symtab.size <= |data| && i <= SymbolCount(is64, symtab)
    decreases SymbolCount(is64, symtab) - i
  {
    if i == SymbolCount(is64, symtab) then []
    else
      (match Exported(data, strtab, RawSymbolAt(data, is64, symtab, i))
       case Some(s) => [s]
       case None => []) + SymbolsFrom(data, is64, symtab, strtab, i + 1)
  }

  predicate SymbolTableUsable(data: seq<byte>, is64: bool, sections: seq<Section>, symtab: Section) {
    && symtab.link < |sections|
    && IsStringTable(data, sections[symtab.link])
    && symtab.offset + symtab.size <= |data|
    && symtab.entrySize >= SymbolSize(is64)
  }

  function Symbols(data: seq<byte>, is64: bool, sections: seq<Section>): seq<Symbol> {
    match SymbolSection(sections)
    case None => []
    case Some(symtab) =>
      if SymbolTableUsable(data, is64, sections, symtab) then
        SymbolsFrom(data, is64, symtab, sections[symtab.link], 0)
      else []
  }

  // ----- the image -----

  function ProgramHeaderCount(h: Header, sections: seq<Section>): nat {
    if h.phnum == PN_XNUM && sections != [] then sections[0].info else h.phnum
  }

  function ProgramHeaders(data: seq<byte>, is64: bool, h: Header, sections: seq<Section>)
    : Result<seq<ProgramHeader>, ErrorCode>
  {
    if h.phoff == 0 || h.phnum == 0 then Ok([])
    else
      var n := ProgramHeaderCount(h, sections);
      if h.phentsize < ProgramHeaderSize(is64) || !TableFits(data, h.phoff, n, h.phentsize) then Err(InvalidBinary)
      else Ok(ProgramHeaderTable(data, is64, h.phoff, n, h.phentsize))
  }

  function Sections(data: seq<byte>, is64: bool, h: Header): Result<seq<Section>, ErrorCode> {
    var n := ExtendedCount(data, is64, h);
    if h.shentsize < SectionSize(is64) || !TableFits(data, h.shoff, n, h.shentsize) then Err(InvalidBinary)
    else Ok(SectionTable(data, is64, h.shoff, n, h.shentsize))
  }

  function HeaderOf(data: seq<byte>, is64: bool): Result<Header, ErrorCode> {
    if |data| < HeaderSize(is64) then Err(InvalidBinary)
    else Ok(DecodeHeader(is64, data[..HeaderSize(is64)]))
  }

  /** The parse of a whole buffer. */
  function ParseImage(data: seq<byte>): Result<Image, ErrorCode> {
    var is64 :- Ident(data);
    var h :- HeaderOf(data, is64);
    var raw :- Sections(data, is64, h);
    var sections := Named(data, raw, ExtendedNameIndex(data, is64, h));
    var programHeaders :- ProgramHeaders(data, is64, h, sections);
    Ok(Image(is64, ArchitectureOf(h.machine, is64), h.machine, h.typ, h.entry,
             sections, programHeaders, Symbols(data, is64, sections)))
  }
}
