/** What a parse of a PE image means, in unbounded arithmetic: header chain,
    section table, exports through three parallel arrays, imports through two
    levels of zero-terminated tables. */
module PeFormat {
  import opened Base
  import opened Reader
  import opened RvaMap

  const NAME_LIMIT: nat := 4096

  datatype Headers = Headers(
    is64: bool, machine: nat, timestamp: nat, characteristics: nat, imageBase: nat,
    entryRva: nat, sizeOfImage: nat, sectionCount: nat, tableOffset: nat, dirOffset: nat, dirCount: nat)

  datatype Directories = Directories(rvas: seq<nat>, sizes: seq<nat>)

  datatype Export = Export(name: seq<byte>, rva: nat, ordinal: nat, forwarded: bool, forwarder: seq<byte>)

  datatype ImportFunction = ImportFunction(name: seq<byte>, ordinal: nat, byOrdinal: bool)

  datatype ImportModule = ImportModule(name: seq<byte>, functions: seq<ImportFunction>)

  datatype Image = Image(
    headers: Headers, architecture: Architecture, sections: seq<Section>,
    exports: seq<Export>, imports: seq<ImportModule>)

  function ArchitectureOf(machine: nat): Architecture {
    if machine == 0x014C then X86
    else if machine == 0x8664 then X86_64
    else if machine == 0x01C0 then Arm
    else if machine == 0xAA64 then Arm64
    else Other
  }

  // ----- header chain -----

  /** Size of the optional header up to and including the directory count. */
  function OptionalSize(is64: bool): nat { if is64 then 112 else 96 }

  function HeadersAt(d: seq<byte>, coff: nat, is64: bool): Headers
    requires coff + 20 + OptionalSize(is64) <= |d|
  {
    var opt := coff + 20;
    Headers(is64, Field(d, coff, 2), Field(d, coff + 4, 4), Field(d, coff + 18, 2),
            if is64 then Field(d, opt + 24, 8) else Field(d, opt + 28, 4),
            Field(d, opt + 16, 4), Field(d, opt + 56, 4), Field(d, coff + 2, 2),
            opt + Field(d, coff + 16, 2), opt + OptionalSize(is64),
            if is64 then Field(d, opt + 108, 4) else Field(d, opt + 92, 4))
  }

  /** The chain from the DOS header to the section table. An e_lfanew so large
      that the 32-bit sum of the source wraps is out of range. */
  function HeadersOf(d: seq<byte>): Result<Headers, ErrorCode> {
    if |d| < 64 || Field(d, 0, 2) != 0x5A4D then Err(InvalidBinary)
    else
      var e := Field(d, 0x3C, 4);
      if e == 0 then Err(InvalidBinary)
      else if e + 24 > |d| then Err(if e + 4 < TWO_32 then InvalidBinary else OutOfRange)
      else if d[e..e + 4] != [0x50, 0x45, 0, 0] then Err(InvalidBinary)
      else OptionalHeaderOf(d, e + 4)
  }

  function OptionalHeaderOf(d: seq<byte>, coff: nat): Result<Headers, ErrorCode>
    requires coff + 20 <= |d|
  {
    var opt := coff + 20;
    if Field(d, coff + 16, 2) < 2 then Err(InvalidBinary)
    else if opt + 2 > |d| then Err(OutOfRange)
    else
      var magic := Field(d, opt, 2);
      if magic != 0x10B && magic != 0x20B then Err(InvalidBinary)
      else
        var is64 := magic == 0x20B;
        if opt + OptionalSize(is64) > |d| then Err(InvalidBinary)
        else
          var h := HeadersAt(d, coff, is64);
          if h.tableOffset + 40 * h.sectionCount > |d| then Err(InvalidBinary) else Ok(h)
  }

  // ----- sections and directories -----

  function DecodeSection(b: seq<byte>): Section
    requires |b| == 40
  {
    Section(SanitizeName(b[..FirstNul(b, 0, 8)]), Field(b, 8, 4), Field(b, 12, 4), Field(b, 16, 4),
            Field(b, 20, 4), Field(b, 36, 4))
  }

  function SectionTable(d: seq<byte>, off: nat, n: nat): (s: seq<Section>)
    requires off + 40 * n <= |d|
    ensures |s| == n
  {
    seq(n, i requires 0 <= i < n => DecodeSection(d[off + 40 * i..off + 40 * i + 40]))
  }

  /** The declared number of directories, cut to what the buffer holds. */
  function DirectoryCount(d: seq<byte>, off: nat, declared: nat): nat
    requires off <= |d|
  {
    if declared < (|d| - off) / 8 then declared else (|d| - off) / 8
  }

  function DirectoryTable(d: seq<byte>, off: nat, declared: nat): (r: Directories)
    requires off <= |d|
    ensures |r.rvas| == |r.sizes| == DirectoryCount(d, off, declared)
  {
    var n := DirectoryCount(d, off, declared);
    Directories(seq(n, i requires 0 <= i < n => Field(d, off + 8 * i, 4)),
                seq(n, i requires 0 <= i < n => Field(d, off + 8 * i + 4, 4)))
  }

  /** A string at an address of the image. */
  function NameAt(d: seq<byte>, sections: seq<Section>, rva: nat): Result<seq<byte>, ErrorCode> {
    match RvaToOffset(sections, rva)
    case None => Err(InvalidBinary)
    case Some(off) =>
      var s :- CString(d, off, NAME_LIMIT);
      Ok(SanitizeName(s))
  }

  // ----- exports -----

  datatype ExportTable = ExportTable(
    base: nat, numFunctions: nat, numNames: nat, functions: nat, names: nat, ordinals: nat)

  predicate ArraysFit(d: seq<byte>, t: ExportTable) {
    && t.functions + 4 * t.numFunctions <= |d|
    && t.names + 4 * t.numNames <= |d|
    && t.ordinals + 2 * t.numNames <= |d|
  }

  function ExportTableAt(d: seq<byte>, sections: seq<Section>, rva: nat): (r: Result<ExportTable, ErrorCode>)
    ensures r.Ok? ==> ArraysFit(d, r.value)
  {
    match RvaToOffset(sections, rva)
    case None => Err(InvalidBinary)
    case Some(off) =>
      if off + 40 > |d| then Err(InvalidBinary)
      else
        match (RvaToOffset(sections, Field(d, off + 28, 4)), RvaToOffset(sections, Field(d, off + 32, 4)),
               RvaToOffset(sections, Field(d, off + 36, 4)))
        case (Some(functions), Some(names), Some(ordinals)) =>
          var t := ExportTable(Field(d, off + 16, 4), Field(d, off + 20, 4), Field(d, off + 24, 4),
                               functions, names, ordinals);
          if ArraysFit(d, t) then Ok(t) else Err(InvalidBinary)
        case _ => Err(InvalidBinary)
  }

  /** The forwarder text; empty when it is not mapped or not terminated. */
  function ForwarderAt(d: seq<byte>, sections: seq<Section>, rva: nat): seq<byte> {
    match NameAt(d, sections, rva)
    case Ok(s) => s
    case Err(_) => []
  }

  /** A function inside the export directory is a forwarder. A directory whose
      end exceeds 32 bits forwards nothing. */
  predicate Forwarded(dirRva: nat, dirSize: nat, rva: nat) {
    dirRva + dirSize < TWO_32 && dirRva <= rva < dirRva + dirSize
  }

  function ExportAt(d: seq<byte>, sections: seq<Section>, dirRva: nat, dirSize: nat, t: ExportTable, i: nat)
    : Result<Export, ErrorCode>
    requires ArraysFit(d, t) && i < t.numNames
  {
    var index := Field(d, t.ordinals + 2 * i, 2);
    if index >= t.numFunctions then Err(InvalidBinary)
    else
      var rva := Field(d, t.functions + 4 * index, 4);
      var name :- NameAt(d, sections, Field(d, t.names + 4 * i, 4));
      var forwarded := Forwarded(dirRva, dirSize, rva);
      Ok(Export(name, rva, (t.base + index) % TWO_16, forwarded,
                if forwarded then ForwarderAt(d, sections, rva) else []))
  }

  function ExportsFrom(d: seq<byte>, sections: seq<Section>, dirRva: nat, dirSize: nat, t: ExportTable, i: nat)
    : Result<seq<Export>, ErrorCode>
    requires ArraysFit(d, t) && i <= t.numNames
    decreases t.numNames - i
  {
    if i == t.numNames then Ok([])
    else
      var e :- ExportAt(d, sections, dirRva, dirSize, t, i);
      Prepend([e], ExportsFrom(d, sections, dirRva, dirSize, t, i + 1))
  }

  function Exports(d: seq<byte>, sections: seq<Section>, dirs: Directories): Result<seq<Export>, ErrorCode>
    requires |dirs.rvas| == |dirs.sizes|
  {
    if |dirs.rvas| == 0 || dirs.rvas[0] == 0 then Ok([])
    else
      var t :- ExportTableAt(d, sections, dirs.rvas[0]);
      ExportsFrom(d, sections, dirs.rvas[0], dirs.sizes[0], t, 0)
  }

  // ----- imports -----

  function Decimal(n: nat): seq<byte> {
    (if n < 10 then [] else Decimal(n / 10)) + [0x30 + n % 10]
  }

  /** "ordinal_<n>" */
  function OrdinalName(n: nat): seq<byte> {
    [0x6F, 0x72, 0x64, 0x69, 0x6E, 0x61, 0x6C, 0x5F] + Decimal(n)
  }

  function ThunkSize(is64: bool): nat { if is64 then 8 else 4 }

  function OrdinalFlag(is64: bool): nat { if is64 then TWO_63 else TWO_31 }

  /** A non-zero thunk: by ordinal when its top bit is set, else the address of
      a hint and a name. */
  function DecodeThunk(d: seq<byte>, sections: seq<Section>, is64: bool, v: nat): Result<ImportFunction, ErrorCode> {
    if v >= OrdinalFlag(is64) then Ok(ImportFunction(OrdinalName(v % TWO_16), v % TWO_16, true))
    else
      match RvaToOffset(sections, v % TWO_32)
      case None => Err(InvalidBinary)
      case Some(off) =>
        if off + 3 > |d| then Err(InvalidBinary)
        else
          var name :- CString(d, off + 2, NAME_LIMIT);
          Ok(ImportFunction(SanitizeName(name), Field(d, off, 2), false))
  }

  /** The functions of the thunk array at off, up to the first zero thunk. */
  function FunctionsFrom(d: seq<byte>, sections: seq<Section>, is64: bool, off: nat)
    : Result<seq<ImportFunction>, ErrorCode>
    decreases |d| - off
  {
    if off + ThunkSize(is64) > |d| then Err(OutOfRange)
    else
      var v := Field(d, off, ThunkSize(is64));
      if v == 0 then Ok([])
      else
        var f :- DecodeThunk(d, sections, is64, v);
        Prepend([f], FunctionsFrom(d, sections, is64, off + ThunkSize(is64)))
  }

  /** The three tested fields of an import descriptor. */
  datatype Descriptor = Descriptor(originalThunk: nat, nameRva: nat, firstThunk: nat)

  function DescriptorAt(d: seq<byte>, off: nat): Descriptor
    requires off + 20 <= |d|
  {
    Descriptor(Field(d, off, 4), Field(d, off + 12, 4), Field(d, off + 16, 4))
  }

  function ModuleOf(d: seq<byte>, sections: seq<Section>, is64: bool, desc: Descriptor)
    : Result<ImportModule, ErrorCode> {
    var name :- NameAt(d, sections, desc.nameRva);
    match RvaToOffset(sections, if desc.originalThunk != 0 then desc.originalThunk else desc.firstThunk)
    case None => Err(InvalidBinary)
    case Some(off) =>
      var functions :- FunctionsFrom(d, sections, is64, off);
      Ok(ImportModule(name, functions))
  }

  /** The modules of the descriptor table at off, up to the first all-zero descriptor. */
  function ModulesFrom(d: seq<byte>, sections: seq<Section>, is64: bool, off: nat): Result<seq<ImportModule>, ErrorCode>
    decreases |d| - off
  {
    if off + 20 > |d| then Err(InvalidBinary)
    else
      var desc := DescriptorAt(d, off);
      if desc == Descriptor(0, 0, 0) then Ok([])
      else
        var m :- ModuleOf(d, sections, is64, desc);
        Prepend([m], ModulesFrom(d, sections, is64, off + 20))
  }

  function Imports(d: seq<byte>, sections: seq<Section>, is64: bool, dirs: Directories)
    : Result<seq<ImportModule>, ErrorCode> {
    if |dirs.rvas| <= 1 || dirs.rvas[1] == 0 then Ok([])
    else
      match RvaToOffset(sections, dirs.rvas[1])
      case None => Err(InvalidBinary)
      case Some(off) => ModulesFrom(d, sections, is64, off)
  }

  // ----- the image -----

  lemma HeadersInside(d: seq<byte>)
    requires HeadersOf(d).Ok?
    ensures HeadersOf(d).value.dirOffset <= |d|
    ensures HeadersOf(d).value.tableOffset + 40 * HeadersOf(d).value.sectionCount <= |d|
  {
  }

  function ParseImage(d: seq<byte>): Result<Image, ErrorCode> {
    var h :- HeadersOf(d);
    HeadersInside(d);
    var sections := SectionTable(d, h.tableOffset, h.sectionCount);
    var dirs := DirectoryTable(d, h.dirOffset, h.dirCount);
    var exports :- Exports(d, sections, dirs);
    var imports :- Imports(d, sections, h.is64, dirs);
    Ok(Image(h, ArchitectureOf(h.machine), sections, exports, imports))
  }
}
