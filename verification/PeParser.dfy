/** The PE parser of the source, with its mix of 32-bit and 64-bit offset
    arithmetic, proved to compute the unbounded meaning given in PeFormat on
    every buffer below 4 GiB. */
module PeParser {
  import opened Base
  import opened Reader
  import opened RvaMap
  import opened PeFormat

  lemma FieldBound(d: seq<byte>, at: nat, n: nat)
    requires at + n <= |d|
    ensures n == 2 ==> Field(d, at, n) < TWO_16
    ensures n == 4 ==> Field(d, at, n) < TWO_32
    ensures n == 8 ==> Field(d, at, n) < TWO_64
  {
    LeBound(d[at..at + n]);
  }

  // ----- header chain -----

  method ReadHeaders(d: seq<byte>) returns (r: Result<Headers, ErrorCode>)
    requires |d| < TWO_32
    ensures r == HeadersOf(d)
  {
    if |d| < 64 {
      return Err(InvalidBinary);
    }
    var magic := U16(d, 0);
    if magic.Err? || magic.value != 0x5A4D {
      return Err(InvalidBinary);
    }
    var lfanew := U32(d, 0x3C);
    // The source passes a failed read on here; the size check leaves none.
    assert lfanew.Ok?;
    FieldBound(d, 0x3C, 4);
    var e := lfanew.value;
    if e == 0 || Add64(Add32(e, 4), 20) > |d| {
      return Err(InvalidBinary);
    }
    var signature := Bytes(d, e, 4);
    if signature.Err? {
      return Err(signature.error);
    }
    if signature.value != [0x50, 0x45, 0, 0] {
      return Err(InvalidBinary);
    }
    r := ReadOptionalHeader(d, Add32(e, 4));
  }

  method ReadOptionalHeader(d: seq<byte>, coffOffset: nat) returns (r: Result<Headers, ErrorCode>)
    requires |d| < TWO_32 && coffOffset + 20 <= |d|
    ensures r == OptionalHeaderOf(d, coffOffset)
  {
    hide Le;
    var machine, sectionCount := U16(d, Add64(coffOffset, 0)), U16(d, Add64(coffOffset, 2));
    var timestamp := U32(d, Add64(coffOffset, 4));
    var sizeOfOptional, characteristics := U16(d, Add64(coffOffset, 16)), U16(d, Add64(coffOffset, 18));
    // The source checks these reads; the e_lfanew check leaves none that fail.
    assert machine.Ok? && sectionCount.Ok? && timestamp.Ok? && sizeOfOptional.Ok? && characteristics.Ok?;
    var optionalOffset := Add64(coffOffset, 20);
    if sizeOfOptional.value < 2 {
      return Err(InvalidBinary);
    }
    var optMagic := U16(d, optionalOffset);
    if optMagic.Err? {
      return Err(optMagic.error);
    }
    var is64, imageBase, entryRva, sizeOfImage, dirOffset, dirCount := false, 0, 0, 0, 0, 0;
    if optMagic.value == 0x10B {
      var entry, base := U32(d, Add64(optionalOffset, 16)), U32(d, Add64(optionalOffset, 28));
      var imageSize, count := U32(d, Add64(optionalOffset, 56)), U32(d, Add64(optionalOffset, 92));
      if entry.Err? || base.Err? || imageSize.Err? || count.Err? {
        return Err(InvalidBinary);
      }
      entryRva, imageBase, sizeOfImage, dirCount := entry.value, base.value, imageSize.value, count.value;
      dirOffset := Add64(optionalOffset, 96);
    } else if optMagic.value == 0x20B {
      is64 := true;
      var entry, base := U32(d, Add64(optionalOffset, 16)), U64(d, Add64(optionalOffset, 24));
      var imageSize, count := U32(d, Add64(optionalOffset, 56)), U32(d, Add64(optionalOffset, 108));
      if entry.Err? || base.Err? || imageSize.Err? || count.Err? {
        return Err(InvalidBinary);
      }
      entryRva, imageBase, sizeOfImage, dirCount := entry.value, base.value, imageSize.value, count.value;
      dirOffset := Add64(optionalOffset, 112);
    } else {
      return Err(InvalidBinary);
    }
    FieldBound(d, coffOffset + 16, 2);
    FieldBound(d, coffOffset + 2, 2);
    var tableOffset := Add64(optionalOffset, sizeOfOptional.value);
    var tableBytes := Mul64(sectionCount.value, 40);
    if tableOffset > |d| || tableBytes > |d| - tableOffset {
      return Err(InvalidBinary);
    }
    return Ok(Headers(is64, machine.value, timestamp.value, characteristics.value, imageBase, entryRva, sizeOfImage,
                      sectionCount.value, tableOffset, dirOffset, dirCount));
  }

  // ----- sections and directories -----

  lemma SectionFields(d: seq<byte>, off: nat)
    requires off + 40 <= |d|
    ensures DecodeSection(d[off..off + 40]) ==
            Section(SanitizeName(d[off..off + 8][..FirstNul(d[off..off + 8], 0, 8)]),
                    Field(d, off + 8, 4), Field(d, off + 12, 4), Field(d, off + 16, 4), Field(d, off + 20, 4),
                    Field(d, off + 36, 4))
  {
    hide Le, SanitizeName;
    var b := d[off..off + 40];
    SliceOfSlice(d, off, 40, 0, 8);
    FirstNulOfPrefix(b, 8);
    FieldOfRecord(d, off, 40, 8, 4);
    FieldOfRecord(d, off, 40, 12, 4);
    FieldOfRecord(d, off, 40, 16, 4);
    FieldOfRecord(d, off, 40, 20, 4);
    FieldOfRecord(d, off, 40, 36, 4);
  }

  lemma FirstNulOfPrefix(b: seq<byte>, n: nat)
    requires n <= |b|
    ensures FirstNul(b[0..n], 0, n) == FirstNul(b, 0, n)
  {
    var k := FirstNul(b, 0, n);
    if k < n {
      assert b[0..n][0..k] == b[0..k];
      FirstNulAt(b[0..n], 0, n, k);
    } else {
      assert forall j :: 0 <= j < n ==> b[0..n][j] == b[j];
    }
  }

  method ReadSections(d: seq<byte>, tableOffset: nat, sectionCount: nat) returns (sections: seq<Section>)
    requires |d| < TWO_32 && tableOffset + 40 * sectionCount <= |d|
    ensures sections == SectionTable(d, tableOffset, sectionCount)
  {
    hide Le, FirstNul, SanitizeName;
    sections := [];
    ghost var table := SectionTable(d, tableOffset, sectionCount);
    for i := 0 to sectionCount
      invariant sections == table[..i]
    {
      var off := Add64(tableOffset, Mul64(i, 40));
      assert off == tableOffset + 40 * i;
      var rawName := Bytes(d, off, 8);
      var virtualSize, virtualAddress := U32(d, Add64(off, 8)), U32(d, Add64(off, 12));
      var rawSize, rawOffset := U32(d, Add64(off, 16)), U32(d, Add64(off, 20));
      var characteristics := U32(d, Add64(off, 36));
      // The source checks these reads; the table check leaves none that fail.
      assert rawName.Ok? && virtualSize.Ok? && virtualAddress.Ok? && rawSize.Ok? && rawOffset.Ok? &&
             characteristics.Ok?;
      var nul := FirstNul(rawName.value, 0, 8);
      var name := Sanitize(rawName.value[..nul]);
      SectionFields(d, off);
      sections := sections + [Section(name, virtualSize.value, virtualAddress.value, rawSize.value,
                                      rawOffset.value, characteristics.value)];
    }
    assert table[..sectionCount] == table;
  }

  method ReadDirectory(d: seq<byte>, dirOffset: nat, i: nat) returns (rva: nat, size: nat)
    requires |d| < TWO_32 && dirOffset + 8 * i + 8 <= |d|
    ensures rva == Field(d, dirOffset + 8 * i, 4) && size == Field(d, dirOffset + 8 * i + 4, 4)
  {
    hide Le, Mul32;
    Mul32Bound(i, 8);
    var first := U32(d, Add64(dirOffset, Mul32(i, 8)));
    var second := U32(d, Add64(Add64(dirOffset, Mul32(i, 8)), 4));
    // The source passes failed reads on here; the clamp leaves none.
    assert first.Ok? && second.Ok?;
    return first.value, second.value;
  }

  /** The directories are read into two preallocated arrays; no read fails. */
  method ParseDirectories(d: seq<byte>, dirOffset: nat, declared: nat) returns (dirs: Directories)
    requires |d| < TWO_32 && dirOffset <= |d| && declared < TWO_32
    ensures dirs == DirectoryTable(d, dirOffset, declared)
  {
    hide Le, Mul32;
    var maxFit := ((|d| - dirOffset) / 8) % TWO_32;
    var count := if declared < maxFit then declared else maxFit;
    var rvas, sizes := new nat[count], new nat[count];
    ghost var table := DirectoryTable(d, dirOffset, declared);
    for i := 0 to count
      invariant forall k :: 0 <= k < i ==> rvas[k] == table.rvas[k] && sizes[k] == table.sizes[k]
    {
      var rva, size := ReadDirectory(d, dirOffset, i);
      rvas[i] := rva;
      sizes[i] := size;
    }
    assert rvas[..] == table.rvas && sizes[..] == table.sizes;
    return Directories(rvas[..], sizes[..]);
  }

  // ----- names -----

  method ReadName(d: seq<byte>, sections: seq<Section>, rva: nat) returns (r: Result<seq<byte>, ErrorCode>)
    ensures r == NameAt(d, sections, rva)
  {
    var offset := FindOffset(sections, rva);
    if offset.None? {
      return Err(InvalidBinary);
    }
    var name := ReadCString(d, offset.value, NAME_LIMIT);
    if name.Err? {
      return Err(name.error);
    }
    var clean := Sanitize(name.value);
    return Ok(clean);
  }

  // ----- exports -----

  method ReadExportTable(d: seq<byte>, sections: seq<Section>, exportRva: nat)
    returns (r: Result<ExportTable, ErrorCode>)
    requires |d| < TWO_32
    ensures r == ExportTableAt(d, sections, exportRva)
  {
    hide Le, RvaToOffset, Mul64;
    var exportOffset := FindOffset(sections, exportRva);
    if exportOffset.None? {
      return Err(InvalidBinary);
    }
    var at := exportOffset.value;
    if !InBounds(d, at, 40) {
      return Err(InvalidBinary);
    }
    var base, numFunctions, numNames := U32(d, Add32(at, 16)), U32(d, Add32(at, 20)), U32(d, Add32(at, 24));
    var functionsRva, namesRva, ordinalsRva := U32(d, Add32(at, 28)), U32(d, Add32(at, 32)), U32(d, Add32(at, 36));
    // The source checks these reads; the bounds check leaves none that fail.
    assert base.Ok? && numFunctions.Ok? && numNames.Ok? && functionsRva.Ok? && namesRva.Ok? && ordinalsRva.Ok?;
    var functions := FindOffset(sections, functionsRva.value);
    var names := FindOffset(sections, namesRva.value);
    var ordinals := FindOffset(sections, ordinalsRva.value);
    if functions.None? || names.None? || ordinals.None? {
      return Err(InvalidBinary);
    }
    FieldBound(d, at + 20, 4);
    FieldBound(d, at + 24, 4);
    Mul64Bound(numFunctions.value, 4);
    Mul64Bound(numNames.value, 4);
    Mul64Bound(numNames.value, 2);
    if !InBounds(d, functions.value, Mul64(numFunctions.value, 4)) ||
       !InBounds(d, names.value, Mul64(numNames.value, 4)) ||
       !InBounds(d, ordinals.value, Mul64(numNames.value, 2)) {
      return Err(InvalidBinary);
    }
    return Ok(ExportTable(base.value, numFunctions.value, numNames.value,
                          functions.value, names.value, ordinals.value));
  }

  /** One turn of the export loop: three reads at 32-bit offsets that the range
      checks in front of the loop keep from wrapping. */
  method ReadExport(d: seq<byte>, sections: seq<Section>, exportRva: nat, exportSize: nat, t: ExportTable, i: nat)
    returns (r: Result<Export, ErrorCode>)
    requires |d| < TWO_32 && ArraysFit(d, t) && i < t.numNames
    requires exportRva < TWO_32 && exportSize < TWO_32 && t.base < TWO_32
    ensures r == ExportAt(d, sections, exportRva, exportSize, t, i)
  {
    hide Le, NameAt;
    Mul32Bound(i, 4);
    Mul32Bound(i, 2);
    var nameRva := U32(d, Add32(t.names, Mul32(i, 4)));
    var ordinalIndex := U16(d, Add32(t.ordinals, Mul32(i, 2)));
    // The source checks these reads; the range checks leave none that fail.
    assert nameRva.Ok? && ordinalIndex.Ok?;
    if ordinalIndex.value >= t.numFunctions {
      return Err(InvalidBinary);
    }
    Mul32Bound(ordinalIndex.value, 4);
    var functionRva := U32(d, Add32(t.functions, Mul32(ordinalIndex.value, 4)));
    assert functionRva.Ok?;
    FieldBound(d, t.functions + 4 * ordinalIndex.value, 4);
    var name := ReadName(d, sections, nameRva.value);
    if name.Err? {
      return Err(name.error);
    }
    var ordinal := Add32(t.base, ordinalIndex.value) % TWO_16;
    TruncateSum(t.base, ordinalIndex.value);
    var forwarded, forwarder := ReadForwarder(d, sections, exportRva, exportSize, functionRva.value);
    return Ok(Export(name.value, functionRva.value, ordinal, forwarded, forwarder));
  }

  lemma TruncateSum(a: nat, b: nat)
    requires a < TWO_32 && b < TWO_32
    ensures Add32(a, b) % TWO_16 == (a + b) % TWO_16
  {
  }

  /** The forwarder test, whose 32-bit end may wrap, and the optional text. */
  method ReadForwarder(d: seq<byte>, sections: seq<Section>, exportRva: nat, exportSize: nat, rva: nat)
    returns (forwarded: bool, forwarder: seq<byte>)
    requires exportRva < TWO_32 && exportSize < TWO_32 && rva < TWO_32
    ensures forwarded == Forwarded(exportRva, exportSize, rva)
    ensures forwarder == if forwarded then ForwarderAt(d, sections, rva) else []
  {
    forwarded, forwarder := false, [];
    if rva >= exportRva && rva < Add32(exportRva, exportSize) {
      forwarded := true;
      var fwd := ReadName(d, sections, rva);
      if fwd.Ok? {
        forwarder := fwd.value;
      }
    }
  }

  method ReadExports(d: seq<byte>, sections: seq<Section>, dirs: Directories)
    returns (r: Result<seq<Export>, ErrorCode>)
    requires |d| < TWO_32 && |dirs.rvas| == |dirs.sizes|
    requires |dirs.rvas| > 0 ==> dirs.rvas[0] < TWO_32 && dirs.sizes[0] < TWO_32
    ensures r == Exports(d, sections, dirs)
  {
    if |dirs.rvas| > 0 && dirs.rvas[0] != 0 {
      var exportRva, exportSize := dirs.rvas[0], dirs.sizes[0];
      var table := ReadExportTable(d, sections, exportRva);
      if table.Err? {
        return Err(table.error);
      }
      ExportBaseBound(d, sections, exportRva);
      r := ReadExportList(d, sections, exportRva, exportSize, table.value);
    } else {
      r := Ok([]);
    }
  }

  lemma ExportBaseBound(d: seq<byte>, sections: seq<Section>, rva: nat)
    requires ExportTableAt(d, sections, rva).Ok?
    ensures ExportTableAt(d, sections, rva).value.base < TWO_32
  {
    FieldBound(d, RvaToOffset(sections, rva).value + 16, 4);
  }

  method ReadExportList(d: seq<byte>, sections: seq<Section>, exportRva: nat, exportSize: nat, t: ExportTable)
    returns (r: Result<seq<Export>, ErrorCode>)
    requires |d| < TWO_32 && ArraysFit(d, t)
    requires exportRva < TWO_32 && exportSize < TWO_32 && t.base < TWO_32
    ensures r == ExportsFrom(d, sections, exportRva, exportSize, t, 0)
  {
    var exports: seq<Export> := [];
    ghost var whole := ExportsFrom(d, sections, exportRva, exportSize, t, 0);
    PrependNothing(whole);
    var i := 0;
    while i < t.numNames
      invariant 0 <= i <= t.numNames
      invariant whole == Prepend(exports, ExportsFrom(d, sections, exportRva, exportSize, t, i))
    {
      var entry := ReadExport(d, sections, exportRva, exportSize, t, i);
      if entry.Err? {
        return Err(entry.error);
      }
      PrependSnoc(exports, entry.value, ExportsFrom(d, sections, exportRva, exportSize, t, i + 1));
      exports := exports + [entry.value];
      i := i + 1;
    }
    PrependToNothing(exports, ExportsFrom(d, sections, exportRva, exportSize, t, i));
    return Ok(exports);
  }

  // ----- imports -----

  /** Decoding a thunk on a buffer of any size: the source adds up the offset
      of the name in 32 bits. */
  function DecodeWrapped(d: seq<byte>, sections: seq<Section>, is64: bool, v: nat)
    : (r: Result<ImportFunction, ErrorCode>)
    ensures |d| < TWO_32 ==> r == DecodeThunk(d, sections, is64, v)
  {
    if v >= OrdinalFlag(is64) then Ok(ImportFunction(OrdinalName(v % TWO_16), v % TWO_16, true))
    else
      match RvaToOffset(sections, v % TWO_32)
      case None => Err(InvalidBinary)
      case Some(off) =>
        if off + 3 > |d| then Err(InvalidBinary)
        else
          var name :- CString(d, Add32(off, 2), NAME_LIMIT);
          Ok(ImportFunction(SanitizeName(name), Field(d, off, 2), false))
  }

  method ReadThunk(d: seq<byte>, sections: seq<Section>, is64: bool, v: nat)
    returns (r: Result<ImportFunction, ErrorCode>)
    requires v < 2 * OrdinalFlag(is64)
    ensures r == DecodeWrapped(d, sections, is64, v)
  {
    if (v / OrdinalFlag(is64)) % 2 != 0 {
      var ordinal := v % TWO_16;
      return Ok(ImportFunction(OrdinalName(ordinal), ordinal, true));
    }
    var byName := FindOffset(sections, v % TWO_32);
    if byName.None? || !InBounds(d, byName.value, 3) {
      return Err(InvalidBinary);
    }
    var hint := U16(d, byName.value);
    assert hint.Ok?;
    var name := ReadCString(d, Add32(byName.value, 2), NAME_LIMIT);
    if name.Err? {
      return Err(name.error);
    }
    var clean := Sanitize(name.value);
    return Ok(ImportFunction(clean, hint.value, false));
  }

  method ReadThunkWord(d: seq<byte>, is64: bool, off: nat) returns (v: Result<nat, ErrorCode>)
    ensures v == ReadLe(d, off, ThunkSize(is64))
    ensures v.Ok? ==> v.value < 2 * OrdinalFlag(is64)
  {
    if is64 {
      v := U64(d, off);
    } else {
      v := U32(d, off);
    }
    if v.Ok? {
      FieldBound(d, off, ThunkSize(is64));
    }
  }

  /** How one turn of the inner loop goes: it fails, it meets the terminator,
      or it decodes a function and the loop runs on. */
  datatype Turn = Failed(error: ErrorCode) | Finished | Decoded(entry: ImportFunction)

  /** The turn at a thunk index, on a buffer of any size, with the 32-bit
      offset sum of the source. */
  function TurnAt(d: seq<byte>, sections: seq<Section>, is64: bool, thunkOffset: nat, thunkIndex: nat): Turn
    requires thunkOffset < TWO_32
  {
    match ReadLe(d, Add32(thunkOffset, Mul32(thunkIndex, ThunkSize(is64))), ThunkSize(is64))
    case Err(e) => Failed(e)
    case Ok(v) =>
      if v == 0 then Finished
      else
        match DecodeWrapped(d, sections, is64, v)
        case Err(e) => Failed(e)
        case Ok(f) => Decoded(f)
  }

  method ReadTurn(d: seq<byte>, sections: seq<Section>, is64: bool, thunkOffset: nat, thunkIndex: nat)
    returns (t: Turn)
    requires thunkOffset < TWO_32
    ensures t == TurnAt(d, sections, is64, thunkOffset, thunkIndex)
  {
    hide Le, DecodeWrapped;
    var entryOffset := Add32(thunkOffset, Mul32(thunkIndex, ThunkSize(is64)));
    var v := ReadThunkWord(d, is64, entryOffset);
    if v.Err? {
      return Failed(v.error);
    }
    if v.value == 0 {
      return Finished;
    }
    var f := ReadThunk(d, sections, is64, v.value);
    if f.Err? {
      return Failed(f.error);
    }
    return Decoded(f.value);
  }

  /** The inner loop has no bound of its own. Below 4 GiB its 32-bit offset sum
      never wraps before a read fails, so it ends on every input. */
  method ReadThunks(d: seq<byte>, sections: seq<Section>, is64: bool, thunkOffset: nat)
    returns (r: Result<seq<ImportFunction>, ErrorCode>)
    requires |d| < TWO_32 && thunkOffset < TWO_32
    ensures r == FunctionsFrom(d, sections, is64, thunkOffset)
  {
    hide Le, DecodeThunk, DecodeWrapped;
    var functions: seq<ImportFunction> := [];
    ghost var whole := FunctionsFrom(d, sections, is64, thunkOffset);
    PrependNothing(whole);
    var thunkIndex := 0;
    ghost var at := thunkOffset;
    while true
      invariant 0 <= thunkIndex < TWO_32 && at == thunkOffset + thunkIndex * ThunkSize(is64)
      invariant at < TWO_32
      invariant whole == Prepend(functions, FunctionsFrom(d, sections, is64, at))
      decreases |d| - at
    {
      Mul32Bound(thunkIndex, ThunkSize(is64));
      assert Add32(thunkOffset, Mul32(thunkIndex, ThunkSize(is64))) == at;
      var turn := ReadTurn(d, sections, is64, thunkOffset, thunkIndex);
      match turn {
        case Failed(error) => return Err(error);
        case Finished =>
          PrependToNothing(functions, FunctionsFrom(d, sections, is64, at));
          break;
        case Decoded(f) =>
          PrependSnoc(functions, f, FunctionsFrom(d, sections, is64, at + ThunkSize(is64)));
          functions := functions + [f];
      }
      thunkIndex, at := Add32(thunkIndex, 1), at + ThunkSize(is64);
    }
    return Ok(functions);
  }

  method ReadModule(d: seq<byte>, sections: seq<Section>, is64: bool, desc: Descriptor)
    returns (r: Result<ImportModule, ErrorCode>)
    requires |d| < TWO_32
    ensures r == ModuleOf(d, sections, is64, desc)
  {
    var name := ReadName(d, sections, desc.nameRva);
    if name.Err? {
      return Err(name.error);
    }
    var thunkRva := if desc.originalThunk != 0 then desc.originalThunk else desc.firstThunk;
    var thunkOffset := FindOffset(sections, thunkRva);
    if thunkOffset.None? {
      return Err(InvalidBinary);
    }
    var functions := ReadThunks(d, sections, is64, thunkOffset.value);
    if functions.Err? {
      return Err(functions.error);
    }
    return Ok(ImportModule(name.value, functions.value));
  }

  method ReadImports(d: seq<byte>, sections: seq<Section>, is64: bool, dirs: Directories)
    returns (r: Result<seq<ImportModule>, ErrorCode>)
    requires |d| < TWO_32
    ensures r == Imports(d, sections, is64, dirs)
  {
    if |dirs.rvas| > 1 && dirs.rvas[1] != 0 {
      var importOffset := FindOffset(sections, dirs.rvas[1]);
      if importOffset.None? {
        return Err(InvalidBinary);
      }
      r := ReadModules(d, sections, is64, importOffset.value);
    } else {
      r := Ok([]);
    }
  }

  method ReadDescriptor(d: seq<byte>, descOffset: nat) returns (r: Result<Descriptor, ErrorCode>)
    requires |d| < TWO_32 && descOffset < TWO_64
    ensures r == if descOffset + 20 <= |d| then Ok(DescriptorAt(d, descOffset)) else Err(InvalidBinary)
  {
    if !InBounds(d, descOffset, 20) {
      return Err(InvalidBinary);
    }
    var originalThunk, nameRva := U32(d, descOffset), U32(d, Add64(descOffset, 12));
    var firstThunk := U32(d, Add64(descOffset, 16));
    // The source checks these reads; the bounds check leaves none that fail.
    assert originalThunk.Ok? && nameRva.Ok? && firstThunk.Ok?;
    return Ok(Descriptor(originalThunk.value, nameRva.value, firstThunk.value));
  }

  /** The outer loop, also without a bound of its own. */
  method ReadModules(d: seq<byte>, sections: seq<Section>, is64: bool, importOffset: nat)
    returns (r: Result<seq<ImportModule>, ErrorCode>)
    requires |d| < TWO_32 && importOffset < TWO_32
    ensures r == ModulesFrom(d, sections, is64, importOffset)
  {
    hide Le, ModuleOf;
    var modules: seq<ImportModule> := [];
    ghost var whole := ModulesFrom(d, sections, is64, importOffset);
    PrependNothing(whole);
    var index := 0;
    ghost var at := importOffset;
    while true
      invariant 0 <= index < TWO_32 && at == importOffset + 20 * index
      invariant at < TWO_32 + 20
      invariant whole == Prepend(modules, ModulesFrom(d, sections, is64, at))
      decreases |d| - at
    {
      Mul64Bound(index, 20);
      var descOffset := Add64(importOffset, Mul64(index, 20));
      assert descOffset == at;
      var desc := ReadDescriptor(d, descOffset);
      if desc.Err? {
        return Err(desc.error);
      }
      if desc.value.originalThunk == 0 && desc.value.nameRva == 0 && desc.value.firstThunk == 0 {
        PrependToNothing(modules, ModulesFrom(d, sections, is64, at));
        break;
      }
      var m := ReadModule(d, sections, is64, desc.value);
      if m.Err? {
        return Err(m.error);
      }
      PrependSnoc(modules, m.value, ModulesFrom(d, sections, is64, at + 20));
      modules := modules + [m.value];
      index, at := Add32(index, 1), at + 20;
    }
    return Ok(modules);
  }

  // ----- the whole parse -----

  lemma DirectoryBounds(d: seq<byte>, off: nat, declared: nat)
    requires off <= |d|
    ensures var t := DirectoryTable(d, off, declared); |t.rvas| > 0 ==> t.rvas[0] < TWO_32 && t.sizes[0] < TWO_32
  {
    if DirectoryCount(d, off, declared) > 0 {
      FieldBound(d, off, 4);
      FieldBound(d, off + 4, 4);
    }
  }

  lemma DirCountBound(d: seq<byte>)
    requires HeadersOf(d).Ok?
    ensures HeadersOf(d).value.dirCount < TWO_32
  {
    var opt := Field(d, 0x3C, 4) + 24;
    if Field(d, opt, 2) == 0x20B { FieldBound(d, opt + 108, 4); } else { FieldBound(d, opt + 92, 4); }
  }

  /** PeImage::parse. */
  method Parse(d: seq<byte>) returns (r: Result<Image, ErrorCode>)
    requires |d| < TWO_32
    ensures r == ParseImage(d)
  {
    var headers := ReadHeaders(d);
    if headers.Err? {
      return Err(headers.error);
    }
    var h := headers.value;
    HeadersInside(d);
    DirCountBound(d);
    var sections := ReadSections(d, h.tableOffset, h.sectionCount);
    var dirs := ParseDirectories(d, h.dirOffset, h.dirCount);
    DirectoryBounds(d, h.dirOffset, h.dirCount);
    var exports := ReadExports(d, sections, dirs);
    if exports.Err? {
      return Err(exports.error);
    }
    var imports := ReadImports(d, sections, h.is64, dirs);
    if imports.Err? {
      return Err(imports.error);
    }
    return Ok(Image(h, ArchitectureOf(h.machine), sections, exports.value, imports.value));
  }
}
