/** What the PE parse promises: the exact header conditions, exports and
    imports entry by entry, and stability under appended bytes. */
module PeTheorems {
  import opened Base
  import opened Reader
  import opened RvaMap
  import opened PeFormat

  // ----- the header chain -----

  /** The header chain succeeds exactly when each structure is where the one
      before it says, and inside the buffer. */
  lemma HeadersExact(d: seq<byte>)
    ensures HeadersOf(d).Ok? <==>
              (&& |d| >= 64 && Field(d, 0, 2) == 0x5A4D
               && var e := Field(d, 0x3C, 4);
               && e != 0 && e + 26 <= |d| && d[e..e + 4] == [0x50, 0x45, 0, 0]
               && Field(d, e + 20, 2) >= 2
               && (Field(d, e + 24, 2) == 0x10B || Field(d, e + 24, 2) == 0x20B)
               && e + 24 + OptionalSize(Field(d, e + 24, 2) == 0x20B) <= |d|
               && e + 24 + Field(d, e + 20, 2) + 40 * Field(d, e + 6, 2) <= |d|)
  {
  }

  /** An e_lfanew whose 32-bit sum wraps is never accepted: it fails the
      signature read, as out of range, on every buffer below 4 GiB. */
  lemma WrappingLfanewIsCaught(d: seq<byte>)
    requires 64 <= |d| < TWO_32 && Field(d, 0, 2) == 0x5A4D
    requires Field(d, 0x3C, 4) + 4 >= TWO_32
    ensures Add32(Field(d, 0x3C, 4) % TWO_32, 4) + 20 <= |d|
    ensures HeadersOf(d) == Err(OutOfRange)
  {
    LeBound(d[0x3C..0x3C + 4]);
  }

  // ----- exports -----

  /** One export entry, spelled out: name, address and ordinal come from the
      three arrays at the same index, the address through the ordinal index. */
  predicate ExportReads(d: seq<byte>, sections: seq<Section>, dirRva: nat, dirSize: nat, t: ExportTable, i: nat,
                        e: Export)
    requires ArraysFit(d, t) && i < t.numNames
  {
    var index := Field(d, t.ordinals + 2 * i, 2);
    && index < t.numFunctions
    && NameAt(d, sections, Field(d, t.names + 4 * i, 4)) == Ok(e.name)
    && e.rva == Field(d, t.functions + 4 * index, 4)
    && e.ordinal == (t.base + index) % TWO_16
    && (e.forwarded <==> dirRva + dirSize < TWO_32 && dirRva <= e.rva < dirRva + dirSize)
    && e.forwarder == if e.forwarded then ForwarderAt(d, sections, e.rva) else []
  }

  lemma ExportEntryExact(d: seq<byte>, sections: seq<Section>, dirRva: nat, dirSize: nat, t: ExportTable, i: nat,
                         e: Export)
    requires ArraysFit(d, t) && i < t.numNames
    ensures ExportAt(d, sections, dirRva, dirSize, t, i) == Ok(e) <==>
              ExportReads(d, sections, dirRva, dirSize, t, i, e)
  {
    hide Le, NameAt;
  }

  /** es holds one entry per name from name i on, each as the arrays have it. */
  predicate ExportsAre(d: seq<byte>, sections: seq<Section>, dirRva: nat, dirSize: nat, t: ExportTable, i: nat,
                       es: seq<Export>)
    requires ArraysFit(d, t)
  {
    i + |es| == t.numNames && forall k :: 0 <= k < |es| ==> ExportReads(d, sections, dirRva, dirSize, t, i + k, es[k])
  }

  lemma ExportsShift(d: seq<byte>, sections: seq<Section>, dirRva: nat, dirSize: nat, t: ExportTable, i: nat, e: Export,
                     es: seq<Export>)
    requires ArraysFit(d, t) && i < t.numNames && ExportReads(d, sections, dirRva, dirSize, t, i, e)
    ensures ExportsAre(d, sections, dirRva, dirSize, t, i, [e] + es) <==>
              ExportsAre(d, sections, dirRva, dirSize, t, i + 1, es)
  {
    hide ExportReads;
    var all := [e] + es;
    if ExportsAre(d, sections, dirRva, dirSize, t, i, all) {
      forall k | 0 <= k < |es|
        ensures ExportReads(d, sections, dirRva, dirSize, t, i + 1 + k, es[k])
      {
        assert ExportReads(d, sections, dirRva, dirSize, t, i + (k + 1), all[k + 1]);
      }
    }
    if ExportsAre(d, sections, dirRva, dirSize, t, i + 1, es) {
      forall k | 0 <= k < |all|
        ensures ExportReads(d, sections, dirRva, dirSize, t, i + k, all[k])
      {
        if k > 0 {
          assert ExportReads(d, sections, dirRva, dirSize, t, i + 1 + (k - 1), es[k - 1]);
        }
      }
    }
  }

  /** The export loop returns es exactly when es is the entry-by-entry reading
      of all names: every entry present and good, none skipped or reordered. */
  lemma {:induction false} ExportsExact(d: seq<byte>, sections: seq<Section>, dirRva: nat, dirSize: nat, t: ExportTable,
                                        i: nat, es: seq<Export>)
    requires ArraysFit(d, t) && i <= t.numNames
    ensures ExportsFrom(d, sections, dirRva, dirSize, t, i) == Ok(es) <==>
              ExportsAre(d, sections, dirRva, dirSize, t, i, es)
    decreases t.numNames - i
  {
    hide ExportReads, ExportAt;
    if i < t.numNames && es != [] {
      var rest := es[1..];
      assert es == [es[0]] + rest;
      ExportEntryExact(d, sections, dirRva, dirSize, t, i, es[0]);
      ExportsExact(d, sections, dirRva, dirSize, t, i + 1, rest);
      if ExportAt(d, sections, dirRva, dirSize, t, i) == Ok(es[0]) {
        ExportsShift(d, sections, dirRva, dirSize, t, i, es[0], rest);
      } else {
        assert !ExportReads(d, sections, dirRva, dirSize, t, i + 0, es[0]);
      }
    }
  }

  /** Reading element k of an array at its translated start is translating the
      address of element k, for any array inside one section of a list with
      disjoint spans. */
  lemma ArrayThroughMap(d: seq<byte>, sections: seq<Section>, s: nat, rva: nat, k: nat, width: nat)
    requires |d| < TWO_32 && DisjointSpans(sections) && s < |sections| && width > 0
    requires Covers(sections[s], rva) && Covers(sections[s], rva + width * k)
    requires RvaToOffset(sections, rva).Some?
    requires RvaToOffset(sections, rva).value + width * k + width <= |d|
    ensures RvaToOffset(sections, rva + width * k) == Some(RvaToOffset(sections, rva).value + width * k)
    ensures Field(d, RvaToOffset(sections, rva + width * k).value, width)
         == Field(d, RvaToOffset(sections, rva).value + width * k, width)
  {
    assert 0 <= width * k;
    Contiguous(sections, s, rva, width * k);
  }

  // ----- imports -----

  /** Where thunk k of the array at off lies. */
  function ThunkStart(is64: bool, off: nat, k: nat): nat {
    off + (if is64 then 8 * k else 4 * k)
  }

  predicate ThunkIs(d: seq<byte>, is64: bool, at: nat, v: nat) {
    var w := if is64 then 8 else 4;
    at + w <= |d| && Field(d, at, w) == v
  }

  predicate ThunkReads(d: seq<byte>, sections: seq<Section>, is64: bool, at: nat, f: ImportFunction) {
    var w := if is64 then 8 else 4;
    && at + w <= |d| && Field(d, at, w) != 0
    && DecodeThunk(d, sections, is64, Field(d, at, w)) == Ok(f)
  }

  /** fs decodes exactly the thunks before the first zero one. */
  predicate FunctionsAre(d: seq<byte>, sections: seq<Section>, is64: bool, off: nat, fs: seq<ImportFunction>) {
    && ThunkIs(d, is64, ThunkStart(is64, off, |fs|), 0)
    && forall k :: 0 <= k < |fs| ==> ThunkReads(d, sections, is64, ThunkStart(is64, off, k), fs[k])
  }

  lemma FunctionsShift(d: seq<byte>, sections: seq<Section>, is64: bool, off: nat, f: ImportFunction,
                       fs: seq<ImportFunction>)
    requires ThunkReads(d, sections, is64, off, f)
    ensures FunctionsAre(d, sections, is64, off, [f] + fs) <==>
              FunctionsAre(d, sections, is64, off + ThunkSize(is64), fs)
  {
    hide ThunkIs, ThunkReads;
    var w, all := ThunkSize(is64), [f] + fs;
    assert ThunkStart(is64, off, |all|) == ThunkStart(is64, off + w, |fs|);
    if FunctionsAre(d, sections, is64, off, all) {
      forall k | 0 <= k < |fs|
        ensures ThunkReads(d, sections, is64, ThunkStart(is64, off + w, k), fs[k])
      {
        assert ThunkReads(d, sections, is64, ThunkStart(is64, off, k + 1), all[k + 1]);
      }
    }
    if FunctionsAre(d, sections, is64, off + w, fs) {
      forall k | 0 <= k < |all|
        ensures ThunkReads(d, sections, is64, ThunkStart(is64, off, k), all[k])
      {
        if k > 0 {
          assert ThunkReads(d, sections, is64, ThunkStart(is64, off + w, k - 1), fs[k - 1]);
        }
      }
    }
  }

  /** The function list is fs exactly when fs decodes the thunks before the
      first zero one: the unbounded loop finds that zero or an error. */
  lemma {:induction false} FunctionsExact(d: seq<byte>, sections: seq<Section>, is64: bool, off: nat,
                                          fs: seq<ImportFunction>)
    ensures FunctionsFrom(d, sections, is64, off) == Ok(fs) <==> FunctionsAre(d, sections, is64, off, fs)
    decreases |fs|
  {
    hide Le, DecodeThunk;
    var w := ThunkSize(is64);
    assert ThunkStart(is64, off, 0) == off;
    if fs != [] {
      var rest := fs[1..];
      assert fs == [fs[0]] + rest;
      assert FunctionsAre(d, sections, is64, off, fs) ==> ThunkReads(d, sections, is64, off, fs[0]);
      if ThunkReads(d, sections, is64, off, fs[0]) {
        FunctionsShift(d, sections, is64, off, fs[0], rest);
        FunctionsExact(d, sections, is64, off + w, rest);
      }
    }
  }

  /** The three tested fields of the descriptor at an offset are zero. */
  predicate DescriptorEnds(d: seq<byte>, at: nat) {
    at + 20 <= |d| && Field(d, at, 4) == 0 && Field(d, at + 12, 4) == 0 && Field(d, at + 16, 4) == 0
  }

  /** The module of the descriptor at an offset: its name, and the functions of
      the original thunk array, or of the bound one when there is no original. */
  predicate ModuleReads(d: seq<byte>, sections: seq<Section>, is64: bool, at: nat, m: ImportModule) {
    && at + 20 <= |d| && !DescriptorEnds(d, at)
    && NameAt(d, sections, Field(d, at + 12, 4)) == Ok(m.name)
    && match RvaToOffset(sections, if Field(d, at, 4) != 0 then Field(d, at, 4) else Field(d, at + 16, 4))
       case Some(off) => FunctionsAre(d, sections, is64, off, m.functions)
       case None => false
  }

  lemma ModuleExact(d: seq<byte>, sections: seq<Section>, is64: bool, at: nat, m: ImportModule)
    requires at + 20 <= |d| && DescriptorAt(d, at) != Descriptor(0, 0, 0)
    ensures ModuleOf(d, sections, is64, DescriptorAt(d, at)) == Ok(m) <==> ModuleReads(d, sections, is64, at, m)
  {
    hide Le, NameAt, FunctionsFrom, FunctionsAre;
    var desc := DescriptorAt(d, at);
    var thunk := RvaToOffset(sections, if desc.originalThunk != 0 then desc.originalThunk else desc.firstThunk);
    if thunk.Some? {
      FunctionsExact(d, sections, is64, thunk.value, m.functions);
    }
  }

  /** ms reads exactly the descriptors before the first all-zero one. */
  predicate ModulesAre(d: seq<byte>, sections: seq<Section>, is64: bool, off: nat, ms: seq<ImportModule>) {
    && DescriptorEnds(d, off + 20 * |ms|)
    && forall k :: 0 <= k < |ms| ==> ModuleReads(d, sections, is64, off + 20 * k, ms[k])
  }

  lemma ModulesShift(d: seq<byte>, sections: seq<Section>, is64: bool, off: nat, m: ImportModule, ms: seq<ImportModule>)
    requires ModuleReads(d, sections, is64, off, m)
    ensures ModulesAre(d, sections, is64, off, [m] + ms) <==> ModulesAre(d, sections, is64, off + 20, ms)
  {
    hide DescriptorEnds, ModuleReads;
    var all := [m] + ms;
    assert off + 20 * |all| == off + 20 + 20 * |ms|;
    if ModulesAre(d, sections, is64, off, all) {
      forall k | 0 <= k < |ms|
        ensures ModuleReads(d, sections, is64, off + 20 + 20 * k, ms[k])
      {
        assert ModuleReads(d, sections, is64, off + 20 * (k + 1), all[k + 1]);
      }
    }
    if ModulesAre(d, sections, is64, off + 20, ms) {
      forall k | 0 <= k < |all|
        ensures ModuleReads(d, sections, is64, off + 20 * k, all[k])
      {
        if k > 0 {
          assert ModuleReads(d, sections, is64, off + 20 + 20 * (k - 1), ms[k - 1]);
        }
      }
    }
  }

  /** The module list is ms exactly when ms reads the descriptors before the
      first whose three tested fields are all zero. */
  lemma {:induction false} ModulesExact(d: seq<byte>, sections: seq<Section>, is64: bool, off: nat,
                                        ms: seq<ImportModule>)
    ensures ModulesFrom(d, sections, is64, off) == Ok(ms) <==> ModulesAre(d, sections, is64, off, ms)
    decreases |ms|
  {
    hide Le, ModuleOf, ModuleReads;
    if ms != [] {
      var rest := ms[1..];
      assert ms == [ms[0]] + rest;
      assert ModulesAre(d, sections, is64, off, ms) ==> ModuleReads(d, sections, is64, off + 20 * 0, ms[0]);
      ModuleReadsLive(d, sections, is64, off, ms[0]);
      if off + 20 <= |d| && DescriptorAt(d, off) != Descriptor(0, 0, 0) {
        ModuleExact(d, sections, is64, off, ms[0]);
      }
      if ModuleReads(d, sections, is64, off, ms[0]) {
        ModulesShift(d, sections, is64, off, ms[0], rest);
        ModulesExact(d, sections, is64, off + 20, rest);
      }
    }
  }

  lemma ModuleReadsLive(d: seq<byte>, sections: seq<Section>, is64: bool, at: nat, m: ImportModule)
    ensures ModuleReads(d, sections, is64, at, m) ==> at + 20 <= |d| && DescriptorAt(d, at) != Descriptor(0, 0, 0)
  {
  }

  // ----- the whole image -----

  /** No export directory and no exports, or exactly the entries of its names. */
  predicate ExportsMatch(d: seq<byte>, sections: seq<Section>, dirs: Directories, exports: seq<Export>)
    requires |dirs.rvas| == |dirs.sizes|
  {
    if |dirs.rvas| == 0 || dirs.rvas[0] == 0 then exports == []
    else
      match ExportTableAt(d, sections, dirs.rvas[0])
      case Ok(t) => ExportsAre(d, sections, dirs.rvas[0], dirs.sizes[0], t, 0, exports)
      case Err(_) => false
  }

  /** No import directory and no imports, or exactly the modules before its end. */
  predicate ImportsMatch(d: seq<byte>, sections: seq<Section>, is64: bool, dirs: Directories,
                         imports: seq<ImportModule>) {
    if |dirs.rvas| <= 1 || dirs.rvas[1] == 0 then imports == []
    else
      match RvaToOffset(sections, dirs.rvas[1])
      case Some(off) => ModulesAre(d, sections, is64, off, imports)
      case None => false
  }

  lemma ExportsMatchIff(d: seq<byte>, sections: seq<Section>, dirs: Directories, exports: seq<Export>)
    requires |dirs.rvas| == |dirs.sizes|
    ensures Exports(d, sections, dirs) == Ok(exports) <==> ExportsMatch(d, sections, dirs, exports)
  {
    hide ExportsFrom, ExportsAre, ExportTableAt;
    if |dirs.rvas| > 0 && dirs.rvas[0] != 0 && ExportTableAt(d, sections, dirs.rvas[0]).Ok? {
      var t := ExportTableAt(d, sections, dirs.rvas[0]).value;
      ExportsExact(d, sections, dirs.rvas[0], dirs.sizes[0], t, 0, exports);
    }
  }

  lemma ImportsMatchIff(d: seq<byte>, sections: seq<Section>, is64: bool, dirs: Directories, imports: seq<ImportModule>)
    ensures Imports(d, sections, is64, dirs) == Ok(imports) <==> ImportsMatch(d, sections, is64, dirs, imports)
  {
    hide ModulesFrom, ModulesAre;
    if |dirs.rvas| > 1 && dirs.rvas[1] != 0 && RvaToOffset(sections, dirs.rvas[1]).Some? {
      ModulesExact(d, sections, is64, RvaToOffset(sections, dirs.rvas[1]).value, imports);
    }
  }

  /** The parse succeeds with an image exactly when the header chain holds and
      the image's sections, exports and imports are the ones the tables spell
      out, none missing, none added, none reordered. */
  lemma ParseExact(d: seq<byte>, image: Image)
    ensures ParseImage(d) == Ok(image) <==>
              (&& HeadersOf(d) == Ok(image.headers)
               && image.headers.tableOffset + 40 * image.headers.sectionCount <= |d| && image.headers.dirOffset <= |d|
               && image.architecture == ArchitectureOf(image.headers.machine)
               && image.sections == SectionTable(d, image.headers.tableOffset, image.headers.sectionCount)
               && var dirs := DirectoryTable(d, image.headers.dirOffset, image.headers.dirCount);
               && ExportsMatch(d, image.sections, dirs, image.exports)
               && ImportsMatch(d, image.sections, image.headers.is64, dirs, image.imports))
  {
    hide HeadersOf, Exports, Imports, ExportsMatch, ImportsMatch, SectionTable, DirectoryTable;
    if HeadersOf(d).Ok? {
      HeadersInside(d);
      var h := HeadersOf(d).value;
      var sections := SectionTable(d, h.tableOffset, h.sectionCount);
      var dirs := DirectoryTable(d, h.dirOffset, h.dirCount);
      ExportsMatchIff(d, sections, dirs, image.exports);
      ImportsMatchIff(d, sections, h.is64, dirs, image.imports);
    }
  }

  // ----- appended bytes -----

  lemma NameExtends(d: seq<byte>, e: seq<byte>, sections: seq<Section>, rva: nat)
    requires d <= e && NameAt(d, sections, rva).Ok?
    ensures NameAt(e, sections, rva) == NameAt(d, sections, rva)
  {
    CStringExtends(d, e, RvaToOffset(sections, rva).value, NAME_LIMIT);
  }

  lemma ExportTableExtends(d: seq<byte>, e: seq<byte>, sections: seq<Section>, rva: nat)
    requires d <= e && ExportTableAt(d, sections, rva).Ok?
    ensures ExportTableAt(e, sections, rva) == ExportTableAt(d, sections, rva)
  {
    var off := RvaToOffset(sections, rva).value;
    FieldExtends(d, e, off + 16, 4);
    FieldExtends(d, e, off + 20, 4);
    FieldExtends(d, e, off + 24, 4);
    FieldExtends(d, e, off + 28, 4);
    FieldExtends(d, e, off + 32, 4);
    FieldExtends(d, e, off + 36, 4);
  }

  /** f is e, except that an absent forwarder text may have appeared. */
  predicate ForwarderMayFill(e: Export, f: Export) {
    f == e || (e.forwarded && e.forwarder == [] && f.(forwarder := []) == e)
  }

  lemma ExportExtends(d: seq<byte>, e: seq<byte>, sections: seq<Section>, dirRva: nat, dirSize: nat, t: ExportTable,
                      i: nat)
    requires d <= e && ArraysFit(d, t) && i < t.numNames
    requires ExportAt(d, sections, dirRva, dirSize, t, i).Ok?
    ensures ExportAt(e, sections, dirRva, dirSize, t, i).Ok?
    ensures ForwarderMayFill(ExportAt(d, sections, dirRva, dirSize, t, i).value,
                             ExportAt(e, sections, dirRva, dirSize, t, i).value)
  {
    hide Le, NameAt;
    FieldExtends(d, e, t.ordinals + 2 * i, 2);
    FieldExtends(d, e, t.names + 4 * i, 4);
    var index := Field(d, t.ordinals + 2 * i, 2);
    FieldExtends(d, e, t.functions + 4 * index, 4);
    NameExtends(d, e, sections, Field(d, t.names + 4 * i, 4));
    var rva := Field(d, t.functions + 4 * index, 4);
    if NameAt(d, sections, rva).Ok? {
      NameExtends(d, e, sections, rva);
    }
  }

  predicate ExportsMayFill(es: seq<Export>, fs: seq<Export>) {
    |fs| == |es| && forall i :: 0 <= i < |es| ==> ForwarderMayFill(es[i], fs[i])
  }

  lemma {:induction false} ExportListExtends(d: seq<byte>, e: seq<byte>, sections: seq<Section>, dirRva: nat,
                                             dirSize: nat, t: ExportTable, i: nat)
    requires d <= e && ArraysFit(d, t) && i <= t.numNames
    requires ExportsFrom(d, sections, dirRva, dirSize, t, i).Ok?
    ensures ExportsFrom(e, sections, dirRva, dirSize, t, i).Ok?
    ensures ExportsMayFill(ExportsFrom(d, sections, dirRva, dirSize, t, i).value,
                           ExportsFrom(e, sections, dirRva, dirSize, t, i).value)
    decreases t.numNames - i
  {
    hide ExportAt;
    if i < t.numNames {
      ExportExtends(d, e, sections, dirRva, dirSize, t, i);
      ExportListExtends(d, e, sections, dirRva, dirSize, t, i + 1);
    }
  }

  lemma ThunkExtends(d: seq<byte>, e: seq<byte>, sections: seq<Section>, is64: bool, v: nat)
    requires d <= e && DecodeThunk(d, sections, is64, v).Ok?
    ensures DecodeThunk(e, sections, is64, v) == DecodeThunk(d, sections, is64, v)
  {
    if v < OrdinalFlag(is64) {
      var off := RvaToOffset(sections, v % TWO_32).value;
      FieldExtends(d, e, off, 2);
      CStringExtends(d, e, off + 2, NAME_LIMIT);
    }
  }

  lemma {:induction false} FunctionsExtend(d: seq<byte>, e: seq<byte>, sections: seq<Section>, is64: bool, off: nat)
    requires d <= e && FunctionsFrom(d, sections, is64, off).Ok?
    ensures FunctionsFrom(e, sections, is64, off) == FunctionsFrom(d, sections, is64, off)
    decreases |d| - off
  {
    var w := ThunkSize(is64);
    FieldExtends(d, e, off, w);
    var v := Field(d, off, w);
    if v != 0 {
      ThunkExtends(d, e, sections, is64, v);
      FunctionsExtend(d, e, sections, is64, off + w);
    }
  }

  lemma ModuleExtends(d: seq<byte>, e: seq<byte>, sections: seq<Section>, is64: bool, desc: Descriptor)
    requires d <= e && ModuleOf(d, sections, is64, desc).Ok?
    ensures ModuleOf(e, sections, is64, desc) == ModuleOf(d, sections, is64, desc)
  {
    NameExtends(d, e, sections, desc.nameRva);
    var rva := if desc.originalThunk != 0 then desc.originalThunk else desc.firstThunk;
    FunctionsExtend(d, e, sections, is64, RvaToOffset(sections, rva).value);
  }

  lemma {:induction false} ModulesExtend(d: seq<byte>, e: seq<byte>, sections: seq<Section>, is64: bool, off: nat)
    requires d <= e && ModulesFrom(d, sections, is64, off).Ok?
    ensures ModulesFrom(e, sections, is64, off) == ModulesFrom(d, sections, is64, off)
    decreases |d| - off
  {
    FieldExtends(d, e, off, 4);
    FieldExtends(d, e, off + 12, 4);
    FieldExtends(d, e, off + 16, 4);
    assert DescriptorAt(e, off) == DescriptorAt(d, off);
    if DescriptorAt(d, off) != Descriptor(0, 0, 0) {
      ModuleExtends(d, e, sections, is64, DescriptorAt(d, off));
      ModulesExtend(d, e, sections, is64, off + 20);
    }
  }

  lemma HeadersExtend(d: seq<byte>, e: seq<byte>)
    requires d <= e && HeadersOf(d).Ok?
    ensures HeadersOf(e) == HeadersOf(d)
  {
    HeadersExact(d);
    var at := Field(d, 0x3C, 4);
    FieldExtends(d, e, 0, 2);
    FieldExtends(d, e, 0x3C, 4);
    assert e[at..at + 4] == d[at..at + 4];
    OptionalHeaderExtends(d, e, at + 4);
  }

  lemma OptionalHeaderExtends(d: seq<byte>, e: seq<byte>, coff: nat)
    requires d <= e && coff + 20 <= |d| && OptionalHeaderOf(d, coff).Ok?
    ensures OptionalHeaderOf(e, coff) == OptionalHeaderOf(d, coff)
  {
    var opt := coff + 20;
    FieldExtends(d, e, coff, 2);
    FieldExtends(d, e, coff + 2, 2);
    FieldExtends(d, e, coff + 4, 4);
    FieldExtends(d, e, coff + 16, 2);
    FieldExtends(d, e, coff + 18, 2);
    FieldExtends(d, e, opt, 2);
    FieldExtends(d, e, opt + 16, 4);
    FieldExtends(d, e, opt + 56, 4);
    if Field(d, opt, 2) == 0x20B {
      FieldExtends(d, e, opt + 24, 8);
      FieldExtends(d, e, opt + 108, 4);
    } else {
      FieldExtends(d, e, opt + 28, 4);
      FieldExtends(d, e, opt + 92, 4);
    }
  }

  lemma SectionsExtend(d: seq<byte>, e: seq<byte>, off: nat, n: nat)
    requires d <= e && off + 40 * n <= |d|
    ensures SectionTable(e, off, n) == SectionTable(d, off, n)
  {
    hide DecodeSection;
    forall i | 0 <= i < n
      ensures SectionTable(e, off, n)[i] == SectionTable(d, off, n)[i]
    {
      assert e[off + 40 * i..off + 40 * i + 40] == d[off + 40 * i..off + 40 * i + 40];
    }
  }

  /** The longer buffer holds directory i in full and the shorter one does not. */
  predicate Appears(d: seq<byte>, e: seq<byte>, h: Headers, i: nat)
    requires h.dirOffset <= |d| && h.dirOffset <= |e|
  {
    DirectoryCount(d, h.dirOffset, h.dirCount) <= i < DirectoryCount(e, h.dirOffset, h.dirCount)
  }

  /** An export directory that appears is absent by its address or names nothing. */
  predicate NoExportsAppear(d: seq<byte>, e: seq<byte>, h: Headers, sections: seq<Section>)
    requires h.dirOffset <= |d| && h.dirOffset <= |e|
  {
    Appears(d, e, h, 0) && Field(e, h.dirOffset, 4) != 0 ==>
      match ExportTableAt(e, sections, Field(e, h.dirOffset, 4))
      case Ok(t) => t.numNames == 0
      case Err(_) => false
  }

  /** An import directory that appears is absent by its address or starts with
      its terminator. */
  predicate NoImportsAppear(d: seq<byte>, e: seq<byte>, h: Headers, sections: seq<Section>)
    requires h.dirOffset <= |d| && h.dirOffset <= |e|
  {
    Appears(d, e, h, 1) && Field(e, h.dirOffset + 8, 4) != 0 ==>
      match RvaToOffset(sections, Field(e, h.dirOffset + 8, 4))
      case Some(off) => DescriptorEnds(e, off)
      case None => false
  }

  lemma DirectoryExtends(d: seq<byte>, e: seq<byte>, h: Headers, i: nat)
    requires d <= e && h.dirOffset <= |d|
    ensures var a, b := DirectoryTable(d, h.dirOffset, h.dirCount), DirectoryTable(e, h.dirOffset, h.dirCount);
            && (i < |a.rvas| ==> i < |b.rvas| && b.rvas[i] == a.rvas[i] && b.sizes[i] == a.sizes[i])
            && (|a.rvas| <= i < |b.rvas| <==> Appears(d, e, h, i))
            && (i < |b.rvas| ==> h.dirOffset + 8 * i + 8 <= |e| && b.rvas[i] == Field(e, h.dirOffset + 8 * i, 4))
  {
    hide Le;
    if i < DirectoryCount(d, h.dirOffset, h.dirCount) {
      FieldExtends(d, e, h.dirOffset + 8 * i, 4);
      FieldExtends(d, e, h.dirOffset + 8 * i + 4, 4);
    }
  }

  /** Exports that were found stay; exports are added, or fail, exactly when an
      export directory appears that names something. */
  lemma ExportsExtendIff(d: seq<byte>, e: seq<byte>, h: Headers, sections: seq<Section>)
    requires d <= e && h.dirOffset <= |d|
    requires Exports(d, sections, DirectoryTable(d, h.dirOffset, h.dirCount)).Ok?
    ensures var a, b := DirectoryTable(d, h.dirOffset, h.dirCount), DirectoryTable(e, h.dirOffset, h.dirCount);
            (Exports(e, sections, b).Ok?
             && ExportsMayFill(Exports(d, sections, a).value, Exports(e, sections, b).value))
            <==> NoExportsAppear(d, e, h, sections)
  {
    hide Le, ExportsFrom, ExportTableAt;
    DirectoryExtends(d, e, h, 0);
    var a, b := DirectoryTable(d, h.dirOffset, h.dirCount), DirectoryTable(e, h.dirOffset, h.dirCount);
    if |a.rvas| > 0 && a.rvas[0] != 0 {
      ExportTableExtends(d, e, sections, a.rvas[0]);
      var t := ExportTableAt(d, sections, a.rvas[0]).value;
      ExportListExtends(d, e, sections, a.rvas[0], a.sizes[0], t, 0);
    } else if |b.rvas| > 0 && b.rvas[0] != 0 && ExportTableAt(e, sections, b.rvas[0]).Ok? {
      var t := ExportTableAt(e, sections, b.rvas[0]).value;
      ExportsExact(e, sections, b.rvas[0], b.sizes[0], t, 0, []);
    }
  }

  lemma ImportsExtendIff(d: seq<byte>, e: seq<byte>, h: Headers, sections: seq<Section>)
    requires d <= e && h.dirOffset <= |d|
    requires Imports(d, sections, h.is64, DirectoryTable(d, h.dirOffset, h.dirCount)).Ok?
    ensures var a, b := DirectoryTable(d, h.dirOffset, h.dirCount), DirectoryTable(e, h.dirOffset, h.dirCount);
            Imports(e, sections, h.is64, b) == Imports(d, sections, h.is64, a) <==> NoImportsAppear(d, e, h, sections)
  {
    hide Le, ModulesFrom, DescriptorEnds;
    DirectoryExtends(d, e, h, 1);
    var a, b := DirectoryTable(d, h.dirOffset, h.dirCount), DirectoryTable(e, h.dirOffset, h.dirCount);
    if |a.rvas| > 1 && a.rvas[1] != 0 {
      ModulesExtend(d, e, sections, h.is64, RvaToOffset(sections, a.rvas[1]).value);
    } else {
      ImportsMatchIff(e, sections, h.is64, b, []);
    }
  }

  /** The same image, except that absent forwarder texts may have appeared. */
  predicate Refines(a: Image, b: Image) {
    b.(exports := []) == a.(exports := []) && ExportsMayFill(a.exports, b.exports)
  }

  /** The exact condition under which appended bytes keep a parse: no directory
      appears that holds anything. Otherwise the parse fails or gains entries. */
  lemma AppendIsSafeIff(d: seq<byte>, e: seq<byte>, h: Headers)
    requires d <= e && ParseImage(d).Ok? && HeadersOf(d) == Ok(h) && h.dirOffset <= |d|
    ensures (ParseImage(e).Ok? && Refines(ParseImage(d).value, ParseImage(e).value)) <==>
              (&& NoExportsAppear(d, e, h, ParseImage(d).value.sections)
               && NoImportsAppear(d, e, h, ParseImage(d).value.sections))
  {
    hide HeadersOf, SectionTable, DirectoryTable, Exports, Imports, NoExportsAppear, NoImportsAppear, ExportsMayFill;
    HeadersExtend(d, e);
    HeadersInside(d);
    HeadersInside(e);
    SectionsExtend(d, e, h.tableOffset, h.sectionCount);
    var sections := SectionTable(d, h.tableOffset, h.sectionCount);
    ExportsExtendIff(d, e, h, sections);
    ImportsExtendIff(d, e, h, sections);
  }

  /** In particular appended bytes are safe when the end of the buffer cuts off
      neither of the two directories the parse uses. */
  lemma AppendedBytesRefine(d: seq<byte>, e: seq<byte>, h: Headers)
    requires d <= e && ParseImage(d).Ok? && HeadersOf(d) == Ok(h) && h.dirOffset <= |d|
    requires h.dirCount <= (|d| - h.dirOffset) / 8 || 2 <= (|d| - h.dirOffset) / 8
    ensures ParseImage(e).Ok? && Refines(ParseImage(d).value, ParseImage(e).value)
  {
    hide ParseImage, HeadersOf;
    AppendIsSafeIff(d, e, h);
  }
}
