/** The PE parse where it fails, and the values that its helpers stand for:
    which error comes first, and what names, thunks and ordinal names are. */
module PeExact {
  import opened Base
  import opened Reader
  import opened RvaMap
  import opened PeFormat
  import opened PeTheorems

  /** The four architectures the library names, by the machine field. */
  lemma ArchitectureExact(machine: nat)
    ensures ArchitectureOf(machine) == X86 <==> machine == 0x14C
    ensures ArchitectureOf(machine) == X86_64 <==> machine == 0x8664
    ensures ArchitectureOf(machine) == Arm <==> machine == 0x1C0
    ensures ArchitectureOf(machine) == Arm64 <==> machine == 0xAA64
    ensures ArchitectureOf(machine) !in {RiscV32, RiscV64}
  {
  }

  /** A refused header chain is out of range when e_lfanew wraps in 32 bits or
      the buffer ends in front of the optional-header magic, else invalid. */
  lemma HeadersFailWith(d: seq<byte>)
    ensures HeadersOf(d) == Err(OutOfRange) <==>
              (&& |d| >= 64 && Field(d, 0, 2) == 0x5A4D
               && var e := Field(d, 0x3C, 4);
               || (e + 4 >= 0x1_0000_0000 && e + 24 > |d|)
               || (e != 0 && e + 24 <= |d| < e + 26 && d[e..e + 4] == [0x50, 0x45, 0, 0] && Field(d, e + 20, 2) >= 2))
    ensures HeadersOf(d).Err? ==> HeadersOf(d).error == OutOfRange || HeadersOf(d).error == InvalidBinary
  {
    hide Le;
  }

  // ----- ordinal names -----

  /** The number that decimal digits denote. */
  function Denotes(digits: seq<byte>): int {
    if digits == [] then 0 else 10 * Denotes(digits[..|digits| - 1]) + (digits[|digits| - 1] as int - 0x30)
  }

  lemma DenotesNothing()
    ensures Denotes([]) == 0
  {
  }

  lemma DenotesSnoc(digits: seq<byte>, c: byte)
    ensures Denotes(digits + [c]) == 10 * Denotes(digits) + (c as int - 0x30)
  {
    assert (digits + [c])[..|digits|] == digits;
  }

  lemma {:induction false} DecimalExact(n: nat)
    ensures Denotes(Decimal(n)) == n && Decimal(n) != []
    ensures forall c :: c in Decimal(n) ==> 0x30 <= c <= 0x39
    ensures n != 0 ==> Decimal(n)[0] != 0x30
    ensures n == 0 ==> Decimal(n) == [0x30]
  {
    hide Denotes;
    if n < 10 {
      assert Decimal(n) == [] + [0x30 + n];
      DenotesSnoc([], 0x30 + n);
      DenotesNothing();
    } else {
      DecimalExact(n / 10);
      assert Decimal(n) == Decimal(n / 10) + [0x30 + n % 10];
      DenotesSnoc(Decimal(n / 10), 0x30 + n % 10);
    }
  }

  /** "ordinal_" and the number in decimal, without leading zeros. */
  lemma OrdinalNameExact(n: nat)
    ensures |OrdinalName(n)| > 8
    ensures forall i :: 0 <= i < 8 ==> OrdinalName(n)[i] == "ordinal_"[i] as int
    ensures Denotes(OrdinalName(n)[8..]) == n
    ensures forall c :: c in OrdinalName(n)[8..] ==> '0' as int <= c <= '9' as int
    ensures n != 0 ==> OrdinalName(n)[8] != '0' as int
  {
    DecimalExact(n);
    assert OrdinalName(n)[8..] == Decimal(n);
  }

  // ----- names -----

  /** A string of fewer than 4096 bytes ends at a NUL inside the buffer. */
  ghost predicate StringAt(d: seq<byte>, off: nat) {
    exists s :: TerminatedAt(d, off, 4096, s)
  }

  lemma StringExact(d: seq<byte>, off: nat)
    ensures CString(d, off, NAME_LIMIT).Ok? <==> StringAt(d, off)
    ensures CString(d, off, NAME_LIMIT).Ok? ==> TerminatedAt(d, off, 4096, CString(d, off, NAME_LIMIT).value)
    ensures CString(d, off, NAME_LIMIT).Err? ==> CString(d, off, NAME_LIMIT).error == OutOfRange
  {
    hide TerminatedAt;
    forall s
      ensures CString(d, off, NAME_LIMIT) == Ok(s) <==> TerminatedAt(d, off, 4096, s)
    {
      CStringExact(d, off, 4096, s);
    }
  }

  /** A name is the printable form of the string its address leads to; the
      address unmapped is invalid, the string unterminated out of range. */
  lemma NameExact(d: seq<byte>, sections: seq<Section>, rva: nat)
    ensures NameAt(d, sections, rva) == Err(InvalidBinary) <==> RvaToOffset(sections, rva).None?
    ensures RvaToOffset(sections, rva).Some? ==>
              var off := RvaToOffset(sections, rva).value;
              && (NameAt(d, sections, rva) == Err(OutOfRange) <==> !StringAt(d, off))
              && forall s :: TerminatedAt(d, off, 4096, s) ==> NameAt(d, sections, rva) == Ok(SanitizeName(s))
    ensures NameAt(d, sections, rva).Err? ==> NameAt(d, sections, rva).error in {InvalidBinary, OutOfRange}
  {
    hide TerminatedAt, CString, RvaToOffset, SanitizeName, StringAt;
    if RvaToOffset(sections, rva).Some? {
      var off := RvaToOffset(sections, rva).value;
      StringExact(d, off);
      forall s | TerminatedAt(d, off, 4096, s)
        ensures NameAt(d, sections, rva) == Ok(SanitizeName(s))
      {
        CStringExact(d, off, 4096, s);
      }
    }
  }

  /** A section name is the printable form of the stored bytes up to the first
      NUL, or of all eight. */
  lemma SectionNameExact(b: seq<byte>, name: seq<byte>)
    requires |b| == 40 && |name| <= 8 && b[..|name|] == name && 0 !in name
    requires |name| == 8 || b[|name|] == 0
    ensures DecodeSection(b).name == SanitizeName(name)
  {
    hide SanitizeName, Le;
    if |name| < 8 {
      assert b[0..|name|] == name;
      FirstNulAt(b, 0, 8, |name|);
    } else {
      assert forall i :: 0 <= i < 8 ==> b[i] in name;
    }
  }

  // ----- thunks -----

  /** A thunk with its top bit set imports by ordinal, its low 16 bits. */
  lemma OrdinalThunkExact(d: seq<byte>, sections: seq<Section>, is64: bool, v: nat)
    requires v >= if is64 then 0x8000_0000_0000_0000 else 0x8000_0000
    ensures DecodeThunk(d, sections, is64, v) == Ok(ImportFunction(OrdinalName(v % 0x1_0000), v % 0x1_0000, true))
  {
  }

  /** The other thunks import by name: a hint and a string where the low 32 bits
      lead. An address that is unmapped or has no room for hint and NUL is
      invalid, a string that does not end out of range. */
  lemma NamedThunkExact(d: seq<byte>, sections: seq<Section>, is64: bool, v: nat)
    requires v < if is64 then 0x8000_0000_0000_0000 else 0x8000_0000
    ensures var r, at := DecodeThunk(d, sections, is64, v), RvaToOffset(sections, v % 0x1_0000_0000);
            && (r == Err(InvalidBinary) <==> at.None? || at.value + 3 > |d|)
            && (r == Err(OutOfRange) <==> at.Some? && at.value + 3 <= |d| && !StringAt(d, at.value + 2))
            && (at.Some? && at.value + 3 <= |d| ==>
                  forall s :: TerminatedAt(d, at.value + 2, 4096, s) ==>
                        r == Ok(ImportFunction(SanitizeName(s), Field(d, at.value, 2), false)))
            && (r.Err? ==> r.error in {InvalidBinary, OutOfRange})
  {
    hide TerminatedAt, CString, RvaToOffset, SanitizeName, StringAt, Le;
    var at := RvaToOffset(sections, v % 0x1_0000_0000);
    if at.Some? && at.value + 3 <= |d| {
      StringExact(d, at.value + 2);
      forall s | TerminatedAt(d, at.value + 2, 4096, s)
        ensures DecodeThunk(d, sections, is64, v) == Ok(ImportFunction(SanitizeName(s), Field(d, at.value, 2), false))
      {
        CStringExact(d, at.value + 2, 4096, s);
      }
    }
  }

  predicate ThunkDecodes(d: seq<byte>, sections: seq<Section>, is64: bool, at: nat) {
    var w := if is64 then 8 else 4;
    at + w <= |d| && Field(d, at, w) != 0 && DecodeThunk(d, sections, is64, Field(d, at, w)).Ok?
  }

  /** The thunk lies behind the buffer, or does not decode. */
  predicate ThunkFails(d: seq<byte>, sections: seq<Section>, is64: bool, at: nat, c: ErrorCode) {
    var w := if is64 then 8 else 4;
    if at + w > |d| then c == OutOfRange
    else Field(d, at, w) != 0 && DecodeThunk(d, sections, is64, Field(d, at, w)) == Err(c)
  }

  /** Thunk k is the first that fails, with no terminator in front of it. */
  predicate FirstThunkFails(d: seq<byte>, sections: seq<Section>, is64: bool, off: nat, k: nat, c: ErrorCode) {
    && ThunkFails(d, sections, is64, ThunkStart(is64, off, k), c)
    && forall j: nat :: j < k ==> ThunkDecodes(d, sections, is64, ThunkStart(is64, off, j))
  }

  lemma FirstThunkShift(d: seq<byte>, sections: seq<Section>, is64: bool, off: nat, k: nat, c: ErrorCode)
    requires ThunkDecodes(d, sections, is64, off)
    ensures FirstThunkFails(d, sections, is64, off, k + 1, c) <==>
              FirstThunkFails(d, sections, is64, off + (if is64 then 8 else 4), k, c)
  {
    hide ThunkFails, ThunkDecodes;
    var next := off + if is64 then 8 else 4;
    assert forall j: nat :: ThunkStart(is64, off, j + 1) == ThunkStart(is64, next, j);
    assert ThunkStart(is64, off, 0) == off;
    if FirstThunkFails(d, sections, is64, next, k, c) {
      forall j: nat | j < k + 1
        ensures ThunkDecodes(d, sections, is64, ThunkStart(is64, off, j))
      {
        if j > 0 {
          assert ThunkDecodes(d, sections, is64, ThunkStart(is64, next, j - 1));
        }
      }
    }
    if FirstThunkFails(d, sections, is64, off, k + 1, c) {
      forall j: nat | j < k
        ensures ThunkDecodes(d, sections, is64, ThunkStart(is64, next, j))
      {
        assert ThunkDecodes(d, sections, is64, ThunkStart(is64, off, j + 1));
      }
    }
  }

  /** The thunk loop fails with an error exactly when the first thunk that is
      bad, before any terminator, is bad in that way. */
  lemma {:induction false} FunctionsFailWith(d: seq<byte>, sections: seq<Section>, is64: bool, off: nat, c: ErrorCode)
    ensures FunctionsFrom(d, sections, is64, off) == Err(c) <==>
              exists k: nat :: FirstThunkFails(d, sections, is64, off, k, c)
    decreases |d| - off
  {
    hide Le, DecodeThunk, FirstThunkFails;
    var next := off + if is64 then 8 else 4;
    FirstThunkZero(d, sections, is64, off, c);
    if ThunkDecodes(d, sections, is64, off) {
      FunctionsFailWith(d, sections, is64, next, c);
      if k: nat :| FirstThunkFails(d, sections, is64, next, k, c) {
        FirstThunkShift(d, sections, is64, off, k, c);
      }
      if k: nat :| FirstThunkFails(d, sections, is64, off, k, c) {
        FirstThunkShift(d, sections, is64, off, k - 1, c);
      }
    } else {
      if k: nat :| FirstThunkFails(d, sections, is64, off, k, c) {
        FirstThunkIsFirst(d, sections, is64, off, k, c);
      }
    }
  }

  lemma FirstThunkZero(d: seq<byte>, sections: seq<Section>, is64: bool, off: nat, c: ErrorCode)
    ensures FirstThunkFails(d, sections, is64, off, 0, c) <==> ThunkFails(d, sections, is64, off, c)
    ensures ThunkDecodes(d, sections, is64, off) ==> !ThunkFails(d, sections, is64, off, c)
  {
    hide Le;
    assert ThunkStart(is64, off, 0) == off;
  }

  lemma FirstThunkIsFirst(d: seq<byte>, sections: seq<Section>, is64: bool, off: nat, k: nat, c: ErrorCode)
    requires FirstThunkFails(d, sections, is64, off, k, c) && !ThunkDecodes(d, sections, is64, off)
    ensures k == 0
  {
    hide ThunkDecodes, ThunkFails;
    assert ThunkStart(is64, off, 0) == off;
  }

  // ----- exports -----

  /** The directory is accepted exactly when it lies inside the buffer and its
      three arrays are mapped and inside too; otherwise it is invalid. */
  lemma ExportTableExact(d: seq<byte>, sections: seq<Section>, rva: nat)
    ensures var r, at := ExportTableAt(d, sections, rva), RvaToOffset(sections, rva);
            && (r.Err? ==> r.error == InvalidBinary)
            && (r.Ok? <==>
                  && at.Some? && at.value + 40 <= |d|
                  && var functions := RvaToOffset(sections, Field(d, at.value + 28, 4));
                  && var names := RvaToOffset(sections, Field(d, at.value + 32, 4));
                  && var ordinals := RvaToOffset(sections, Field(d, at.value + 36, 4));
                  && functions.Some? && functions.value + 4 * Field(d, at.value + 20, 4) <= |d|
                  && names.Some? && names.value + 4 * Field(d, at.value + 24, 4) <= |d|
                  && ordinals.Some? && ordinals.value + 2 * Field(d, at.value + 24, 4) <= |d|)
  {
    hide Le, RvaToOffset;
  }

  /** An entry fails as invalid when its ordinal index exceeds the functions or
      its name address is unmapped, and as out of range when the name does not end. */
  lemma ExportFailsWith(d: seq<byte>, sections: seq<Section>, dirRva: nat, dirSize: nat, t: ExportTable, i: nat)
    requires ArraysFit(d, t) && i < t.numNames
    ensures var r := ExportAt(d, sections, dirRva, dirSize, t, i);
            var index, name := Field(d, t.ordinals + 2 * i, 2), RvaToOffset(sections, Field(d, t.names + 4 * i, 4));
            && (r == Err(InvalidBinary) <==> index >= t.numFunctions || name.None?)
            && (r == Err(OutOfRange) <==> index < t.numFunctions && name.Some? && !StringAt(d, name.value))
            && (r.Err? ==> r.error in {InvalidBinary, OutOfRange})
  {
    hide Le, NameAt, RvaToOffset, StringAt;
    NameExact(d, sections, Field(d, t.names + 4 * i, 4));
  }

  predicate FirstExportFails(d: seq<byte>, sections: seq<Section>, dirRva: nat, dirSize: nat, t: ExportTable, i: nat,
                             k: nat, c: ErrorCode)
    requires ArraysFit(d, t)
  {
    && i <= k < t.numNames && ExportAt(d, sections, dirRva, dirSize, t, k) == Err(c)
    && forall j: nat :: i <= j < k ==> ExportAt(d, sections, dirRva, dirSize, t, j).Ok?
  }

  /** The export loop fails with the error of the first entry that fails. */
  lemma {:induction false} ExportsFailWith(d: seq<byte>, sections: seq<Section>, dirRva: nat, dirSize: nat,
                                           t: ExportTable, i: nat, c: ErrorCode)
    requires ArraysFit(d, t) && i <= t.numNames
    ensures ExportsFrom(d, sections, dirRva, dirSize, t, i) == Err(c) <==>
              exists k: nat :: FirstExportFails(d, sections, dirRva, dirSize, t, i, k, c)
    decreases t.numNames - i
  {
    hide ExportAt;
    if i < t.numNames {
      var next, first := i + 1, ExportAt(d, sections, dirRva, dirSize, t, i);
      if first.Err? {
        if first.error == c {
          assert FirstExportFails(d, sections, dirRva, dirSize, t, i, i, c);
        }
      } else {
        ExportsFailWith(d, sections, dirRva, dirSize, t, next, c);
        if k: nat :| FirstExportFails(d, sections, dirRva, dirSize, t, next, k, c) {
          assert FirstExportFails(d, sections, dirRva, dirSize, t, i, k, c);
        }
        if k: nat :| FirstExportFails(d, sections, dirRva, dirSize, t, i, k, c) {
          assert FirstExportFails(d, sections, dirRva, dirSize, t, next, k, c);
        }
      }
    }
  }

  // ----- import modules -----

  /** The module of a descriptor fails by its name first, then by an unmapped
      thunk array, then by its thunks. */
  lemma ModuleFailsWith(d: seq<byte>, sections: seq<Section>, is64: bool, desc: Descriptor, c: ErrorCode)
    ensures var thunkRva := if desc.originalThunk != 0 then desc.originalThunk else desc.firstThunk;
            var thunks := RvaToOffset(sections, thunkRva);
            ModuleOf(d, sections, is64, desc) == Err(c) <==>
              if NameAt(d, sections, desc.nameRva).Err? then NameAt(d, sections, desc.nameRva).error == c
              else if thunks.None? then c == InvalidBinary
              else exists k: nat :: FirstThunkFails(d, sections, is64, thunks.value, k, c)
  {
    hide NameAt, RvaToOffset, FunctionsFrom, FirstThunkFails;
    var thunks := RvaToOffset(sections, if desc.originalThunk != 0 then desc.originalThunk else desc.firstThunk);
    if thunks.Some? {
      FunctionsFailWith(d, sections, is64, thunks.value, c);
    }
  }

  predicate ModuleDecodes(d: seq<byte>, sections: seq<Section>, is64: bool, at: nat) {
    at + 20 <= |d| && !DescriptorEnds(d, at) && ModuleOf(d, sections, is64, DescriptorAt(d, at)).Ok?
  }

  /** The descriptor lies behind the buffer, or its module fails. */
  predicate DescriptorFails(d: seq<byte>, sections: seq<Section>, is64: bool, at: nat, c: ErrorCode) {
    if at + 20 > |d| then c == InvalidBinary
    else !DescriptorEnds(d, at) && ModuleOf(d, sections, is64, DescriptorAt(d, at)) == Err(c)
  }

  predicate FirstModuleFails(d: seq<byte>, sections: seq<Section>, is64: bool, off: nat, k: nat, c: ErrorCode) {
    && DescriptorFails(d, sections, is64, off + 20 * k, c)
    && forall j: nat :: j < k ==> ModuleDecodes(d, sections, is64, off + 20 * j)
  }

  lemma FirstModuleShift(d: seq<byte>, sections: seq<Section>, is64: bool, off: nat, k: nat, c: ErrorCode)
    requires ModuleDecodes(d, sections, is64, off)
    ensures FirstModuleFails(d, sections, is64, off, k + 1, c) <==>
              FirstModuleFails(d, sections, is64, off + 20, k, c)
  {
    hide ModuleDecodes, DescriptorFails;
    assert off + 20 * (k + 1) == off + 20 + 20 * k;
    if FirstModuleFails(d, sections, is64, off + 20, k, c) {
      forall j: nat | j < k + 1
        ensures ModuleDecodes(d, sections, is64, off + 20 * j)
      {
        if j > 0 {
          assert ModuleDecodes(d, sections, is64, off + 20 + 20 * (j - 1));
        }
      }
    }
    if FirstModuleFails(d, sections, is64, off, k + 1, c) {
      forall j: nat | j < k
        ensures ModuleDecodes(d, sections, is64, off + 20 + 20 * j)
      {
        assert ModuleDecodes(d, sections, is64, off + 20 * (j + 1));
      }
    }
  }

  lemma DescriptorEndsExact(d: seq<byte>, at: nat)
    requires at + 20 <= |d|
    ensures DescriptorEnds(d, at) <==> DescriptorAt(d, at) == Descriptor(0, 0, 0)
  {
    hide Le;
  }

  lemma FirstModuleIsFirst(d: seq<byte>, sections: seq<Section>, is64: bool, off: nat, k: nat, c: ErrorCode)
    requires FirstModuleFails(d, sections, is64, off, k, c) && !ModuleDecodes(d, sections, is64, off)
    ensures k == 0
  {
    hide ModuleDecodes, DescriptorFails;
    assert off + 20 * 0 == off;
  }

  lemma FirstModuleZero(d: seq<byte>, sections: seq<Section>, is64: bool, off: nat, c: ErrorCode)
    ensures FirstModuleFails(d, sections, is64, off, 0, c) <==> DescriptorFails(d, sections, is64, off, c)
    ensures ModuleDecodes(d, sections, is64, off) ==> !DescriptorFails(d, sections, is64, off, c)
  {
    hide ModuleOf, DescriptorEnds;
    assert off + 20 * 0 == off;
  }

  /** The module loop fails with the error of the first descriptor that fails,
      before any terminator; running off the buffer is invalid. */
  lemma {:induction false} ModulesFailWith(d: seq<byte>, sections: seq<Section>, is64: bool, off: nat, c: ErrorCode)
    ensures ModulesFrom(d, sections, is64, off) == Err(c) <==>
              exists k: nat :: FirstModuleFails(d, sections, is64, off, k, c)
    decreases |d| - off
  {
    hide Le, ModuleOf, FirstModuleFails, DescriptorEnds, DescriptorAt;
    var next := off + 20;
    FirstModuleZero(d, sections, is64, off, c);
    if off + 20 <= |d| {
      DescriptorEndsExact(d, off);
    }
    if ModuleDecodes(d, sections, is64, off) {
      ModulesFailWith(d, sections, is64, next, c);
      if k: nat :| FirstModuleFails(d, sections, is64, next, k, c) {
        FirstModuleShift(d, sections, is64, off, k, c);
      }
      if k: nat :| FirstModuleFails(d, sections, is64, off, k, c) {
        FirstModuleShift(d, sections, is64, off, k - 1, c);
      }
    } else {
      if k: nat :| FirstModuleFails(d, sections, is64, off, k, c) {
        FirstModuleIsFirst(d, sections, is64, off, k, c);
      }
    }
  }

  // ----- the whole parse -----

  /** The export stage fails by its directory or by its first bad entry. */
  ghost predicate ExportStageFails(d: seq<byte>, sections: seq<Section>, dirs: Directories, c: ErrorCode)
    requires |dirs.rvas| == |dirs.sizes|
  {
    && |dirs.rvas| > 0 && dirs.rvas[0] != 0
    && match ExportTableAt(d, sections, dirs.rvas[0])
       case Err(e) => e == c
       case Ok(t) => exists k: nat :: FirstExportFails(d, sections, dirs.rvas[0], dirs.sizes[0], t, 0, k, c)
  }

  /** The import stage fails by an unmapped directory or its first bad descriptor. */
  ghost predicate ImportStageFails(d: seq<byte>, sections: seq<Section>, is64: bool, dirs: Directories, c: ErrorCode) {
    && |dirs.rvas| > 1 && dirs.rvas[1] != 0
    && match RvaToOffset(sections, dirs.rvas[1])
       case None => c == InvalidBinary
       case Some(off) => exists k: nat :: FirstModuleFails(d, sections, is64, off, k, c)
  }

  lemma StagesFailWith(d: seq<byte>, sections: seq<Section>, is64: bool, dirs: Directories, c: ErrorCode)
    requires |dirs.rvas| == |dirs.sizes|
    ensures Exports(d, sections, dirs) == Err(c) <==> ExportStageFails(d, sections, dirs, c)
    ensures Imports(d, sections, is64, dirs) == Err(c) <==> ImportStageFails(d, sections, is64, dirs, c)
  {
    hide ExportTableAt, ExportsFrom, ModulesFrom, FirstExportFails, FirstModuleFails, RvaToOffset;
    if |dirs.rvas| > 0 && dirs.rvas[0] != 0 && ExportTableAt(d, sections, dirs.rvas[0]).Ok? {
      var t := ExportTableAt(d, sections, dirs.rvas[0]).value;
      ExportsFailWith(d, sections, dirs.rvas[0], dirs.sizes[0], t, 0, c);
    }
    if |dirs.rvas| > 1 && dirs.rvas[1] != 0 && RvaToOffset(sections, dirs.rvas[1]).Some? {
      ModulesFailWith(d, sections, is64, RvaToOffset(sections, dirs.rvas[1]).value, c);
    }
  }

  /** The parse fails with the error of the first stage that fails: header
      chain, then exports, then imports. */
  lemma ParseFailsWith(d: seq<byte>, c: ErrorCode)
    ensures HeadersOf(d).Err? ==> (ParseImage(d) == Err(c) <==> HeadersOf(d).error == c)
    ensures HeadersOf(d).Ok? ==>
              var h := HeadersOf(d).value;
              && h.tableOffset + 40 * h.sectionCount <= |d| && h.dirOffset <= |d|
              && var sections := SectionTable(d, h.tableOffset, h.sectionCount);
              && var dirs := DirectoryTable(d, h.dirOffset, h.dirCount);
              && (ParseImage(d) == Err(c) <==>
                    || ExportStageFails(d, sections, dirs, c)
                    || (Exports(d, sections, dirs).Ok? && ImportStageFails(d, sections, h.is64, dirs, c)))
  {
    hide HeadersOf, SectionTable, DirectoryTable, Exports, Imports, ExportStageFails, ImportStageFails;
    if HeadersOf(d).Ok? {
      HeadersInside(d);
      var h := HeadersOf(d).value;
      var sections := SectionTable(d, h.tableOffset, h.sectionCount);
      StagesFailWith(d, sections, h.is64, DirectoryTable(d, h.dirOffset, h.dirCount), c);
    }
  }
}
