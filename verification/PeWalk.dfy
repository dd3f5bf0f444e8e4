/** The loop over a thunk array, which has no bound of its own, on buffers of
    any size: the buffer sizes on which it always ends. */
module PeWalk {
  import opened Base
  import opened Reader
  import opened RvaMap
  import opened PeFormat
  import opened PeParser

  // ----- the loop, turn by turn -----

  /** Turn k of the loop, whose 32-bit thunk index has wrapped, leaves it. */
  predicate TurnEnds(d: seq<byte>, sections: seq<Section>, is64: bool, start: nat, k: nat)
    requires start < TWO_32
  {
    !TurnAt(d, sections, is64, start, k % TWO_32).Decoded?
  }

  ghost predicate WalkEnds(d: seq<byte>, sections: seq<Section>, is64: bool, start: nat)
    requires start < TWO_32
  {
    exists k: nat :: TurnEnds(d, sections, is64, start, k)
  }

  /** The loop of ReadThunks cut off after a number of turns, on a buffer of any
      size: it is still running exactly when none of those turns ends it. */
  method RunThunks(d: seq<byte>, sections: seq<Section>, is64: bool, thunkOffset: nat, turns: nat)
    returns (r: Option<Result<seq<ImportFunction>, ErrorCode>>)
    requires thunkOffset < TWO_32
    ensures r.None? <==> forall k: nat :: k < turns ==> !TurnEnds(d, sections, is64, thunkOffset, k)
  {
    hide TurnAt;
    var functions: seq<ImportFunction> := [];
    var thunkIndex := 0;
    for turn := 0 to turns
      invariant thunkIndex == turn % TWO_32
      invariant forall k: nat :: k < turn ==> !TurnEnds(d, sections, is64, thunkOffset, k)
    {
      var t := ReadTurn(d, sections, is64, thunkOffset, thunkIndex);
      if !t.Decoded? {
        assert TurnEnds(d, sections, is64, thunkOffset, turn);
        return Some(if t.Failed? then Err(t.error) else Ok(functions));
      }
      functions := functions + [t.entry];
      thunkIndex := Add32(thunkIndex, 1);
    }
    return None;
  }

  lemma TurnBehind(d: seq<byte>, sections: seq<Section>, is64: bool, start: nat, k: nat)
    requires start < TWO_32 && k < TWO_32 && start + k * ThunkSize(is64) < TWO_32
    requires !InBounds(d, start + k * ThunkSize(is64), ThunkSize(is64))
    ensures TurnEnds(d, sections, is64, start, k)
  {
    hide Le, DecodeWrapped, Mul32;
    Mul32Bound(k, ThunkSize(is64));
  }

  /** Below 4 GiB some turn reads behind the buffer, if none before ends the loop. */
  lemma SmallBuffersEnd(d: seq<byte>, sections: seq<Section>, is64: bool, start: nat)
    requires |d| < TWO_32 && start < TWO_32
    ensures WalkEnds(d, sections, is64, start)
  {
    hide TurnEnds;
    var room := if start > |d| then 0 else |d| - start;
    var k := if is64 then room / 8 else room / 4;
    TurnBehind(d, sections, is64, start, k);
  }

  // ----- images that reach the loop -----

  /** The parse of this buffer gets as far as the first thunk array: headers and
      section table are accepted, there is no export directory, and the first
      import descriptor has a name and leads to a thunk array at start. Stated
      with the source's arithmetic, so that it holds for buffers of any size. */
  predicate ReachesWalk(d: seq<byte>, h: Headers, sections: seq<Section>, start: nat) {
    && HeadersOf(d) == Ok(h) && |d| >= 64 && Field(d, 0x3C, 4) + 4 < TWO_32
    && h.tableOffset + 40 * h.sectionCount <= |d| && sections == SectionTable(d, h.tableOffset, h.sectionCount)
    && h.dirOffset <= |d| && 2 <= h.dirCount && 2 <= ((|d| - h.dirOffset) / 8) % TWO_32
    && Field(d, h.dirOffset, 4) == 0 && Field(d, h.dirOffset + 8, 4) != 0
    && match RvaToOffset(sections, Field(d, h.dirOffset + 8, 4))
       case None => false
       case Some(off) =>
         && off + 20 <= |d| && DescriptorAt(d, off) != Descriptor(0, 0, 0)
         && var desc := DescriptorAt(d, off);
         && NameAt(d, sections, desc.nameRva).Ok?
         && RvaToOffset(sections, if desc.originalThunk != 0 then desc.originalThunk else desc.firstThunk)
            == Some(start)
  }

  /** Such a parse stands or falls with the loop: below 4 GiB its error is the
      error of the whole parse, and its functions are those of the first module. */
  lemma ReachedWalkDecides(d: seq<byte>, h: Headers, sections: seq<Section>, start: nat)
    requires |d| < TWO_32 && ReachesWalk(d, h, sections, start)
    ensures var walk := FunctionsFrom(d, sections, h.is64, start);
            && (walk.Err? ==> ParseImage(d) == Err(walk.error))
            && (ParseImage(d).Ok? ==>
                  && walk.Ok? && ParseImage(d).value.imports != []
                  && ParseImage(d).value.imports[0].functions == walk.value)
  {
    hide Le, HeadersOf, SectionTable, FunctionsFrom, NameAt, RvaToOffset;
    var off := RvaToOffset(sections, Field(d, h.dirOffset + 8, 4)).value;
    var dirs := DirectoryTable(d, h.dirOffset, h.dirCount);
    assert dirs.rvas[0] == 0 && dirs.rvas[1] == Field(d, h.dirOffset + 8, 4);
    assert Exports(d, sections, dirs) == Ok([]);
    var m := ModuleOf(d, sections, h.is64, DescriptorAt(d, off));
    assert ModulesFrom(d, sections, h.is64, off) ==
           if m.Ok? then Prepend([m.value], ModulesFrom(d, sections, h.is64, off + 20)) else Err(m.error);
  }

  // ----- an image on which the loop runs on -----

  /** A 64-bit image whose NT headers start at e: one section maps every address
      to the same offset, and its first import descriptor points to a thunk array
      at offset 8. Byte 7 of every eight-byte word has its top bit set, so each
      word is an import by ordinal. */
  function LoopByte(e: nat, j: nat): byte
    requires TWO_31 <= e <= TWO_31 + 0x20
  {
    if j < e then
      match j
      case 0 => 0x4D
      case 1 => 0x5A
      case 0x3C => e - TWO_31
      case 0x3D | 0x3E => 0
      case 0x3F => 0x80
      case _ => 0xFF
    else
      match j - e
      case 0 => 0x50
      case 1 => 0x45
      case 2 | 3 | 21 => 0
      case 20 => 0x84
      case 24 => 0x0B
      case 25 => 0x02
      case 136 | 137 | 138 | 139 => 0
      case 144 => e - TWO_31 + 200
      case 145 | 146 => 0
      case 147 => 0x80
      case 168 | 169 | 170 | 171 | 176 | 177 | 178 | 179 => 0
      case 200 => 8
      case 201 | 202 | 203 => 0
      case 212 => e - TWO_31 + 2
      case 213 | 214 => 0
      case 215 => 0x80
      case _ => 0xFF
  }

  function LoopImage(n: nat, e: nat): (d: seq<byte>)
    requires TWO_31 <= e <= TWO_31 + 0x20
    ensures |d| == n
  {
    seq(n, j requires 0 <= j < n => LoopByte(e, j))
  }

  /** e is one of two places, chosen so that the truncated directory count of
      the source is not below 2. */
  predicate GoodPlace(n: nat, e: nat) {
    && n >= TWO_32 && (e == TWO_31 || e == TWO_31 + 0x20)
    && 2 <= ((n - (e + 136)) / 8) % TWO_32
  }

  lemma LoopHeaders(n: nat, e: nat) returns (h: Headers)
    requires GoodPlace(n, e)
    ensures HeadersOf(LoopImage(n, e)) == Ok(h) && Field(LoopImage(n, e), 0x3C, 4) == e
    ensures h.is64 && h.tableOffset == e + 156 && h.sectionCount == 0xFFFF
    ensures h.dirOffset == e + 136 && h.dirCount == TWO_32 - 1
  {
    hide Le;
    var d := LoopImage(n, e);
    FieldBytes(d, 0);
    FieldBytes(d, 0x3C);
    FieldBytes(d, e + 6);
    FieldBytes(d, e + 20);
    FieldBytes(d, e + 24);
    FieldBytes(d, e + 132);
    assert d[e..e + 4] == [0x50, 0x45, 0, 0];
    h := HeadersAt(d, e + 4, true);
  }

  /** The first section maps every address but the last to itself. */
  lemma LoopMap(n: nat, e: nat, rva: nat)
    requires GoodPlace(n, e) && rva < TWO_32 - 1
    ensures RvaToOffset(SectionTable(LoopImage(n, e), e + 156, 0xFFFF), rva) == Some(rva)
  {
    hide Le, SanitizeName, FirstNul;
    var d := LoopImage(n, e);
    FieldBytes(d, e + 164);
    FieldBytes(d, e + 168);
    FieldBytes(d, e + 176);
    FieldOfRecord(d, e + 156, 40, 8, 4);
    FieldOfRecord(d, e + 156, 40, 12, 4);
    FieldOfRecord(d, e + 156, 40, 20, 4);
    var first := SectionTable(d, e + 156, 0xFFFF)[0];
    assert first.virtualAddress == 0 && first.rawOffset == 0 && first.virtualSize == TWO_32 - 1;
  }

  lemma LoopDirectories(n: nat, e: nat)
    requires GoodPlace(n, e)
    ensures Field(LoopImage(n, e), e + 136, 4) == 0 && Field(LoopImage(n, e), e + 144, 4) == e + 200
  {
    hide Le;
    FieldBytes(LoopImage(n, e), e + 136);
    FieldBytes(LoopImage(n, e), e + 144);
  }

  lemma LoopDescriptor(n: nat, e: nat)
    requires GoodPlace(n, e)
    ensures DescriptorAt(LoopImage(n, e), e + 200).originalThunk == 8
    ensures DescriptorAt(LoopImage(n, e), e + 200).nameRva == e + 2
    ensures CString(LoopImage(n, e), e + 2, NAME_LIMIT) == Ok([])
  {
    hide Le;
    FieldBytes(LoopImage(n, e), e + 200);
    FieldBytes(LoopImage(n, e), e + 212);
    CStringExact(LoopImage(n, e), e + 2, NAME_LIMIT, []);
  }

  lemma LoopReached(n: nat, e: nat, h: Headers)
    requires GoodPlace(n, e) && HeadersOf(LoopImage(n, e)) == Ok(h) && Field(LoopImage(n, e), 0x3C, 4) == e
    requires h.tableOffset == e + 156 && h.sectionCount == 0xFFFF
    requires h.dirOffset == e + 136 && h.dirCount == TWO_32 - 1
    ensures ReachesWalk(LoopImage(n, e), h, SectionTable(LoopImage(n, e), e + 156, 0xFFFF), 8)
  {
    hide Field, LoopImage, HeadersOf, SectionTable, RvaToOffset, CString, DescriptorAt;
    LoopDirectories(n, e);
    LoopDescriptor(n, e);
    LoopMap(n, e, e + 200);
    LoopMap(n, e, e + 2);
    LoopMap(n, e, 8);
  }

  /** The thunks of the array at 8 lie on the eight-byte words below 4 GiB. */
  lemma LoopWord(i: nat)
    requires i < TWO_32
    ensures Mul32(i, 8) < TWO_32 && Add32(8, Mul32(i, 8)) % 8 == 0 && Add32(8, Mul32(i, 8)) + 8 <= TWO_32
  {
    var q := i * 8 / TWO_32;
    assert Mul32(i, 8) == 8 * (i - 0x2000_0000 * q);
  }

  lemma LoopByteHigh(e: nat, j: nat)
    requires (e == TWO_31 || e == TWO_31 + 0x20) && j % 8 == 7
    ensures LoopByte(e, j) >= 0x80
  {
  }

  lemma LoopTopBit(n: nat, e: nat, at: nat)
    requires GoodPlace(n, e) && at % 8 == 0 && at + 8 <= TWO_32
    ensures Field(LoopImage(n, e), at, 8) >= TWO_63
  {
    hide Field;
    LoopByteHigh(e, at + 7);
    TopBitOfField(LoopImage(n, e), at);
  }

  lemma LoopRunsOn(n: nat, e: nat, sections: seq<Section>, k: nat)
    requires GoodPlace(n, e)
    ensures !TurnEnds(LoopImage(n, e), sections, true, 8, k)
  {
    hide Field, LoopImage, Add32, Mul32;
    var i := k % TWO_32;
    LoopWord(i);
    LoopTopBit(n, e, Add32(8, Mul32(i, 8)));
  }

  // ----- the exact size -----

  /** Every image of a size whose parse reaches the loop leaves it again. */
  ghost predicate AlwaysEnds(n: nat) {
    forall d: seq<byte>, h: Headers, sections: seq<Section>, start: nat ::
      |d| == n && start < TWO_32 && ReachesWalk(d, h, sections, start) ==> WalkEnds(d, sections, h.is64, start)
  }

  /** The loop ends on every image of a given size exactly when that size is
      below 4 GiB. */
  lemma WalkEndsIffSmall(n: nat)
    ensures AlwaysEnds(n) <==> n < TWO_32
  {
    hide ReachesWalk, TurnEnds, LoopImage;
    if n < TWO_32 {
      forall d: seq<byte>, h: Headers, sections: seq<Section>, start: nat
        | |d| == n && start < TWO_32 && ReachesWalk(d, h, sections, start)
        ensures WalkEnds(d, sections, h.is64, start)
      {
        SmallBuffersEnd(d, sections, h.is64, start);
      }
    } else {
      var e := if GoodPlace(n, TWO_31) then TWO_31 else TWO_31 + 0x20;
      assert GoodPlace(n, e);
      var d := LoopImage(n, e);
      var h := LoopHeaders(n, e);
      LoopReached(n, e, h);
      var sections := SectionTable(d, e + 156, 0xFFFF);
      forall k: nat
        ensures !TurnEnds(d, sections, true, 8, k)
      {
        LoopRunsOn(n, e, sections, k);
      }
      assert !WalkEnds(d, sections, h.is64, 8);
    }
  }
}
