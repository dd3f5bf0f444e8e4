/** The map from relative virtual addresses to file offsets that a PE section
    list defines, and the laws it obeys when sections do not overlap. */
module RvaMap {
  import opened Base

  datatype Section = Section(
    name: seq<byte>, virtualSize: nat, virtualAddress: nat, rawSize: nat, rawOffset: nat, characteristics: nat)

  /** A section answers for the larger of its two sizes. */
  function Span(s: Section): nat {
    if s.virtualSize > s.rawSize then s.virtualSize else s.rawSize
  }

  predicate Covers(s: Section, rva: nat) {
    s.virtualAddress <= rva < s.virtualAddress + Span(s)
  }

  /** The offset that one covering section gives, when it fits 32 bits. */
  function Translate(s: Section, rva: nat): Option<nat>
    requires Covers(s, rva)
  {
    var offset := s.rawOffset + (rva - s.virtualAddress);
    if offset < TWO_32 then Some(offset) else None
  }

  /** The first covering section decides. */
  function RvaToOffset(sections: seq<Section>, rva: nat): (r: Option<nat>)
    ensures r.Some? ==> r.value < TWO_32
  {
    if sections == [] then None
    else if Covers(sections[0], rva) then Translate(sections[0], rva)
    else RvaToOffset(sections[1..], rva)
  }

  /** The search loop of the source. */
  method FindOffset(sections: seq<Section>, rva: nat) returns (r: Option<nat>)
    ensures r == RvaToOffset(sections, rva)
  {
    for i := 0 to |sections|
      invariant RvaToOffset(sections[i..], rva) == RvaToOffset(sections, rva)
    {
      var s := sections[i];
      assert sections[i..][0] == s && sections[i..][1..] == sections[i + 1..];
      var virtualEnd := s.virtualAddress + (if s.virtualSize > s.rawSize then s.virtualSize else s.rawSize);
      if rva >= s.virtualAddress && rva < virtualEnd {
        var delta := rva - s.virtualAddress;
        var offset := s.rawOffset + delta;
        if offset > TWO_32 - 1 {
          return None;
        }
        return Some(offset);
      }
    }
    return None;
  }

  // ----- what the map computes -----

  /** The section answers for the address: both sizes count, so it is the larger
      one that matters. */
  predicate Answers(s: Section, rva: nat) {
    s.virtualAddress <= rva && (rva < s.virtualAddress + s.virtualSize || rva < s.virtualAddress + s.rawSize)
  }

  // ----- laws -----

  /** The first section that covers the address, found without the loop. */
  predicate FirstCovering(sections: seq<Section>, rva: nat, i: nat) {
    i < |sections| && Covers(sections[i], rva) && forall j :: 0 <= j < i ==> !Covers(sections[j], rva)
  }

  lemma {:induction false} DecidedByFirst(sections: seq<Section>, rva: nat)
    ensures (forall i :: 0 <= i < |sections| ==> !Covers(sections[i], rva)) ==> RvaToOffset(sections, rva) == None
    ensures forall i: nat :: FirstCovering(sections, rva, i) ==>
                               RvaToOffset(sections, rva) == Translate(sections[i], rva)
    ensures || (exists i: nat :: FirstCovering(sections, rva, i))
            || (forall i :: 0 <= i < |sections| ==> !Covers(sections[i], rva))
  {
    if sections != [] {
      var rest := sections[1..];
      DecidedByFirst(rest, rva);
      if Covers(sections[0], rva) {
        assert FirstCovering(sections, rva, 0);
      } else {
        forall i: nat | FirstCovering(sections, rva, i)
          ensures RvaToOffset(sections, rva) == Translate(sections[i], rva)
        {
          assert rest[i - 1] == sections[i];
          assert forall j :: 0 <= j < i - 1 ==> rest[j] == sections[j + 1];
          assert FirstCovering(rest, rva, i - 1);
        }
        if k: nat :| FirstCovering(rest, rva, k) {
          assert sections[k + 1] == rest[k];
          assert forall j :: 1 <= j < k + 1 ==> sections[j] == rest[j - 1];
          assert FirstCovering(sections, rva, k + 1);
        } else {
          assert forall i :: 1 <= i < |sections| ==> sections[i] == rest[i - 1];
        }
      }
    }
  }

  lemma AnswersIsCovers(s: Section, rva: nat)
    ensures Answers(s, rva) <==> Covers(s, rva)
  {
  }

  /** The map without its helpers: the least section that answers decides, its
      offset has to fit 32 bits, and without such a section there is no offset. */
  lemma RvaToOffsetExact(sections: seq<Section>, rva: nat)
    ensures forall i :: 0 <= i < |sections| && Answers(sections[i], rva) &&
                        (forall j :: 0 <= j < i ==> !Answers(sections[j], rva)) ==>
                          var offset := sections[i].rawOffset + (rva - sections[i].virtualAddress);
                          RvaToOffset(sections, rva) == if offset <= 0xFFFF_FFFF then Some(offset) else None
    ensures (forall i :: 0 <= i < |sections| ==> !Answers(sections[i], rva)) ==> RvaToOffset(sections, rva) == None
  {
    hide Covers, RvaToOffset;
    DecidedByFirst(sections, rva);
    forall s: Section
      ensures Answers(s, rva) <==> Covers(s, rva)
    {
      AnswersIsCovers(s, rva);
    }
    forall i | 0 <= i < |sections| && Answers(sections[i], rva) &&
               forall j :: 0 <= j < i ==> !Answers(sections[j], rva)
      ensures var offset := sections[i].rawOffset + (rva - sections[i].virtualAddress);
              RvaToOffset(sections, rva) == if offset <= 0xFFFF_FFFF then Some(offset) else None
    {
      assert FirstCovering(sections, rva, i);
    }
  }

  /** No address belongs to two different sections. */
  ghost predicate DisjointSpans(sections: seq<Section>) {
    forall i, j, rva: nat :: 0 <= i < j < |sections| && Covers(sections[i], rva) ==> !Covers(sections[j], rva)
  }

  /** With disjoint spans, any covering section decides. */
  lemma AnyCoveringDecides(sections: seq<Section>, rva: nat, i: nat)
    requires DisjointSpans(sections) && i < |sections| && Covers(sections[i], rva)
    ensures RvaToOffset(sections, rva) == Translate(sections[i], rva)
  {
    DecidedByFirst(sections, rva);
    assert forall j :: 0 <= j < i ==> (Covers(sections[j], rva) ==> !Covers(sections[i], rva));
    assert FirstCovering(sections, rva, i);
  }

  /** With disjoint spans the order of the section list does not matter. */
  lemma OrderIndependent(sections: seq<Section>, other: seq<Section>, rva: nat)
    requires DisjointSpans(sections)
    requires multiset(sections) == multiset(other)
    ensures RvaToOffset(other, rva) == RvaToOffset(sections, rva)
  {
    assert forall s :: s in sections <==> s in multiset(sections);
    assert forall s :: s in other <==> s in multiset(other);
    DecidedByFirst(sections, rva);
    DecidedByFirst(other, rva);
    if i: nat :| FirstCovering(other, rva, i) {
      assert other[i] in sections;
      var k :| 0 <= k < |sections| && sections[k] == other[i];
      AnyCoveringDecides(sections, rva, k);
    } else {
      forall j | 0 <= j < |sections|
        ensures !Covers(sections[j], rva)
      {
        assert sections[j] in other;
      }
    }
  }

  /** Translation is contiguous inside a section, as long as offsets fit 32 bits. */
  lemma Contiguous(sections: seq<Section>, i: nat, rva: nat, k: nat)
    requires DisjointSpans(sections) && i < |sections|
    requires Covers(sections[i], rva) && Covers(sections[i], rva + k)
    requires RvaToOffset(sections, rva).Some?
    ensures RvaToOffset(sections, rva + k) ==
            if RvaToOffset(sections, rva).value + k < TWO_32 then Some(RvaToOffset(sections, rva).value + k) else None
  {
    AnyCoveringDecides(sections, rva, i);
    AnyCoveringDecides(sections, rva + k, i);
  }

  /** The bytes a section answers for in the file. */
  predicate Stores(s: Section, offset: nat) {
    s.rawOffset <= offset < s.rawOffset + Span(s)
  }

  ghost predicate DisjointFileSpans(sections: seq<Section>) {
    forall i, j, offset: nat :: 0 <= i < j < |sections| && Stores(sections[i], offset) ==> !Stores(sections[j], offset)
  }

  /** Translation is injective as soon as the file spans are disjoint; address
      spans may overlap, since the first covering section decides. */
  lemma Injective(sections: seq<Section>, a: nat, b: nat)
    requires DisjointFileSpans(sections)
    requires RvaToOffset(sections, a).Some? && RvaToOffset(sections, a) == RvaToOffset(sections, b)
    ensures a == b
  {
    DecidedByFirst(sections, a);
    DecidedByFirst(sections, b);
    var i: nat :| FirstCovering(sections, a, i);
    var j: nat :| FirstCovering(sections, b, j);
    var offset := RvaToOffset(sections, a).value;
    assert Stores(sections[i], offset) && Stores(sections[j], offset);
    assert i == j;
  }

  /** Disjoint address spans do not replace disjoint file spans: with one file
      range behind two sections, two addresses share an offset. */
  lemma SharedFileSpanExample()
    ensures var sections := [Section([], 0x1000, 0x1000, 0x200, 0x200, 0),
                             Section([], 0x1000, 0x2000, 0x200, 0x200, 0)];
            DisjointSpans(sections) && RvaToOffset(sections, 0x1000) == RvaToOffset(sections, 0x2000) == Some(0x200)
  {
    var s, t := Section([], 0x1000, 0x1000, 0x200, 0x200, 0), Section([], 0x1000, 0x2000, 0x200, 0x200, 0);
    var sections := [s, t];
    assert sections[1..] == [t];
    assert !Covers(s, 0x2000) && Covers(t, 0x2000);
    assert RvaToOffset([t], 0x2000) == Some(0x200);
  }
}
