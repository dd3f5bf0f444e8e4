/** What the scanner promises its callers: exactness of printed patterns,
    monotonicity in wildcards, and when the documented "non-overlapping"
    count is the count that the code returns. */
module ScannerTheorems {
  import opened Base
  import opened Pattern
  import opened Scanner

  // ----- printed patterns -----

  /** Print any non-empty byte string, compile the text, scan: the result is
      every occurrence of the string, overlapping ones included, in order. */
  lemma PrintParseScan(buffer: seq<byte>, needle: seq<byte>)
    requires needle != []
    ensures ParseText(HexText(needle)).Ok?
    ensures var found := NaiveMatches(buffer, ParseText(HexText(needle)).value, 0);
            && Ascending(found)
            && forall k :: k in found <==> 0 <= k && k + |needle| <= |buffer| && buffer[k..k + |needle|] == needle
  {
    PrintThenParse(needle);
    var p := Literal(needle);
    NaiveExact(buffer, p, 0);
    forall k: nat
      ensures Matches(buffer, k, p) <==> k + |needle| <= |buffer| && buffer[k..k + |needle|] == needle
    {
      LiteralMatchesSubstring(buffer, k, needle);
    }
  }

  // ----- wildcards -----

  /** Turning fixed bytes into wildcards, the anchor included, keeps every
      match and never moves the first one later. */
  lemma WildcardsOnlyAddMatches(buffer: seq<byte>, p: Pattern, q: Pattern, from: nat, first: Option<nat>,
                                first': Option<nat>)
    requires Weakens(q, p)
    requires IsFirstMatch(buffer, p, from, first) && IsFirstMatch(buffer, q, from, first')
    ensures forall k :: k in NaiveMatches(buffer, p, from) ==> k in NaiveMatches(buffer, q, from)
    ensures first.Some? ==> first'.Some? && first'.value <= first.value
  {
    NaiveExact(buffer, p, from);
    NaiveExact(buffer, q, from);
    forall k: nat | Matches(buffer, k, p)
      ensures Matches(buffer, k, q)
    {
      WeakerMatchesMore(buffer, k, p, q);
    }
  }

  // ----- overlapping matches -----

  /** The matches of a left-to-right scan that steps over each match it takes. */
  function DisjointMatches(buffer: seq<byte>, pattern: Pattern, from: nat): seq<nat>
    decreases |buffer| - from
  {
    if from >= |buffer| then []
    else if Matches(buffer, from, pattern) then [from] + DisjointMatches(buffer, pattern, from + |pattern|)
    else DisjointMatches(buffer, pattern, from + 1)
  }

  /** A choice of matches at or after from, no two of which overlap. */
  ghost predicate DisjointChoice(buffer: seq<byte>, pattern: Pattern, from: nat, c: seq<nat>) {
    && (forall i :: 0 <= i < |c| ==> from <= c[i] && Matches(buffer, c[i], pattern))
    && (forall i, j :: 0 <= i < j < |c| ==> c[i] + |pattern| <= c[j])
  }

  lemma {:induction false} DisjointIsAChoice(buffer: seq<byte>, pattern: Pattern, from: nat)
    ensures DisjointChoice(buffer, pattern, from, DisjointMatches(buffer, pattern, from))
    decreases |buffer| - from
  {
    if from < |buffer| {
      if Matches(buffer, from, pattern) {
        DisjointIsAChoice(buffer, pattern, from + |pattern|);
      } else {
        DisjointIsAChoice(buffer, pattern, from + 1);
      }
    }
  }

  /** The scan is a largest choice: "the number of non-overlapping matches" is
      its length, whichever way the matches are picked. */
  lemma {:induction false} DisjointIsMaximal(buffer: seq<byte>, pattern: Pattern, from: nat, c: seq<nat>)
    requires DisjointChoice(buffer, pattern, from, c)
    ensures |c| <= |DisjointMatches(buffer, pattern, from)|
    decreases |buffer| - from
  {
    if c != [] {
      assert from <= c[0] && Matches(buffer, c[0], pattern);
      if Matches(buffer, from, pattern) {
        DisjointIsMaximal(buffer, pattern, from + |pattern|, c[1..]);
      } else {
        DisjointIsMaximal(buffer, pattern, from + 1, c);
      }
    }
  }

  ghost predicate Overlap(buffer: seq<byte>, pattern: Pattern, from: nat, a: nat, b: nat) {
    from <= a < b < a + |pattern| && Matches(buffer, a, pattern) && Matches(buffer, b, pattern)
  }

  lemma {:induction false} LaterStartsFindLess(buffer: seq<byte>, pattern: Pattern, from: nat, next: nat)
    requires from <= next
    ensures |NaiveMatches(buffer, pattern, next)| <= |NaiveMatches(buffer, pattern, from)|
    ensures (exists k :: from <= k < next && Matches(buffer, k, pattern)) ==>
              |NaiveMatches(buffer, pattern, next)| < |NaiveMatches(buffer, pattern, from)|
    decreases next - from
  {
    if from < next {
      LaterStartsFindLess(buffer, pattern, from + 1, next);
    }
  }

  lemma {:induction false} DisjointAtMost(buffer: seq<byte>, pattern: Pattern, from: nat)
    ensures |DisjointMatches(buffer, pattern, from)| <= |NaiveMatches(buffer, pattern, from)|
    decreases |buffer| - from
  {
    if from < |buffer| {
      if Matches(buffer, from, pattern) {
        DisjointAtMost(buffer, pattern, from + |pattern|);
        LaterStartsFindLess(buffer, pattern, from + 1, from + |pattern|);
      } else {
        DisjointAtMost(buffer, pattern, from + 1);
      }
    }
  }

  lemma MatchNeedsRoom(buffer: seq<byte>, offset: nat, pattern: Pattern)
    ensures Matches(buffer, offset, pattern) ==> |pattern| > 0 && offset + |pattern| <= |buffer|
  {
  }

  lemma {:induction false} OverlapsAreLost(buffer: seq<byte>, pattern: Pattern, from: nat, a: nat, b: nat)
    requires Overlap(buffer, pattern, from, a, b)
    ensures |DisjointMatches(buffer, pattern, from)| < |NaiveMatches(buffer, pattern, from)|
    decreases |buffer| - from
  {
    hide Matches;
    MatchNeedsRoom(buffer, from, pattern);
    MatchNeedsRoom(buffer, b, pattern);
    if !Matches(buffer, from, pattern) {
      OverlapsAreLost(buffer, pattern, from + 1, a, b);
    } else {
      var next := from + |pattern|;
      DisjointAtMost(buffer, pattern, next);
      LaterStartsFindLess(buffer, pattern, from + 1, next);
      if a >= next {
        OverlapsAreLost(buffer, pattern, next, a, b);
      } else {
        var hit := if a == from then b else a;
        assert from + 1 <= hit < next && Matches(buffer, hit, pattern);
      }
    }
  }

  lemma {:induction false} WithoutOverlapsTheSame(buffer: seq<byte>, pattern: Pattern, from: nat)
    requires forall a, b :: !Overlap(buffer, pattern, from, a, b)
    ensures DisjointMatches(buffer, pattern, from) == NaiveMatches(buffer, pattern, from)
    decreases |buffer| - from
  {
    hide Matches;
    if from < |buffer| {
      MatchNeedsRoom(buffer, from, pattern);
      var next := if Matches(buffer, from, pattern) then from + |pattern| else from + 1;
      forall k | from + 1 <= k < next
        ensures !Matches(buffer, k, pattern)
      {
        assert !Overlap(buffer, pattern, from, from, k);
      }
      NaiveSkip(buffer, pattern, from + 1, next);
      forall a, b
        ensures !Overlap(buffer, pattern, next, a, b)
      {
        assert !Overlap(buffer, pattern, from, a, b);
      }
      WithoutOverlapsTheSame(buffer, pattern, next);
    }
  }

  /** For one buffer: the count of the code is the number of non-overlapping
      matches exactly when no two matches overlap. */
  lemma CountIsDisjointIff(buffer: seq<byte>, pattern: Pattern)
    ensures |NaiveMatches(buffer, pattern, 0)| == |DisjointMatches(buffer, pattern, 0)| <==>
              forall a, b :: !Overlap(buffer, pattern, 0, a, b)
  {
    if forall a, b :: !Overlap(buffer, pattern, 0, a, b) {
      WithoutOverlapsTheSame(buffer, pattern, 0);
    } else {
      var a, b :| Overlap(buffer, pattern, 0, a, b);
      OverlapsAreLost(buffer, pattern, 0, a, b);
    }
  }

  /** Some byte satisfies both pattern elements. */
  predicate Compatible(p: PatternByte, q: PatternByte) {
    p.wildcard || q.wildcard || p.value == q.value
  }

  /** The pattern fits onto a proper shift of itself. */
  predicate FitsAtShift(pattern: Pattern, s: nat) {
    0 < s < |pattern| && forall i :: 0 <= i < |pattern| - s ==> Compatible(pattern[i + s], pattern[i])
  }

  function OverlapByte(pattern: Pattern, s: nat, j: nat): byte
    requires FitsAtShift(pattern, s) && j < |pattern| + s
  {
    if j < |pattern| && !pattern[j].wildcard then pattern[j].value
    else if s <= j then pattern[j - s].value
    else 0
  }

  function OverlapWitness(pattern: Pattern, s: nat): seq<byte>
    requires FitsAtShift(pattern, s)
  {
    seq(|pattern| + s, j requires 0 <= j < |pattern| + s => OverlapByte(pattern, s, j))
  }

  lemma WitnessOverlaps(pattern: Pattern, s: nat)
    requires FitsAtShift(pattern, s)
    ensures Overlap(OverlapWitness(pattern, s), pattern, 0, 0, s)
  {
    var buffer := OverlapWitness(pattern, s);
    forall i | 0 <= i < |pattern|
      ensures pattern[i].wildcard || buffer[s + i] == pattern[i].value
      ensures pattern[i].wildcard || buffer[0 + i] == pattern[i].value
    {
      assert buffer[s + i] == OverlapByte(pattern, s, s + i);
      assert buffer[0 + i] == OverlapByte(pattern, s, i);
      assert s + i < |pattern| ==> Compatible(pattern[i + s], pattern[i]);
    }
  }

  lemma OverlapsFit(buffer: seq<byte>, pattern: Pattern, a: nat, b: nat)
    requires Overlap(buffer, pattern, 0, a, b)
    ensures FitsAtShift(pattern, b - a)
  {
    var s := b - a;
    forall i | 0 <= i < |pattern| - s
      ensures Compatible(pattern[i + s], pattern[i])
    {
      assert pattern[i].wildcard || buffer[b + i] == pattern[i].value;
      assert pattern[i + s].wildcard || buffer[a + (i + s)] == pattern[i + s].value;
    }
  }

  /** For a pattern: count returns the number of non-overlapping matches, as
      its documentation says, on every buffer exactly when the pattern fits
      onto no proper shift of itself. */
  lemma CountIsDisjointForPatternIff(pattern: Pattern)
    requires pattern != []
    ensures (forall buffer :: |NaiveMatches(buffer, pattern, 0)| == |DisjointMatches(buffer, pattern, 0)|) <==>
              (forall s :: !FitsAtShift(pattern, s))
  {
    if s :| FitsAtShift(pattern, s) {
      WitnessOverlaps(pattern, s);
      var buffer := OverlapWitness(pattern, s);
      CountIsDisjointIff(buffer, pattern);
      assert |NaiveMatches(buffer, pattern, 0)| != |DisjointMatches(buffer, pattern, 0)|;
    } else {
      forall buffer
        ensures |NaiveMatches(buffer, pattern, 0)| == |DisjointMatches(buffer, pattern, 0)|
      {
        CountIsDisjointIff(buffer, pattern);
        forall a, b
          ensures !Overlap(buffer, pattern, 0, a, b)
        {
          if Overlap(buffer, pattern, 0, a, b) {
            OverlapsFit(buffer, pattern, a, b);
          }
        }
      }
    }
  }

  /** The concrete case: AA AA in AA AA AA counts two, though only one
      non-overlapping match fits. */
  lemma CountOverlapsExample()
    ensures var p, buffer := Literal([0xAA, 0xAA]), [0xAA, 0xAA, 0xAA];
            |NaiveMatches(buffer, p, 0)| == 2 && |DisjointMatches(buffer, p, 0)| == 1
  {
    var p, buffer := Literal([0xAA, 0xAA]), [0xAA, 0xAA, 0xAA];
    assert Matches(buffer, 0, p) && Matches(buffer, 1, p) && !Matches(buffer, 2, p);
    assert NaiveMatches(buffer, p, 3) == [];
    assert NaiveMatches(buffer, p, 2) == [];
    assert NaiveMatches(buffer, p, 1) == [1] + NaiveMatches(buffer, p, 2);
    assert DisjointMatches(buffer, p, 2) == DisjointMatches(buffer, p, 3) == [];
  }
}
