/** The anchored scanner, proved against the naive left-to-right scan, with
    the work it does over whole searches. */
module Scanner {
  import opened Base
  import opened Pattern

  // ----- the naive scan -----

  /** Every offset >= from where the pattern occurs, found by trying each one. */
  function NaiveMatches(buffer: seq<byte>, pattern: Pattern, from: nat): seq<nat>
    decreases |buffer| - from
  {
    if from >= |buffer| then []
    else if Matches(buffer, from, pattern) then [from] + NaiveMatches(buffer, pattern, from + 1)
    else NaiveMatches(buffer, pattern, from + 1)
  }

  /** r is the least matching offset >= from, or there is none. */
  ghost predicate IsFirstMatch(buffer: seq<byte>, pattern: Pattern, from: nat, r: Option<nat>) {
    match r
    case None => forall k :: from <= k ==> !Matches(buffer, k, pattern)
    case Some(s) => from <= s && Matches(buffer, s, pattern) &&
                    forall k :: from <= k < s ==> !Matches(buffer, k, pattern)
  }

  predicate Ascending(s: seq<nat>) {
    forall i, j :: 0 <= i < j < |s| ==> s[i] < s[j]
  }

  lemma {:induction false} NaiveExact(buffer: seq<byte>, pattern: Pattern, from: nat)
    ensures Ascending(NaiveMatches(buffer, pattern, from))
    ensures forall k :: k in NaiveMatches(buffer, pattern, from) <==> from <= k && Matches(buffer, k, pattern)
    decreases |buffer| - from
  {
    if from < |buffer| {
      NaiveExact(buffer, pattern, from + 1);
      var rest := NaiveMatches(buffer, pattern, from + 1);
      assert forall i :: 0 <= i < |rest| ==> rest[i] in rest;
    }
  }

  lemma {:induction false} NaiveSkip(buffer: seq<byte>, pattern: Pattern, from: nat, next: nat)
    requires from <= next
    requires forall k :: from <= k < next ==> !Matches(buffer, k, pattern)
    ensures NaiveMatches(buffer, pattern, from) == NaiveMatches(buffer, pattern, next)
    decreases next - from
  {
    if from < next {
      NaiveSkip(buffer, pattern, from + 1, next);
    }
  }

  // ----- work -----

  /** What a search did: the positions memchr looked at and the starts handed
      to the full check, in order, and the bytes compared altogether. */
  datatype Work = Work(examined: seq<nat>, verified: seq<nat>, comparisons: nat)

  ghost predicate Within(s: seq<nat>, lo: nat, hi: nat) {
    forall i :: 0 <= i < |s| ==> lo <= s[i] < hi
  }

  ghost function Span(lo: nat, hi: nat): (s: seq<nat>)
    requires lo <= hi
    ensures |s| == hi - lo && Ascending(s) && Within(s, lo, hi)
  {
    seq(hi - lo, i => lo + i)
  }

  lemma AscendingJoin(a: seq<nat>, b: seq<nat>, lo: nat, mid: nat, hi: nat)
    requires lo <= mid <= hi
    requires Ascending(a) && Within(a, lo, mid) && Ascending(b) && Within(b, mid, hi)
    ensures Ascending(a + b) && Within(a + b, lo, hi)
  {
  }

  /** Distinct values from a range cannot outnumber it. */
  lemma {:induction false} AscendingFits(s: seq<nat>, lo: nat, hi: nat)
    requires lo <= hi && Ascending(s) && Within(s, lo, hi)
    ensures |s| <= hi - lo
    decreases |s|
  {
    if s != [] {
      var last := s[|s| - 1];
      AscendingFits(s[..|s| - 1], lo, last);
    }
  }

  /** The C library search: the first position in [p, end) that holds b. */
  method MemChr(data: seq<byte>, p: nat, end: nat, b: byte) returns (found: Option<nat>, ghost looked: seq<nat>)
    requires p <= end <= |data|
    ensures found.None? ==> looked == Span(p, end) && forall k :: p <= k < end ==> data[k] != b
    ensures found.Some? ==> p <= found.value < end && data[found.value] == b &&
                            looked == Span(p, found.value + 1) &&
                            forall k :: p <= k < found.value ==> data[k] != b
  {
    looked := [];
    for i := p to end
      invariant looked == Span(p, i)
      invariant forall k :: p <= k < i ==> data[k] != b
    {
      looked := looked + [i];
      if data[i] == b {
        return Some(i), looked;
      }
    }
    return None, looked;
  }

  /** The positions and starts of one search lie in these windows, each at most
      once, and the comparisons are one per position plus at most m per start. */
  ghost predicate Frugal(w: Work, m: nat, lo: nat, hi: nat, loStart: nat, hiStart: nat) {
    && Ascending(w.examined) && Within(w.examined, lo, hi)
    && Ascending(w.verified) && Within(w.verified, loStart, hiStart)
    && w.comparisons <= |w.examined| + m * |w.verified|
  }

  ghost function Joined(v: Work, w: Work): Work {
    Work(v.examined + w.examined, v.verified + w.verified, v.comparisons + w.comparisons)
  }

  /** A search that resumes where another stopped repeats none of its work. */
  lemma FrugalJoin(v: Work, w: Work, m: nat, lo: nat, mid: nat, hi: nat, loStart: nat, midStart: nat, hiStart: nat)
    requires lo <= mid <= hi && loStart <= midStart <= hiStart
    requires Frugal(v, m, lo, mid, loStart, midStart) && Frugal(w, m, mid, hi, midStart, hiStart)
    ensures Frugal(Joined(v, w), m, lo, hi, loStart, hiStart)
  {
    AscendingJoin(v.examined, w.examined, lo, mid, hi);
    AscendingJoin(v.verified, w.verified, loStart, midStart, hiStart);
    assert m * (|v.verified| + |w.verified|) == m * |v.verified| + m * |w.verified|;
  }

  /** The anchor position of a pattern; 0 when every byte is a wildcard. */
  ghost function Anchor(pattern: Pattern): nat {
    if exists a: nat :: IsFirstFixed(pattern, a) then var a: nat :| IsFirstFixed(pattern, a); a else 0
  }

  /** The work of one search from a given start: nothing before the start,
      nothing past the match it found. */
  ghost predicate Thrifty(buffer: seq<byte>, pattern: Pattern, from: nat, found: Option<nat>, w: Work) {
    if from + |pattern| > |buffer| then w == Work([], [], 0)
    else
      var stop := if found.Some? then found.value + 1 else |buffer| - |pattern| + 1;
      Frugal(w, |pattern|, from + Anchor(pattern), stop + Anchor(pattern), from, stop)
  }

  lemma FirstFixedUnique(pattern: Pattern, a: nat, b: nat)
    requires IsFirstFixed(pattern, b)
    requires a == Anchor(pattern)
    ensures a == b
  {
  }

  lemma WildcardsMatch(buffer: seq<byte>, pattern: Pattern, from: nat)
    requires pattern != [] && from + |pattern| <= |buffer|
    requires forall i :: 0 <= i < |pattern| ==> pattern[i].wildcard
    ensures Matches(buffer, from, pattern)
  {
  }

  /** The search of the source: find the first fixed byte of the pattern with
      memchr, then check the whole pattern there. */
  method FindImpl(buffer: seq<byte>, pattern: Pattern, from: nat)
    returns (r: Result<Option<nat>, ErrorCode>, ghost work: Work)
    ensures r.Err? <==> pattern == []
    ensures r.Err? ==> r.error == InvalidArgument
    ensures r.Ok? ==> IsFirstMatch(buffer, pattern, from, r.value)
    ensures r.Ok? ==> Thrifty(buffer, pattern, from, r.value, work)
  {
    hide Matches, Anchor;
    work := Work([], [], 0);
    if pattern == [] {
      return Err(InvalidArgument), work;
    }
    NoLateMatches(buffer, pattern);
    var n, m := |buffer|, |pattern|;
    if from > n || m > n - from {
      return Ok(None), work;
    }
    var anchorIndex := FirstFixedIndex(pattern);
    if anchorIndex.None? {
      WildcardsMatch(buffer, pattern, from);
      return Ok(Some(from)), work;
    }
    ghost var anchor := Anchor(pattern);
    assert anchor == anchorIndex.value by {
      FirstFixedUnique(pattern, anchor, anchorIndex.value);
    }
    var anchorByte := pattern[anchorIndex.value].value;
    var lastStart := n - m;
    var p := from + anchorIndex.value;
    var end := lastStart + anchorIndex.value + 1;
    while p < end
      invariant from + anchor <= p <= end
      invariant forall k :: from <= k < p - anchor ==> !Matches(buffer, k, pattern)
      invariant Frugal(work, m, from + anchor, p, from, p - anchor)
    {
      ghost var q := p;
      var found, looked := MemChr(buffer, p, end, anchorByte);
      AnchorRulesOut(buffer, pattern, anchor, p, if found.Some? then found.value else end);
      if found.None? {
        FrugalJoin(work, Work(looked, [], |looked|), m, from + anchor, q, end, from, q - anchor, end - anchor);
        work := Joined(work, Work(looked, [], |looked|));
        p := end;
        break;
      }
      var start := found.value - anchorIndex.value;
      var ok, compared := MatchesAt(buffer, start, pattern);
      ghost var step := Work(looked, [start], |looked| + compared);
      FrugalJoin(work, step, m, from + anchor, q, found.value + 1, from, q - anchor, start + 1);
      work := Joined(work, step);
      if ok {
        return Ok(Some(start)), work;
      }
      p := found.value + 1;
    }
    return Ok(None), work;
  }

  /** Where the anchor byte is absent, no match can have its anchor. */
  lemma AnchorRulesOut(buffer: seq<byte>, pattern: Pattern, anchor: nat, lo: nat, hi: nat)
    requires anchor < |pattern| && !pattern[anchor].wildcard && anchor <= lo <= hi <= |buffer|
    requires forall k :: lo <= k < hi ==> buffer[k] != pattern[anchor].value
    ensures forall k :: lo - anchor <= k < hi - anchor ==> !Matches(buffer, k, pattern)
  {
    forall k | lo - anchor <= k < hi - anchor
      ensures !Matches(buffer, k, pattern)
    {
      assert buffer[k + anchor] != pattern[anchor].value;
    }
  }

  lemma NoLateMatches(buffer: seq<byte>, pattern: Pattern)
    ensures forall k: nat :: k + |pattern| > |buffer| ==> !Matches(buffer, k, pattern)
  {
  }

  /** The whole-buffer bound: each position at most once, each start at most
      once, so at most (n - m + 1) * (m + 1) byte comparisons however many
      matches there are. */
  ghost predicate WithinBudget(w: Work, n: nat, m: nat) {
    && Ascending(w.examined) && Ascending(w.verified)
    && (if n < m then w.comparisons == 0 else w.comparisons <= (n - m + 1) * (m + 1))
  }

  lemma FrugalWithinBudget(w: Work, n: nat, m: nat, anchor: nat, stop: nat)
    requires if n < m then w == Work([], [], 0) else stop <= n - m + 1 && Frugal(w, m, anchor, stop + anchor, 0, stop)
    ensures WithinBudget(w, n, m)
  {
    if m <= n {
      var starts := n - m + 1;
      AscendingFits(w.examined, anchor, stop + anchor);
      AscendingFits(w.verified, 0, stop);
      MulMonotone(m, starts, |w.verified|);
      assert starts * (m + 1) == starts + m * starts;
    }
  }

  method FindFirst(buffer: seq<byte>, pattern: Pattern) returns (r: Result<Option<nat>, ErrorCode>)
    ensures r.Err? <==> pattern == []
    ensures r.Err? ==> r.error == InvalidArgument
    ensures r.Ok? ==> IsFirstMatch(buffer, pattern, 0, r.value)
  {
    var found, work := FindImpl(buffer, pattern, 0);
    return found;
  }

  method FindFirstFrom(buffer: seq<byte>, pattern: Pattern, from: nat) returns (r: Result<Option<nat>, ErrorCode>)
    ensures r.Err? <==> pattern == []
    ensures r.Err? ==> r.error == InvalidArgument
    ensures r.Ok? ==> IsFirstMatch(buffer, pattern, from, r.value)
  {
    var found, work := FindImpl(buffer, pattern, from);
    return found;
  }

  /** The work of the restart loop when it is about to search from pos. */
  ghost predicate Resumable(buffer: seq<byte>, pattern: Pattern, pos: nat, w: Work) {
    if |pattern| <= |buffer| then
      pos <= |buffer| - |pattern| + 1 && Frugal(w, |pattern|, Anchor(pattern), pos + Anchor(pattern), 0, pos)
    else w == Work([], [], 0)
  }

  lemma ResumeAfter(buffer: seq<byte>, pattern: Pattern, pos: nat, w: Work, found: Option<nat>, more: Work)
    requires Resumable(buffer, pattern, pos, w)
    requires IsFirstMatch(buffer, pattern, pos, found)
    requires Thrifty(buffer, pattern, pos, found, more)
    ensures found.Some? ==> Resumable(buffer, pattern, found.value + 1, Joined(w, more))
    ensures found.None? ==> WithinBudget(Joined(w, more), |buffer|, |pattern|)
  {
    var n, m, anchor := |buffer|, |pattern|, Anchor(pattern);
    if m <= n {
      if pos + m > n {
        assert Joined(w, more) == w;
        FrugalWithinBudget(w, n, m, anchor, pos);
      } else {
        var stop := if found.Some? then found.value + 1 else n - m + 1;
        FrugalJoin(w, more, m, anchor, pos + anchor, stop + anchor, 0, pos, stop);
        FrugalWithinBudget(Joined(w, more), n, m, anchor, stop);
      }
    }
  }

  /** One restart against the naive scan. */
  lemma NaiveAfter(buffer: seq<byte>, pattern: Pattern, pos: nat, found: Option<nat>)
    requires pos <= |buffer| && IsFirstMatch(buffer, pattern, pos, found)
    ensures found.None? ==> NaiveMatches(buffer, pattern, pos) == []
    ensures found.Some? ==>
              NaiveMatches(buffer, pattern, pos) == [found.value] + NaiveMatches(buffer, pattern, found.value + 1)
  {
    NaiveSkip(buffer, pattern, pos, if found.Some? then found.value else |buffer|);
  }

  /** State of the restart loop that find_all and count share: done holds the
      matches below pos, and the work so far is within bounds. */
  ghost predicate Searching(buffer: seq<byte>, pattern: Pattern, pos: nat, done: seq<nat>, w: Work) {
    && pos <= |buffer|
    && NaiveMatches(buffer, pattern, 0) == done + NaiveMatches(buffer, pattern, pos)
    && Resumable(buffer, pattern, pos, w)
  }

  ghost predicate Searched(buffer: seq<byte>, pattern: Pattern, done: seq<nat>, w: Work) {
    NaiveMatches(buffer, pattern, 0) == done && WithinBudget(w, |buffer|, |pattern|)
  }

  lemma SearchStarts(buffer: seq<byte>, pattern: Pattern)
    ensures Searching(buffer, pattern, 0, [], Work([], [], 0))
  {
  }

  lemma SearchContinues(buffer: seq<byte>, pattern: Pattern, pos: nat, done: seq<nat>, w: Work, found: Option<nat>,
                        more: Work)
    requires Searching(buffer, pattern, pos, done, w)
    requires IsFirstMatch(buffer, pattern, pos, found) && Thrifty(buffer, pattern, pos, found, more)
    ensures found.None? ==> Searched(buffer, pattern, done, Joined(w, more))
    ensures found.Some? ==>
              pos <= found.value < |buffer| &&
              Searching(buffer, pattern, found.value + 1, done + [found.value], Joined(w, more))
  {
    NaiveAfter(buffer, pattern, pos, found);
    ResumeAfter(buffer, pattern, pos, w, found, more);
    if found.Some? {
      var rest := NaiveMatches(buffer, pattern, found.value + 1);
      assert done + ([found.value] + rest) == done + [found.value] + rest;
    } else {
      assert done + [] == done;
    }
  }

  method FindAll(buffer: seq<byte>, pattern: Pattern)
    returns (r: Result<seq<nat>, ErrorCode>, ghost work: Work)
    ensures r == if pattern == [] then Err(InvalidArgument) else Ok(NaiveMatches(buffer, pattern, 0))
    ensures pattern != [] ==> WithinBudget(work, |buffer|, |pattern|)
  {
    hide Matches, NaiveMatches, Searching, Thrifty, IsFirstMatch, WithinBudget;
    work := Work([], [], 0);
    if pattern == [] {
      return Err(InvalidArgument), work;
    }
    var matches: seq<nat> := [];
    var pos := 0;
    SearchStarts(buffer, pattern);
    while true
      invariant Searching(buffer, pattern, pos, matches, work)
      decreases |buffer| - pos
    {
      var found, more := FindImpl(buffer, pattern, pos);
      // The source passes an error on here; the check above leaves none.
      assert found.Ok?;
      SearchContinues(buffer, pattern, pos, matches, work, found.value, more);
      work := Joined(work, more);
      if found.value.None? {
        break;
      }
      matches := matches + [found.value.value];
      pos := found.value.value + 1;
    }
    return Ok(matches), work;
  }

  ghost predicate Counting(buffer: seq<byte>, pattern: Pattern, pos: nat, total: nat, w: Work) {
    exists done: seq<nat> :: Searching(buffer, pattern, pos, done, w) && |done| == total
  }

  lemma CountStarts(buffer: seq<byte>, pattern: Pattern)
    ensures Counting(buffer, pattern, 0, 0, Work([], [], 0))
  {
    SearchStarts(buffer, pattern);
    var none: seq<nat> := [];
    assert Searching(buffer, pattern, 0, none, Work([], [], 0)) && |none| == 0;
  }

  lemma CountContinues(buffer: seq<byte>, pattern: Pattern, pos: nat, total: nat, w: Work, found: Option<nat>,
                       more: Work)
    requires Counting(buffer, pattern, pos, total, w)
    requires IsFirstMatch(buffer, pattern, pos, found) && Thrifty(buffer, pattern, pos, found, more)
    ensures found.None? ==>
              total == |NaiveMatches(buffer, pattern, 0)| && WithinBudget(Joined(w, more), |buffer|, |pattern|)
    ensures found.Some? ==>
              pos <= found.value < |buffer| && Counting(buffer, pattern, found.value + 1, total + 1, Joined(w, more))
  {
    var done: seq<nat> :| Searching(buffer, pattern, pos, done, w) && |done| == total;
    SearchContinues(buffer, pattern, pos, done, w, found, more);
  }

  method Count(buffer: seq<byte>, pattern: Pattern)
    returns (r: Result<nat, ErrorCode>, ghost work: Work)
    ensures r == if pattern == [] then Err(InvalidArgument) else Ok(|NaiveMatches(buffer, pattern, 0)|)
    ensures pattern != [] ==> WithinBudget(work, |buffer|, |pattern|)
  {
    hide Matches, NaiveMatches, Counting, Thrifty, IsFirstMatch, WithinBudget;
    work := Work([], [], 0);
    if pattern == [] {
      return Err(InvalidArgument), work;
    }
    var total, pos := 0, 0;
    CountStarts(buffer, pattern);
    while true
      invariant 0 <= pos <= |buffer|
      invariant Counting(buffer, pattern, pos, total, work)
      decreases |buffer| - pos
    {
      var found, more := FindImpl(buffer, pattern, pos);
      // The source passes an error on here; the check above leaves none.
      assert found.Ok?;
      CountContinues(buffer, pattern, pos, total, work, found.value, more);
      work := Joined(work, more);
      if found.value.None? {
        break;
      }
      total := total + 1;
      pos := found.value.value + 1;
    }
    return Ok(total), work;
  }
}
