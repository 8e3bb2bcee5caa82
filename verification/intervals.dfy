/** Basic geometry shared by every phase of the crossing detector: closed
    integer intervals (the source's StartStop), the lines that hold them,
    integer points, and the key choice every Dictionary loop makes. */
module Intervals {

  /** A value that may be absent (a null reference in the source). */
  datatype Option<T> = None | Some(value: T)

  /** A closed integer range [start, stop] on one axis. The source's transient
      Dead marker is not a field here: the consolidation pass keeps it in a
      sequence of its own. */
  datatype Interval = Interval(start: int, stop: int)

  /** All intervals that share one fixed coordinate (a column of vertical
      strokes or a row of horizontal strokes), kept in Start order. */
  type Line = seq<Interval>

  /** A crossing point. */
  datatype Point = Point(x: int, y: int)

  function Max(a: int, b: int): int { if a >= b then a else b }

  function Min(a: int, b: int): int { if a <= b then a else b }

  predicate WellFormed(iv: Interval) { iv.start <= iv.stop }

  predicate Contains(iv: Interval, p: int) { iv.start <= p <= iv.stop }

  predicate AllWellFormed(line: Line) {
    forall iv :: iv in line ==> WellFormed(iv)
  }

  /** The integer p lies on one of the line's intervals. */
  ghost predicate Covers(line: Line, p: int) {
    exists iv :: iv in line && Contains(iv, p)
  }

  /** Two lines cover exactly the same integers. */
  ghost predicate SameCoverage(a: Line, b: Line) {
    forall p :: Covers(a, p) <==> Covers(b, p)
  }

  /** The unit step from p to p + 1 lies inside one interval of the line:
      the two integers are joined, not merely both covered. */
  ghost predicate Links(line: Line, p: int) {
    exists iv :: iv in line && iv.start <= p && p + 1 <= iv.stop
  }

  /** Two lines join exactly the same neighbouring integers. */
  ghost predicate SameLinks(a: Line, b: Line) {
    forall p :: Links(a, p) <==> Links(b, p)
  }

  /** Every step from p to p + 1 with lo <= p < hi is joined by the line. */
  ghost predicate Chains(line: Line, lo: int, hi: int) {
    forall p :: lo <= p < hi ==> Links(line, p)
  }

  /** Every integer of [lo, hi] is covered by the line. */
  ghost predicate Spans(line: Line, lo: int, hi: int) {
    forall p :: lo <= p <= hi ==> Covers(line, p)
  }

  /** Start order with distinct starts: the order of the source's
      SortedSet<StartStop>, whose comparer looks at Start only. */
  predicate StartsIncreasing(line: Line) {
    forall i, j :: 0 <= i < j < |line| ==> line[i].start < line[j].start
  }

  /** No interval starts at or before the stop of an earlier one: neither
      overlapping nor touching intervals remain. */
  predicate Separated(line: Line) {
    forall i, j :: 0 <= i < j < |line| ==> line[i].stop < line[j].start
  }

  /** The shape of a consolidated line. */
  predicate Consolidated(line: Line) {
    StartsIncreasing(line) && Separated(line)
  }

  function Starts(line: Line): set<int> {
    set iv | iv in line :: iv.start
  }

  /** A stretch that starts inside a covered stretch and stays covered
      extends it. */
  lemma SpansJoin(line: Line, lo: int, mid: int, hi: int, lo2: int)
    requires Spans(line, lo, mid)
    requires Spans(line, lo2, hi)
    requires lo <= lo2 <= mid
    ensures Spans(line, lo, Max(mid, hi))
  {
  }

  /** Each interval of a line spans itself. */
  lemma SpansOwn(line: Line)
    ensures forall k :: 0 <= k < |line| ==> Spans(line, line[k].start, line[k].stop)
  {
    forall k | 0 <= k < |line| ensures Spans(line, line[k].start, line[k].stop) {
      SpansAt(line, k);
    }
  }

  lemma SpansAt(line: Line, k: int)
    requires 0 <= k < |line|
    ensures Spans(line, line[k].start, line[k].stop)
  {
    assert line[k] in line;
  }

  /** Each interval of a line chains itself. */
  lemma ChainsAt(line: Line, k: int)
    requires 0 <= k < |line|
    ensures Chains(line, line[k].start, line[k].stop)
  {
    assert line[k] in line;
  }

  /** Two joined stretches, the second starting no later than the first
      ends, form one joined stretch. */
  lemma ChainsJoin(line: Line, lo: int, mid: int, hi: int, lo2: int)
    requires Chains(line, lo, mid)
    requires Chains(line, lo2, hi)
    requires lo2 <= mid
    ensures Chains(line, lo, Max(mid, hi))
  {
  }

  /** Dropping the first interval of a consolidated line leaves exactly the
      covered integers and joined steps beyond its stop. */
  lemma TailBeyondHead(a: Line)
    requires Consolidated(a) && |a| > 0
    ensures Consolidated(a[1..])
    ensures forall p :: Covers(a[1..], p) <==> Covers(a, p) && a[0].stop < p
    ensures forall p :: Links(a[1..], p) <==> Links(a, p) && a[0].stop < p
  {
    var t := a[1..];
    forall p ensures Covers(t, p) <==> Covers(a, p) && a[0].stop < p {
      CoversBeyondHead(a, p);
    }
    forall p ensures Links(t, p) <==> Links(a, p) && a[0].stop < p {
      LinksBeyondHead(a, p);
    }
  }

  lemma CoversBeyondHead(a: Line, p: int)
    requires Consolidated(a) && |a| > 0
    ensures Covers(a[1..], p) <==> Covers(a, p) && a[0].stop < p
  {
    var t := a[1..];
    if Covers(t, p) {
      var w :| w in t && Contains(w, p);
      var k :| 0 <= k < |t| && t[k] == w;
      assert a[k + 1] == w;
    }
    if Covers(a, p) && a[0].stop < p {
      var w :| w in a && Contains(w, p);
      var k :| 0 <= k < |a| && a[k] == w;
      assert t[k - 1] == w;
    }
  }

  lemma LinksBeyondHead(a: Line, p: int)
    requires Consolidated(a) && |a| > 0
    ensures Links(a[1..], p) <==> Links(a, p) && a[0].stop < p
  {
    var t := a[1..];
    if Links(t, p) {
      var w :| w in t && w.start <= p && p + 1 <= w.stop;
      var k :| 0 <= k < |t| && t[k] == w;
      assert a[k + 1] == w;
    }
    if Links(a, p) && a[0].stop < p {
      var w :| w in a && w.start <= p && p + 1 <= w.stop;
      var k :| 0 <= k < |a| && a[k] == w;
      assert t[k - 1] == w;
    }
  }

  /** A consolidated line of well-formed intervals is determined by the
      integers it covers and the steps it joins: each interval is a maximal
      run of covered integers joined step by step. */
  lemma {:induction false} ConsolidatedUnique(a: Line, b: Line)
    requires Consolidated(a) && Consolidated(b)
    requires AllWellFormed(a) && AllWellFormed(b)
    requires SameCoverage(a, b) && SameLinks(a, b)
    ensures a == b
    decreases |a| + |b|
  {
    if |a| == 0 || |b| == 0 {
      if |a| > 0 {
        assert a[0] in a && Covers(a, a[0].start);
      }
      if |b| > 0 {
        assert b[0] in b && Covers(b, b[0].start);
      }
    } else {
      TailsAlike(a, b);
      ConsolidatedUnique(a[1..], b[1..]);
      assert a == [a[0]] + a[1..] && b == [b[0]] + b[1..];
    }
  }

  /** Two such lines share their first interval, and what follows it again
      covers and joins alike. */
  lemma TailsAlike(a: Line, b: Line)
    requires Consolidated(a) && Consolidated(b) && |a| > 0 && |b| > 0
    requires AllWellFormed(a) && AllWellFormed(b)
    requires SameCoverage(a, b) && SameLinks(a, b)
    ensures a[0] == b[0]
    ensures Consolidated(a[1..]) && Consolidated(b[1..])
    ensures AllWellFormed(a[1..]) && AllWellFormed(b[1..])
    ensures SameCoverage(a[1..], b[1..]) && SameLinks(a[1..], b[1..])
  {
    HeadsAgree(a, b);
    HeadsAgree(b, a);
    assert a[0] in a && b[0] in b;
    TailBeyondHead(a);
    TailBeyondHead(b);
    assert forall iv :: iv in a[1..] ==> iv in a;
    assert forall iv :: iv in b[1..] ==> iv in b;
  }

  /** The first interval of b starts no later, and stops no earlier, than
      the first interval of a, when both lines cover and join alike. */
  lemma HeadsAgree(a: Line, b: Line)
    requires Consolidated(a) && Consolidated(b) && |a| > 0 && |b| > 0
    requires AllWellFormed(a)
    requires SameCoverage(a, b) && SameLinks(a, b)
    ensures b[0].start <= a[0].start
    ensures b[0].start == a[0].start && WellFormed(b[0]) ==> a[0].stop <= b[0].stop
  {
    assert a[0] in a && Contains(a[0], a[0].start);
    assert Covers(b, a[0].start);
    var w :| w in b && Contains(w, a[0].start);
    var k :| 0 <= k < |b| && b[k] == w;
    assert b[0].start <= b[k].start;
    NoLinkAtHeadStop(b);
    assert a[0] in a;
  }

  /** A consolidated line does not join the stop of its first interval to
      the next integer. */
  lemma NoLinkAtHeadStop(b: Line)
    requires Consolidated(b) && |b| > 0
    ensures !Links(b, b[0].stop)
  {
    forall u | u in b ensures !(u.start <= b[0].stop && b[0].stop + 1 <= u.stop) {
      var m :| 0 <= m < |b| && b[m] == u;
      if m > 0 {
        assert b[0].stop < b[m].start;
      }
    }
  }

  /** A non-empty key set has an element. */
  lemma NonEmptyHasKey(keys: set<int>)
    requires keys != {}
    ensures exists k :: k in keys
  {
    if forall k :: k !in keys {
      assert false;
    }
  }

  /** Some key of a non-empty key set. Which one is left open: the model
      does not fix the enumeration order of a Dictionary. */
  method PickKey(keys: set<int>) returns (k: int)
    requires keys != {}
    ensures k in keys
  {
    NonEmptyHasKey(keys);
    k :| k in keys;
  }
}
