/** The per-line stroke index (the VStrokes and HStrokes dictionaries of
    Compute): a map from the fixed coordinate to that line's intervals in
    Start order, with the insert-or-extend rule the tracer relies on. */
module Strokes {
  import opened Intervals

  type StrokeMap = map<int, Line>

  /** Every line of the map is in Start order with distinct starts. */
  predicate SortedLines(m: StrokeMap) {
    forall k :: k in m ==> StartsIncreasing(m[k])
  }

  predicate AllWellFormedLines(m: StrokeMap) {
    forall k :: k in m ==> AllWellFormed(m[k])
  }

  /** Adds `iv` to a Start-ordered line. An interval with the same start
      already on the line is widened to the larger stop instead of gaining a
      duplicate; otherwise `iv` is inserted at its place in Start order. */
  function InsertOrExtend(line: Line, iv: Interval): (r: Line)
    requires StartsIncreasing(line)
    ensures StartsIncreasing(r)
    ensures Starts(r) == Starts(line) + {iv.start}
    decreases |line|
  {
    if |line| == 0 then
      StartsCons(iv, []);
      [iv]
    else if iv.start < line[0].start then
      InsertFront(line, iv);
      [iv] + line
    else if iv.start == line[0].start then
      ExtendFront(line, iv);
      [Interval(iv.start, Max(line[0].stop, iv.stop))] + line[1..]
    else
      HeadBelowTail(line);
      var rest := InsertOrExtend(line[1..], iv);
      KeepFront(line, iv, rest);
      [line[0]] + rest
  }

  lemma InsertFront(line: Line, iv: Interval)
    requires StartsIncreasing(line) && |line| > 0 && iv.start < line[0].start
    ensures StartsIncreasing([iv] + line)
    ensures Starts([iv] + line) == Starts(line) + {iv.start}
  {
    HeadBelowTail(line);
    StartsCons(iv, line);
    assert line == [line[0]] + line[1..];
    StartsCons(line[0], line[1..]);
    ConsIncreasing(iv, line);
  }

  lemma ExtendFront(line: Line, iv: Interval)
    requires StartsIncreasing(line) && |line| > 0 && iv.start == line[0].start
    ensures var merged := Interval(iv.start, Max(line[0].stop, iv.stop));
      StartsIncreasing([merged] + line[1..]) && Starts([merged] + line[1..]) == Starts(line) + {iv.start}
  {
    var merged := Interval(iv.start, Max(line[0].stop, iv.stop));
    HeadBelowTail(line);
    assert line == [line[0]] + line[1..];
    StartsCons(line[0], line[1..]);
    StartsCons(merged, line[1..]);
    ConsIncreasing(merged, line[1..]);
  }

  lemma KeepFront(line: Line, iv: Interval, rest: Line)
    requires StartsIncreasing(line) && |line| > 0 && line[0].start < iv.start
    requires StartsIncreasing(rest) && Starts(rest) == Starts(line[1..]) + {iv.start}
    ensures StartsIncreasing([line[0]] + rest)
    ensures Starts([line[0]] + rest) == Starts(line) + {iv.start}
  {
    HeadBelowTail(line);
    assert line == [line[0]] + line[1..];
    StartsCons(line[0], line[1..]);
    StartsCons(line[0], rest);
    ConsIncreasing(line[0], rest);
  }

  lemma StartsCons(a: Interval, tail: Line)
    ensures Starts([a] + tail) == {a.start} + Starts(tail)
  {
    var full := [a] + tail;
    assert forall w :: w in full <==> w == a || w in tail;
  }

  /** The head of a Start-ordered line starts below every interval after it. */
  lemma HeadBelowTail(line: Line)
    requires StartsIncreasing(line) && |line| > 0
    ensures StartsIncreasing(line[1..])
    ensures forall s :: s in Starts(line[1..]) ==> line[0].start < s
  {
    var tail := line[1..];
    forall s | s in Starts(tail) ensures line[0].start < s {
      var w :| w in tail && w.start == s;
      var k :| 0 <= k < |tail| && tail[k] == w;
      assert line[k + 1] == w;
    }
  }

  /** Putting an interval in front of a Start-ordered line whose starts all
      lie above it keeps Start order. */
  lemma ConsIncreasing(a: Interval, tail: Line)
    requires StartsIncreasing(tail)
    requires forall s :: s in Starts(tail) ==> a.start < s
    ensures StartsIncreasing([a] + tail)
  {
    var full := [a] + tail;
    forall i, j | 0 <= i < j < |full| ensures full[i].start < full[j].start {
      assert full[j] == tail[j - 1];
      if i == 0 {
        assert tail[j - 1] in tail && tail[j - 1].start in Starts(tail);
      } else {
        assert full[i] == tail[i - 1];
      }
    }
  }

  lemma CoversCons(a: Interval, tail: Line)
    ensures forall p :: Covers([a] + tail, p) <==> Contains(a, p) || Covers(tail, p)
  {
    var full := [a] + tail;
    assert forall w :: w in full <==> w == a || w in tail;
  }

  /** Inserting or extending adds exactly the integers of `iv` to the line's
      coverage. */
  lemma {:induction false} InsertOrExtendCoverage(line: Line, iv: Interval)
    requires StartsIncreasing(line)
    ensures forall p :: Covers(InsertOrExtend(line, iv), p) <==> Covers(line, p) || Contains(iv, p)
    decreases |line|
  {
    var r := InsertOrExtend(line, iv);
    if |line| == 0 {
      CoversCons(iv, []);
    } else {
      assert line == [line[0]] + line[1..];
      CoversCons(line[0], line[1..]);
      if iv.start < line[0].start {
        CoversCons(iv, line);
      } else if iv.start == line[0].start {
        var merged := Interval(iv.start, Max(line[0].stop, iv.stop));
        CoversCons(merged, line[1..]);
        assert forall p :: Contains(merged, p) <==> Contains(line[0], p) || Contains(iv, p);
      } else {
        HeadBelowTail(line);
        InsertOrExtendCoverage(line[1..], iv);
        CoversCons(line[0], InsertOrExtend(line[1..], iv));
      }
    }
  }

  /** A same-start interval is widened in place, every other interval kept. */
  lemma {:induction false} ExtendInPlace(line: Line, iv: Interval, k: int)
    requires StartsIncreasing(line)
    requires 0 <= k < |line| && line[k].start == iv.start
    ensures InsertOrExtend(line, iv) == line[k := Interval(iv.start, Max(line[k].stop, iv.stop))]
    decreases |line|
  {
    assert line == [line[0]] + line[1..];
    if k == 0 {
    } else {
      assert line[0].start < line[k].start;
      var tail := line[1..];
      HeadBelowTail(line);
      assert tail[k - 1] == line[k];
      ExtendInPlace(tail, iv, k - 1);
      assert line[k := Interval(iv.start, Max(line[k].stop, iv.stop))]
          == [line[0]] + tail[k - 1 := Interval(iv.start, Max(line[k].stop, iv.stop))];
    }
  }

  /** A new start is inserted without losing or altering any interval. */
  lemma {:induction false} InsertNew(line: Line, iv: Interval)
    requires StartsIncreasing(line)
    requires iv.start !in Starts(line)
    ensures multiset(InsertOrExtend(line, iv)) == multiset(line) + multiset{iv}
    decreases |line|
  {
    if |line| > 0 {
      assert line == [line[0]] + line[1..];
      assert line[0] in line;
      if iv.start > line[0].start {
        HeadBelowTail(line);
        assert forall w :: w in line[1..] ==> w in line;
        InsertNew(line[1..], iv);
      }
    }
  }

  /** Well-formed intervals stay well formed. */
  lemma InsertOrExtendWellFormed(line: Line, iv: Interval)
    requires StartsIncreasing(line)
    requires AllWellFormed(line) && WellFormed(iv)
    ensures AllWellFormed(InsertOrExtend(line, iv))
  {
    InsertOrExtendCoverage(line, iv);
    if iv.start in Starts(line) {
      var w :| w in line && w.start == iv.start;
      var k :| 0 <= k < |line| && line[k] == w;
      ExtendInPlace(line, iv, k);
      var r := InsertOrExtend(line, iv);
      forall u | u in r ensures WellFormed(u) {
        var j :| 0 <= j < |r| && r[j] == u;
        assert j == k || r[j] == line[j];
      }
    } else {
      InsertNew(line, iv);
      var r := InsertOrExtend(line, iv);
      forall u | u in r ensures WellFormed(u) {
        assert u in multiset(r);
      }
    }
  }

  /** The source's TryGetValue / new SortedSet / TryGetValue / Add sequence:
      creates the line when the key is absent, then inserts or extends. No
      other line changes. */
  function AddStroke(m: StrokeMap, key: int, iv: Interval): (r: StrokeMap)
    requires SortedLines(m)
    ensures SortedLines(r)
    ensures r.Keys == m.Keys + {key}
    ensures forall k :: k in m && k != key ==> r[k] == m[k]
  {
    m[key := InsertOrExtend(if key in m then m[key] else [], iv)]
  }

  /** The line under `key` comes to cover exactly what it covered before
      (nothing, if it was new) together with the integers of `iv`. */
  lemma AddStrokeCoverage(m: StrokeMap, key: int, iv: Interval)
    requires SortedLines(m)
    ensures forall p :: Covers(AddStroke(m, key, iv)[key], p) <==> (key in m && Covers(m[key], p)) || Contains(iv, p)
  {
    InsertOrExtendCoverage(if key in m then m[key] else [], iv);
  }

  /** Adding a well-formed interval keeps every line well formed. */
  lemma AddStrokeWellFormed(m: StrokeMap, key: int, iv: Interval)
    requires SortedLines(m)
    requires AllWellFormedLines(m) && WellFormed(iv)
    ensures AllWellFormedLines(AddStroke(m, key, iv))
  {
    InsertOrExtendWellFormed(if key in m then m[key] else [], iv);
  }
}
