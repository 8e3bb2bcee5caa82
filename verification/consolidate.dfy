/** The consolidation pass of Compute.Go, run over every line of HStrokes and
    then of VStrokes (the two loops are the same code): for each interval A in
    Start order, scan forward over B while B.Start <= A.Stop, marking every B
    not yet dead as dead and widening A.Stop over it; remove the dead ones at
    the end.

    The line's intervals are positions 0..n-1 of a Start-ordered sequence.
    Their current stops and dead marks live in two sequences of their own,
    `stops` and `dead`, so the pass is a functional update of those. */
module Consolidate {
  import opened Intervals
  import opened Strokes

  /** What holds after the outer loop has visited positions 0..i-1. The ghost
      `killer[b]` records which interval absorbed a dead interval b. */
  ghost predicate ScanState(line: Line, stops: seq<int>, dead: seq<bool>, killer: seq<int>, i: int)
  {
    var n := |line|;
    && |stops| == n && |dead| == n && |killer| == n && 0 <= i <= n
    // positions not yet visited by the outer loop keep their own stop
    && (forall k :: i <= k < n ==> stops[k] == line[k].stop)
    // stops only grow
    && (forall k :: 0 <= k < n ==> line[k].stop <= stops[k])
    // a widened interval never reaches beyond the line's coverage
    && (forall k :: 0 <= k < n ==> Spans(line, line[k].start, stops[k]))
    // ... and joins only steps the line itself joins
    && (forall k :: 0 <= k < n ==> Chains(line, line[k].start, stops[k]))
    // a visited survivor has absorbed everything that starts within its reach
    && (forall a, b :: 0 <= a < i && a < b < n && !dead[a] && line[b].start <= stops[a] ==> dead[b])
    // every dead interval lies inside an earlier visited survivor
    && (forall b :: 0 <= b < n && dead[b] ==>
          0 <= killer[b] < b && killer[b] < i && !dead[killer[b]] && line[b].stop <= stops[killer[b]])
  }

  /** One turn of the outer loop (Program.cs lines 211-239 and 257-285): the
      interval at position i scans forward and absorbs. The source does not
      skip an interval that is already dead; the second ensures shows that
      its scan then changes nothing, because whatever it could reach was
      already absorbed by the interval that absorbed it. */
  method AbsorbFrom(line: Line, stops0: seq<int>, dead0: seq<bool>, ghost killer0: seq<int>, i: int)
    returns (stops: seq<int>, dead: seq<bool>, ghost killer: seq<int>)
    requires StartsIncreasing(line)
    requires 0 <= i < |line|
    requires ScanState(line, stops0, dead0, killer0, i)
    ensures ScanState(line, stops, dead, killer, i + 1)
    ensures forall b :: 0 <= b < |line| && dead[b] && !dead0[b] ==>
              i < b && line[b].start <= stops[i] && line[b].stop <= stops[i]
    ensures stops[i] == stops0[i] || exists b :: 0 <= b < |line| && dead[b] && !dead0[b] && stops[i] == line[b].stop
    ensures dead0[i] ==> stops == stops0 && dead == dead0
    ensures i + 1 == |line| || stops0[i] < line[i + 1].start ==> stops == stops0 && dead == dead0
    ensures forall k :: 0 <= k < |line| && k != i ==> stops[k] == stops0[k]
    ensures forall k :: 0 <= k <= i ==> dead[k] == dead0[k]
  {
    DeadScanReachesOnlyDead(line, stops0, dead0, killer0, i);
    var j;
    ghost var from;
    stops, dead, killer, j, from := ScanForward(line, stops0, dead0, killer0, i);
    ScanAdvance(line, stops0, dead0, killer0, stops, dead, killer, i, j);
    if from != i {
      assert dead[from] && !dead0[from];
    }
  }

  /** An interval already dead when the outer loop reaches it lies within the
      survivor that absorbed it, and that survivor has already absorbed
      everything starting within its reach. */
  lemma DeadScanReachesOnlyDead(line: Line, stops0: seq<int>, dead0: seq<bool>, killer0: seq<int>, i: int)
    requires StartsIncreasing(line)
    requires 0 <= i < |line|
    requires ScanState(line, stops0, dead0, killer0, i)
    ensures dead0[i] ==> forall b :: i < b < |line| && line[b].start <= stops0[i] ==> dead0[b]
  {
    if dead0[i] {
      var a := killer0[i];
      assert stops0[i] == line[i].stop <= stops0[a];
    }
  }

  /** The outer-loop invariant survives one turn. */
  lemma ScanAdvance(line: Line, stops0: seq<int>, dead0: seq<bool>, killer0: seq<int>,
                    stops: seq<int>, dead: seq<bool>, killer: seq<int>, i: int, j: int)
    requires StartsIncreasing(line)
    requires 0 <= i < |line|
    requires ScanState(line, stops0, dead0, killer0, i)
    requires ScanFrame(line, stops0, dead0, killer0, i, stops, dead, killer, j)
    requires j == |line| || stops[i] < line[j].start
    requires Spans(line, line[i].start, stops[i])
    requires Chains(line, line[i].start, stops[i])
    requires dead0[i] ==> stops == stops0 && dead == dead0
    ensures ScanState(line, stops, dead, killer, i + 1)
  {
    var n := |line|;
    forall a, b | 0 <= a < i + 1 && a < b < n && !dead[a] && line[b].start <= stops[a]
      ensures dead[b]
    {
      if a != i {
        assert stops[a] == stops0[a];
      }
    }
    forall b | 0 <= b < n && dead[b]
      ensures 0 <= killer[b] < b && killer[b] < i + 1 && !dead[killer[b]] && line[b].stop <= stops[killer[b]]
    {
      if dead0[b] {
        assert killer[b] == killer0[b];
      }
    }
  }

  /** What one inner scan from position i to j does to the pass state: only
      A's stop changes, and it only grows; exactly the positions i+1..j-1
      are dead afterwards; each one newly marked was absorbed by A and lies
      within A's new stop. */
  ghost predicate ScanFrame(line: Line, stops0: seq<int>, dead0: seq<bool>, killer0: seq<int>, i: int,
                            stops: seq<int>, dead: seq<bool>, killer: seq<int>, j: int)
    requires |stops0| == |line| && |dead0| == |line| && |killer0| == |line| && 0 <= i < |line|
  {
    var n := |line|;
    && i + 1 <= j <= n
    && |stops| == n && |dead| == n && |killer| == n
    && stops == stops0[i := stops[i]]
    && stops0[i] <= stops[i]
    && (forall k :: 0 <= k < n ==> dead[k] == (dead0[k] || i < k < j))
    && (forall k :: 0 <= k < n && !(i < k < j && !dead0[k]) ==> killer[k] == killer0[k])
    && (forall b :: i < b < j && !dead0[b] ==> killer[b] == i)
    && (forall b :: i < b < j && !dead0[b] ==> line[b].start <= stops[i] && line[b].stop <= stops[i])
  }

  /** Every B at positions i+1..j-1 starts within A's running stop: A's stop
      before the scan, or the stop of an interval absorbed before B. */
  ghost predicate RunningReach(line: Line, stops0: seq<int>, dead0: seq<bool>, i: int, j: int)
    requires |stops0| == |line| && |dead0| == |line| && 0 <= i < j <= |line|
  {
    forall b :: i < b < j ==>
      line[b].start <= stops0[i] || exists c :: i < c < b && !dead0[c] && line[b].start <= line[c].stop
  }

  /** The inner scan itself: B runs over positions i+1, i+2, ... while
      B.Start <= A.Stop; a B not yet dead is marked dead and A.Stop widened
      over it. Returns where the scan stopped and, as a ghost, the position
      whose stop A.Stop ended at (i itself when nothing widened it). When A
      is itself dead and everything starting within its reach is already
      dead, the scan changes nothing. */
  method ScanForward(line: Line, stops0: seq<int>, dead0: seq<bool>, ghost killer0: seq<int>, i: int)
    returns (stops: seq<int>, dead: seq<bool>, ghost killer: seq<int>, j: int, ghost from: int)
    requires StartsIncreasing(line)
    requires |stops0| == |line| && |dead0| == |line| && |killer0| == |line| && 0 <= i < |line|
    requires forall k :: i < k < |line| ==> stops0[k] == line[k].stop
    requires Spans(line, line[i].start, stops0[i])
    requires Chains(line, line[i].start, stops0[i])
    requires dead0[i] ==> forall b :: i < b < |line| && line[b].start <= stops0[i] ==> dead0[b]
    ensures ScanFrame(line, stops0, dead0, killer0, i, stops, dead, killer, j)
    ensures j == |line| || stops[i] < line[j].start
    ensures Spans(line, line[i].start, stops[i])
    ensures Chains(line, line[i].start, stops[i])
    ensures RunningReach(line, stops0, dead0, i, j)
    ensures (from == i && stops[i] == stops0[i]) || (i < from < j && !dead0[from] && stops[i] == line[from].stop)
    ensures dead0[i] ==> stops == stops0 && dead == dead0
    ensures i + 1 == |line| || stops0[i] < line[i + 1].start ==> stops == stops0 && dead == dead0
  {
    stops, dead, killer := stops0, dead0, killer0;
    var n := |line|;
    j := i + 1;
    from := i;
    while j < n && line[j].start <= stops[i]
      invariant i + 1 <= j <= n
      invariant Scanning(line, stops0, dead0, killer0, i, stops, dead, killer, j, from)
      decreases n - j
    {
      if !dead[j] {
        ScanAbsorb(line, stops0, dead0, killer0, i, stops, dead, killer, j, from);
        dead := dead[j := true];
        if stops[j] > stops[i] {
          from := j;
        }
        stops := stops[i := Max(stops[i], stops[j])];
        killer := killer[j := i];
      } else {
        ScanSkip(line, stops0, dead0, killer0, i, stops, dead, killer, j, from);
      }
      j := j + 1;
    }
  }

  /** The inner-loop invariant of ScanForward, B being at position j. */
  ghost predicate Scanning(line: Line, stops0: seq<int>, dead0: seq<bool>, killer0: seq<int>, i: int,
                           stops: seq<int>, dead: seq<bool>, killer: seq<int>, j: int, from: int)
    requires |stops0| == |line| && |dead0| == |line| && |killer0| == |line| && 0 <= i < |line|
  {
    && ScanFrame(line, stops0, dead0, killer0, i, stops, dead, killer, j)
    && Spans(line, line[i].start, stops[i])
    && Chains(line, line[i].start, stops[i])
    && RunningReach(line, stops0, dead0, i, j)
    && ((from == i && stops[i] == stops0[i]) || (i < from < j && !dead0[from] && stops[i] == line[from].stop))
    && (dead0[i] ==> stops == stops0 && dead == dead0)
    && (j == i + 1 ==> stops == stops0)
    && (i + 1 < |line| && stops0[i] < line[i + 1].start ==> j == i + 1)
  }

  /** B at position j starts within A's stop and is not yet dead: marking it
      and widening A over it keeps the inner-loop invariant. */
  lemma ScanAbsorb(line: Line, stops0: seq<int>, dead0: seq<bool>, killer0: seq<int>, i: int,
                   stops: seq<int>, dead: seq<bool>, killer: seq<int>, j: int, from: int)
    requires StartsIncreasing(line)
    requires |stops0| == |line| && |dead0| == |line| && |killer0| == |line| && 0 <= i < |line|
    requires forall k :: i < k < |line| ==> stops0[k] == line[k].stop
    requires dead0[i] ==> forall b :: i < b < |line| && line[b].start <= stops0[i] ==> dead0[b]
    requires Scanning(line, stops0, dead0, killer0, i, stops, dead, killer, j, from)
    requires j < |line| && line[j].start <= stops[i] && !dead[j]
    ensures Scanning(line, stops0, dead0, killer0, i, stops[i := Max(stops[i], stops[j])], dead[j := true],
                     killer[j := i], j + 1, if stops[j] > stops[i] then j else from)
  {
    WidenOver(line, i, j, stops[i]);
  }

  /** B at position j is already dead: the scan passes over it. */
  lemma ScanSkip(line: Line, stops0: seq<int>, dead0: seq<bool>, killer0: seq<int>, i: int,
                 stops: seq<int>, dead: seq<bool>, killer: seq<int>, j: int, from: int)
    requires |stops0| == |line| && |dead0| == |line| && |killer0| == |line| && 0 <= i < |line|
    requires Scanning(line, stops0, dead0, killer0, i, stops, dead, killer, j, from)
    requires j < |line| && line[j].start <= stops[i] && dead[j]
    ensures Scanning(line, stops0, dead0, killer0, i, stops, dead, killer, j + 1, from)
  {
  }

  /** Widening A's stop over a B that starts within it keeps A spanned and
      joined step by step. */
  lemma WidenOver(line: Line, i: int, j: int, stop: int)
    requires 0 <= i < j < |line| && line[i].start <= line[j].start
    requires Spans(line, line[i].start, stop) && Chains(line, line[i].start, stop)
    requires line[j].start <= stop
    ensures Spans(line, line[i].start, Max(stop, line[j].stop))
    ensures Chains(line, line[i].start, Max(stop, line[j].stop))
  {
    SpansAt(line, j);
    SpansJoin(line, line[i].start, stop, line[j].stop, line[j].start);
    ChainsAt(line, j);
    ChainsJoin(line, line[i].start, stop, line[j].stop, line[j].start);
  }

  /** The intervals at positions lo and up that are not dead, each with its
      widened stop, in Start order: what is left once the toRemove list has
      been removed. */
  function Survivors(line: Line, stops: seq<int>, dead: seq<bool>, lo: int): (r: Line)
    requires |stops| == |line| && |dead| == |line| && 0 <= lo <= |line|
    ensures |r| <= |line| - lo
    ensures forall w :: w in r <==> exists k :: lo <= k < |line| && !dead[k] && w == Interval(line[k].start, stops[k])
    decreases |line| - lo
  {
    if lo == |line| then []
    else
      var rest := Survivors(line, stops, dead, lo + 1);
      if dead[lo] then rest else [Interval(line[lo].start, stops[lo])] + rest
  }

  /** Survivors keep the order of their positions. */
  lemma {:induction false} SurvivorsOrdered(line: Line, stops: seq<int>, dead: seq<bool>, lo: int)
    requires |stops| == |line| && |dead| == |line| && 0 <= lo <= |line|
    requires forall a, b :: lo <= a < b < |line| && !dead[a] && !dead[b] ==>
               line[a].start < line[b].start && stops[a] < line[b].start
    ensures Consolidated(Survivors(line, stops, dead, lo))
    decreases |line| - lo
  {
    if lo < |line| {
      SurvivorsOrdered(line, stops, dead, lo + 1);
      var rest := Survivors(line, stops, dead, lo + 1);
      if !dead[lo] {
        var head := Interval(line[lo].start, stops[lo]);
        var r := [head] + rest;
        forall i, j | 0 <= i < j < |r| ensures r[i].start < r[j].start && r[i].stop < r[j].start {
          assert r[j] == rest[j - 1];
          if i == 0 {
            assert rest[j - 1] in rest;
          } else {
            assert r[i] == rest[i - 1];
          }
        }
      }
    }
  }

  /** With nothing dead and no stop widened, the survivors are the line. */
  lemma {:induction false} SurvivorsAllAlive(line: Line, stops: seq<int>, dead: seq<bool>, lo: int)
    requires |stops| == |line| && |dead| == |line| && 0 <= lo <= |line|
    requires forall k :: lo <= k < |line| ==> !dead[k] && stops[k] == line[k].stop
    ensures Survivors(line, stops, dead, lo) == line[lo..]
    decreases |line| - lo
  {
    if lo < |line| {
      SurvivorsAllAlive(line, stops, dead, lo + 1);
      assert line[lo..] == [line[lo]] + line[lo + 1..];
    }
  }

  /** The outer loop over positions 0..n-1 (Program.cs lines 211-239): when
      it ends, every survivor has absorbed all that starts within its reach,
      every dead interval lies inside an earlier survivor, and on a line with
      nothing to merge nothing is dead or widened. */
  method ScanAll(line: Line) returns (stops: seq<int>, dead: seq<bool>, ghost killer: seq<int>)
    requires StartsIncreasing(line)
    ensures ScanState(line, stops, dead, killer, |line|)
    ensures Separated(line) ==> forall k :: 0 <= k < |line| ==> !dead[k] && stops[k] == line[k].stop
  {
    var n := |line|;
    stops := seq(n, k requires 0 <= k < n => line[k].stop);
    dead := seq(n, k => false);
    killer := seq(n, k => 0);
    SpansOwn(line);
    forall k | 0 <= k < n ensures Chains(line, line[k].start, stops[k]) {
      ChainsAt(line, k);
    }
    var i := 0;
    while i < n
      invariant ScanState(line, stops, dead, killer, i)
      invariant Separated(line) ==> forall k :: 0 <= k < n ==> !dead[k] && stops[k] == line[k].stop
      decreases n - i
    {
      stops, dead, killer := AbsorbFrom(line, stops, dead, killer, i);
      i := i + 1;
    }
  }

  /** The pass on one line. Lines of fewer than two intervals are skipped, as
      in the source. */
  method ConsolidateLine(line: Line) returns (out: Line)
    requires StartsIncreasing(line)
    ensures Consolidated(out)
    ensures SameCoverage(line, out)
    ensures SameLinks(line, out)
    ensures Starts(out) <= Starts(line)
    ensures forall i, j :: 0 <= i < |out| && 0 <= j < |line| && out[i].start == line[j].start ==>
              line[j].stop <= out[i].stop
    ensures |out| <= |line|
    ensures |line| > 0 ==> |out| > 0
    ensures AllWellFormed(line) ==> AllWellFormed(out)
    ensures |line| < 2 ==> out == line
    ensures Separated(line) ==> out == line
  {
    if |line| < 2 {
      return line;
    }
    var stops, dead, killer := ScanAll(line);
    out := Survivors(line, stops, dead, 0);
    SurvivorsShape(line, stops, dead, killer);
    SurvivorsCoverage(line, stops, dead, killer);
    SurvivorsLinks(line, stops, dead, killer);
    SurvivorsStarts(line, stops, dead, killer);
  }

  /** After the last turn of the outer loop the survivors form a consolidated
      line, keep the first interval, and are the line itself when nothing
      overlapped. */
  lemma SurvivorsShape(line: Line, stops: seq<int>, dead: seq<bool>, killer: seq<int>)
    requires StartsIncreasing(line) && |line| > 0
    requires ScanState(line, stops, dead, killer, |line|)
    requires Separated(line) ==> forall k :: 0 <= k < |line| ==> !dead[k] && stops[k] == line[k].stop
    ensures var out := Survivors(line, stops, dead, 0);
      Consolidated(out) && |out| > 0 && (Separated(line) ==> out == line)
  {
    var out := Survivors(line, stops, dead, 0);
    SurvivorsOrdered(line, stops, dead, 0);
    if Separated(line) {
      SurvivorsAllAlive(line, stops, dead, 0);
    }
    assert Interval(line[0].start, stops[0]) in out;
  }

  /** After the last turn of the outer loop the survivors cover exactly what
      the line covered. */
  lemma SurvivorsCoverage(line: Line, stops: seq<int>, dead: seq<bool>, killer: seq<int>)
    requires StartsIncreasing(line)
    requires ScanState(line, stops, dead, killer, |line|)
    ensures SameCoverage(line, Survivors(line, stops, dead, 0))
  {
    var out := Survivors(line, stops, dead, 0);
    forall p ensures Covers(line, p) <==> Covers(out, p) {
      if Covers(line, p) {
        var iv :| iv in line && Contains(iv, p);
        var k :| 0 <= k < |line| && line[k] == iv;
        var r := if dead[k] then killer[k] else k;
        assert r <= k && line[r].start <= line[k].start;
        assert Interval(line[r].start, stops[r]) in out;
      }
      if Covers(out, p) {
        var w :| w in out && Contains(w, p);
        var k :| 0 <= k < |line| && !dead[k] && w == Interval(line[k].start, stops[k]);
      }
    }
  }

  /** After the last turn of the outer loop the survivors join exactly the
      steps the line joined: intervals that merely sit on neighbouring
      integers, such as [0, 1] and [2, 5], are not merged. */
  lemma SurvivorsLinks(line: Line, stops: seq<int>, dead: seq<bool>, killer: seq<int>)
    requires StartsIncreasing(line)
    requires ScanState(line, stops, dead, killer, |line|)
    ensures SameLinks(line, Survivors(line, stops, dead, 0))
  {
    var out := Survivors(line, stops, dead, 0);
    forall p ensures Links(line, p) <==> Links(out, p) {
      if Links(line, p) {
        var iv :| iv in line && iv.start <= p && p + 1 <= iv.stop;
        var k :| 0 <= k < |line| && line[k] == iv;
        var r := if dead[k] then killer[k] else k;
        assert r <= k && line[r].start <= line[k].start;
        assert Interval(line[r].start, stops[r]) in out;
      }
      if Links(out, p) {
        var w :| w in out && w.start <= p && p + 1 <= w.stop;
        var k :| 0 <= k < |line| && !dead[k] && w == Interval(line[k].start, stops[k]);
        assert Chains(line, line[k].start, stops[k]);
      }
    }
  }

  /** The survivors start where some original interval started, reach at
      least as far as the interval they started as, and stay well formed. */
  lemma SurvivorsStarts(line: Line, stops: seq<int>, dead: seq<bool>, killer: seq<int>)
    requires StartsIncreasing(line)
    requires ScanState(line, stops, dead, killer, |line|)
    ensures var out := Survivors(line, stops, dead, 0);
      && Starts(out) <= Starts(line)
      && (forall i, j :: 0 <= i < |out| && 0 <= j < |line| && out[i].start == line[j].start ==>
            line[j].stop <= out[i].stop)
      && (AllWellFormed(line) ==> AllWellFormed(out))
  {
    var out := Survivors(line, stops, dead, 0);
    forall s | s in Starts(out) ensures s in Starts(line) {
      var w :| w in out && w.start == s;
      var k :| 0 <= k < |line| && !dead[k] && w == Interval(line[k].start, stops[k]);
      assert line[k] in line;
    }
    forall i, j | 0 <= i < |out| && 0 <= j < |line| && out[i].start == line[j].start
      ensures line[j].stop <= out[i].stop
    {
      assert out[i] in out;
      var k :| 0 <= k < |line| && !dead[k] && out[i] == Interval(line[k].start, stops[k]);
      assert line[k].start == line[j].start;
    }
    if AllWellFormed(line) {
      forall w | w in out ensures WellFormed(w) {
        var k :| 0 <= k < |line| && !dead[k] && w == Interval(line[k].start, stops[k]);
        assert line[k] in line;
      }
    }
  }

  /** What ConsolidateLine promises of one line. */
  ghost predicate ConsolidationOf(line: Line, out: Line) {
    && Consolidated(out)
    && SameCoverage(line, out)
    && SameLinks(line, out)
    && Starts(out) <= Starts(line)
    && (forall i, j :: 0 <= i < |out| && 0 <= j < |line| && out[i].start == line[j].start ==>
          line[j].stop <= out[i].stop)
    && |out| <= |line|
    && (|line| > 0 ==> |out| > 0)
    && (AllWellFormed(line) ==> AllWellFormed(out))
    && (|line| < 2 || Separated(line) ==> out == line)
  }

  /** On a line of well-formed intervals the promise fixes the result: there
      is only one consolidation of it. */
  lemma ConsolidationDetermined(line: Line, out1: Line, out2: Line)
    requires AllWellFormed(line)
    requires ConsolidationOf(line, out1) && ConsolidationOf(line, out2)
    ensures out1 == out2
  {
    ConsolidatedUnique(out1, out2);
  }

  /** The merge test is B.Start <= A.Stop: a touching interval is
      absorbed. */
  lemma TouchingMerges(out: Line)
    requires ConsolidationOf([Interval(0, 1), Interval(1, 3)], out)
    ensures out == [Interval(0, 3)]
  {
    var a := [Interval(0, 1), Interval(1, 3)];
    var a1 := [Interval(0, 3)];
    forall p ensures Covers(a, p) <==> Covers(a1, p) {
      assert a[0] in a && a[1] in a && a1[0] in a1;
    }
    forall p ensures Links(a, p) <==> Links(a1, p) {
      assert a[0] in a && a[1] in a && a1[0] in a1;
    }
    ConsolidatedUnique(out, a1);
  }

  /** The test is made against A's running stop: absorbing the point
      interval [1, 1] does not carry [0, 1] any further, so [2, 5], which
      starts at the next integer, stays apart. */
  lemma NeighboursStayApart(out: Line)
    requires ConsolidationOf([Interval(0, 1), Interval(1, 1), Interval(2, 5)], out)
    ensures out == [Interval(0, 1), Interval(2, 5)]
  {
    var b := [Interval(0, 1), Interval(1, 1), Interval(2, 5)];
    var b2 := [Interval(0, 1), Interval(2, 5)];
    forall p ensures Covers(b, p) <==> Covers(b2, p) {
      assert b[0] in b && b[1] in b && b[2] in b && b2[0] in b2 && b2[1] in b2;
    }
    forall p ensures Links(b, p) <==> Links(b2, p) {
      assert b[0] in b && b[1] in b && b[2] in b && b2[0] in b2 && b2[1] in b2;
    }
    ConsolidatedUnique(out, b2);
  }

  /** The pass over a whole stroke map (the foreach over the dictionary); the
      order in which keys are visited is left open. */
  method ConsolidateStrokes(m: StrokeMap) returns (r: StrokeMap)
    requires SortedLines(m)
    ensures r.Keys == m.Keys
    ensures forall k :: k in m ==> ConsolidationOf(m[k], r[k])
  {
    r := map[];
    var todo := m.Keys;
    while todo != {}
      invariant todo <= m.Keys
      invariant r.Keys == m.Keys - todo
      invariant forall k :: k in r ==> ConsolidationOf(m[k], r[k])
      decreases todo
    {
      var k := PickKey(todo);
      var line := ConsolidateLine(m[k]);
      r := r[k := line];
      todo := todo - {k};
    }
  }
}
