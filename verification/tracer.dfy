/** The path tracer: the switch at the top of Compute.Go, which walks the
    (direction, length) moves from the origin and files every move as an
    interval of the column (U, D) or row (L, R) it runs along. */
module Tracer {
  import opened Intervals
  import opened Strokes

  /** One move of the path. The direction is any character; only U, D, L
      and R have an effect. */
  datatype Move = Move(dir: char, len: int)

  /** The cursor and the two stroke maps (VStrokes keyed by x, HStrokes keyed
      by y). */
  datatype TraceState = TraceState(x: int, y: int, v: StrokeMap, h: StrokeMap)

  const Origin: TraceState := TraceState(0, 0, map[], map[])

  predicate Valid(st: TraceState) {
    SortedLines(st.v) && SortedLines(st.h)
  }

  predicate IsVertical(d: char) { d == 'U' || d == 'D' }

  predicate IsHorizontal(d: char) { d == 'L' || d == 'R' }

  predicate NonNegative(moves: seq<Move>) {
    forall i :: 0 <= i < |moves| ==> moves[i].len >= 0
  }

  /** One turn of the trace loop. U and R file the interval (old, new), D and
      L file (new, old); an unknown direction falls through the switch. */
  function Step(st: TraceState, m: Move): (r: TraceState)
    requires Valid(st)
    ensures Valid(r)
  {
    if m.dir == 'U' then
      var final := st.y + m.len;
      TraceState(st.x, final, AddStroke(st.v, st.x, Interval(st.y, final)), st.h)
    else if m.dir == 'D' then
      var final := st.y - m.len;
      TraceState(st.x, final, AddStroke(st.v, st.x, Interval(final, st.y)), st.h)
    else if m.dir == 'L' then
      var final := st.x - m.len;
      TraceState(final, st.y, st.v, AddStroke(st.h, st.y, Interval(final, st.x)))
    else if m.dir == 'R' then
      var final := st.x + m.len;
      TraceState(final, st.y, st.v, AddStroke(st.h, st.y, Interval(st.x, final)))
    else
      st
  }

  /** The whole trace loop, a left fold of Step from the origin. */
  function Trace(moves: seq<Move>): (st: TraceState)
    ensures Valid(st)
    decreases |moves|
  {
    if |moves| == 0 then Origin
    else Step(Trace(moves[..|moves| - 1]), moves[|moves| - 1])
  }

  /** What a move of non-negative length does, whatever its direction: it
      files the interval from the smaller to the larger end coordinate under
      the coordinate it keeps, leaves the other map alone, and keeps every
      interval well formed. */
  ghost predicate StepLaws(st: TraceState, m: Move)
    requires Valid(st)
  {
    var r := Step(st, m);
    && (m.len >= 0 && IsVertical(m.dir) ==>
          r.x == st.x && r.h == st.h && r.v == AddStroke(st.v, st.x, Interval(Min(st.y, r.y), Max(st.y, r.y))))
    && (m.len >= 0 && IsHorizontal(m.dir) ==>
          r.y == st.y && r.v == st.v && r.h == AddStroke(st.h, st.y, Interval(Min(st.x, r.x), Max(st.x, r.x))))
    && (m.len >= 0 && AllWellFormedLines(st.v) && AllWellFormedLines(st.h) ==>
          AllWellFormedLines(r.v) && AllWellFormedLines(r.h))
  }

  lemma StepUpLaws(st: TraceState, m: Move)
    requires Valid(st) && m.dir == 'U'
    ensures StepLaws(st, m)
  {
    assert Step(st, m) == TraceState(st.x, st.y + m.len, AddStroke(st.v, st.x, Interval(st.y, st.y + m.len)), st.h);
    if m.len >= 0 {
      assert Interval(Min(st.y, st.y + m.len), Max(st.y, st.y + m.len)) == Interval(st.y, st.y + m.len);
      if AllWellFormedLines(st.v) && AllWellFormedLines(st.h) {
        AddStrokeWellFormed(st.v, st.x, Interval(st.y, st.y + m.len));
      }
    }
  }

  lemma StepDownLaws(st: TraceState, m: Move)
    requires Valid(st) && m.dir == 'D'
    ensures StepLaws(st, m)
  {
    assert Step(st, m) == TraceState(st.x, st.y - m.len, AddStroke(st.v, st.x, Interval(st.y - m.len, st.y)), st.h);
    if m.len >= 0 {
      assert Interval(Min(st.y, st.y - m.len), Max(st.y, st.y - m.len)) == Interval(st.y - m.len, st.y);
      if AllWellFormedLines(st.v) && AllWellFormedLines(st.h) {
        AddStrokeWellFormed(st.v, st.x, Interval(st.y - m.len, st.y));
      }
    }
  }

  lemma StepLeftLaws(st: TraceState, m: Move)
    requires Valid(st) && m.dir == 'L'
    ensures StepLaws(st, m)
  {
    assert Step(st, m) == TraceState(st.x - m.len, st.y, st.v, AddStroke(st.h, st.y, Interval(st.x - m.len, st.x)));
    if m.len >= 0 {
      assert Interval(Min(st.x, st.x - m.len), Max(st.x, st.x - m.len)) == Interval(st.x - m.len, st.x);
      if AllWellFormedLines(st.v) && AllWellFormedLines(st.h) {
        AddStrokeWellFormed(st.h, st.y, Interval(st.x - m.len, st.x));
      }
    }
  }

  lemma StepRightLaws(st: TraceState, m: Move)
    requires Valid(st) && m.dir == 'R'
    ensures StepLaws(st, m)
  {
    assert Step(st, m) == TraceState(st.x + m.len, st.y, st.v, AddStroke(st.h, st.y, Interval(st.x, st.x + m.len)));
    if m.len >= 0 {
      assert Interval(Min(st.x, st.x + m.len), Max(st.x, st.x + m.len)) == Interval(st.x, st.x + m.len);
      if AllWellFormedLines(st.v) && AllWellFormedLines(st.h) {
        AddStrokeWellFormed(st.h, st.y, Interval(st.x, st.x + m.len));
      }
    }
  }

  lemma StepLawsHold(st: TraceState, m: Move)
    requires Valid(st)
    ensures StepLaws(st, m)
  {
    if m.dir == 'U' {
      StepUpLaws(st, m);
    } else if m.dir == 'D' {
      StepDownLaws(st, m);
    } else if m.dir == 'L' {
      StepLeftLaws(st, m);
    } else if m.dir == 'R' {
      StepRightLaws(st, m);
    }
  }

  /** A move of non-negative length files a well-formed interval. */
  lemma StepWellFormed(st: TraceState, m: Move)
    requires Valid(st) && m.len >= 0
    requires AllWellFormedLines(st.v) && AllWellFormedLines(st.h)
    ensures AllWellFormedLines(Step(st, m).v) && AllWellFormedLines(Step(st, m).h)
  {
    StepLawsHold(st, m);
  }

  /** With no negative length, every interval the trace files has
      Start <= Stop. */
  lemma {:induction false} TraceWellFormed(moves: seq<Move>)
    requires NonNegative(moves)
    ensures AllWellFormedLines(Trace(moves).v) && AllWellFormedLines(Trace(moves).h)
    decreases |moves|
  {
    if |moves| > 0 {
      var pre := moves[..|moves| - 1];
      assert NonNegative(pre);
      TraceWellFormed(pre);
      StepWellFormed(Trace(pre), moves[|moves| - 1]);
    }
  }

  /** Total length of the moves made in direction d. */
  function Travel(moves: seq<Move>, d: char): int
    decreases |moves|
  {
    if |moves| == 0 then 0
    else Travel(moves[..|moves| - 1], d) + (if moves[|moves| - 1].dir == d then moves[|moves| - 1].len else 0)
  }

  /** Where the path ends: right minus left travel across, up minus down
      travel upward. Independent of the order of the moves. */
  function Position(moves: seq<Move>): Point {
    Point(Travel(moves, 'R') - Travel(moves, 'L'), Travel(moves, 'U') - Travel(moves, 'D'))
  }

  /** The traced cursor is the net displacement of the moves: U adds to y,
      D subtracts from y, L subtracts from x, R adds to x, and any other
      direction leaves the cursor where it is. */
  lemma {:induction false} TracePosition(moves: seq<Move>)
    ensures Trace(moves).x == Position(moves).x && Trace(moves).y == Position(moves).y
    decreases |moves|
  {
    if |moves| > 0 {
      TracePosition(moves[..|moves| - 1]);
    }
  }

  /** A move in an unknown direction changes neither the cursor nor the
      stroke maps. */
  lemma StepIgnoresUnknown(st: TraceState, m: Move)
    requires Valid(st)
    requires !IsVertical(m.dir) && !IsHorizontal(m.dir)
    ensures Step(st, m) == st
  {
  }

  /** With a non-negative length, every move files the interval from the
      smaller to the larger of its two end coordinates, under the coordinate
      the move keeps, and leaves the other map alone. */
  lemma StepStoresMinMax(st: TraceState, m: Move)
    requires Valid(st) && m.len >= 0
    ensures var r := Step(st, m);
      && (IsVertical(m.dir) ==>
            r.x == st.x && r.h == st.h && r.v == AddStroke(st.v, st.x, Interval(Min(st.y, r.y), Max(st.y, r.y))))
      && (IsHorizontal(m.dir) ==>
            r.y == st.y && r.v == st.v && r.h == AddStroke(st.h, st.y, Interval(Min(st.x, r.x), Max(st.x, r.x))))
  {
    StepLawsHold(st, m);
  }


  predicate Between(a: int, b: int, p: int) { Min(a, b) <= p <= Max(a, b) }

  /** Move i of the path runs along column x and passes row p. */
  ghost predicate StepVisitsV(moves: seq<Move>, i: int, x: int, p: int)
    requires 0 <= i < |moves|
  {
    IsVertical(moves[i].dir) && Position(moves[..i]).x == x
    && Between(Position(moves[..i]).y, Position(moves[..i + 1]).y, p)
  }

  /** Move i of the path runs along row y and passes column p. */
  ghost predicate StepVisitsH(moves: seq<Move>, i: int, y: int, p: int)
    requires 0 <= i < |moves|
  {
    IsHorizontal(moves[i].dir) && Position(moves[..i]).y == y
    && Between(Position(moves[..i]).x, Position(moves[..i + 1]).x, p)
  }

  /** Travelling along column x, some vertical move of the path passes row p. */
  ghost predicate VisitedV(moves: seq<Move>, x: int, p: int) {
    exists i :: 0 <= i < |moves| && StepVisitsV(moves, i, x, p)
  }

  /** Travelling along row y, some horizontal move of the path passes column p. */
  ghost predicate VisitedH(moves: seq<Move>, y: int, p: int) {
    exists i :: 0 <= i < |moves| && StepVisitsH(moves, i, y, p)
  }

  /** Extending the path leaves what its earlier moves visit unchanged. */
  lemma StepVisitsPrefix(moves: seq<Move>, i: int)
    requires 0 <= i < |moves| - 1
    ensures var pre := moves[..|moves| - 1];
      && (forall x, p :: StepVisitsV(moves, i, x, p) <==> StepVisitsV(pre, i, x, p))
      && (forall y, p :: StepVisitsH(moves, i, y, p) <==> StepVisitsH(pre, i, y, p))
  {
    var pre := moves[..|moves| - 1];
    assert moves[..i] == pre[..i] && moves[..i + 1] == pre[..i + 1] && moves[i] == pre[i];
  }

  /** The last move adds to the points visited along columns exactly the
      segment it runs along. */
  lemma VisitedVSnoc(moves: seq<Move>, x: int, p: int)
    requires |moves| > 0
    ensures var pre := moves[..|moves| - 1]; var m := moves[|moves| - 1];
      VisitedV(moves, x, p) <==>
        (VisitedV(pre, x, p)
         || (IsVertical(m.dir) && Position(pre).x == x && Between(Position(pre).y, Position(moves).y, p)))
  {
    var n := |moves|;
    var pre := moves[..n - 1];
    assert moves[..n - 1] == pre && moves[..n] == moves;
    if VisitedV(moves, x, p) {
      var i :| 0 <= i < n && StepVisitsV(moves, i, x, p);
      if i < n - 1 {
        StepVisitsPrefix(moves, i);
      }
    }
    if VisitedV(pre, x, p) {
      var i :| 0 <= i < n - 1 && StepVisitsV(pre, i, x, p);
      StepVisitsPrefix(moves, i);
      assert StepVisitsV(moves, i, x, p);
    }
    if IsVertical(moves[n - 1].dir) && Position(pre).x == x && Between(Position(pre).y, Position(moves).y, p) {
      assert StepVisitsV(moves, n - 1, x, p);
    }
  }

  /** The last move adds to the points visited along rows exactly the
      segment it runs along. */
  lemma VisitedHSnoc(moves: seq<Move>, y: int, p: int)
    requires |moves| > 0
    ensures var pre := moves[..|moves| - 1]; var m := moves[|moves| - 1];
      VisitedH(moves, y, p) <==>
        (VisitedH(pre, y, p)
         || (IsHorizontal(m.dir) && Position(pre).y == y && Between(Position(pre).x, Position(moves).x, p)))
  {
    var n := |moves|;
    var pre := moves[..n - 1];
    assert moves[..n - 1] == pre && moves[..n] == moves;
    if VisitedH(moves, y, p) {
      var i :| 0 <= i < n && StepVisitsH(moves, i, y, p);
      if i < n - 1 {
        StepVisitsPrefix(moves, i);
      }
    }
    if VisitedH(pre, y, p) {
      var i :| 0 <= i < n - 1 && StepVisitsH(pre, i, y, p);
      StepVisitsPrefix(moves, i);
      assert StepVisitsH(moves, i, y, p);
    }
    if IsHorizontal(moves[n - 1].dir) && Position(pre).y == y && Between(Position(pre).x, Position(moves).x, p) {
      assert StepVisitsH(moves, n - 1, y, p);
    }
  }

  /** The columns and rows the trace files cover exactly the points the path
      passes through: along a column for VStrokes, along a row for
      HStrokes. */
  lemma {:induction false} TraceCoverage(moves: seq<Move>)
    requires NonNegative(moves)
    ensures forall x, p :: (x in Trace(moves).v && Covers(Trace(moves).v[x], p)) <==> VisitedV(moves, x, p)
    ensures forall y, p :: (y in Trace(moves).h && Covers(Trace(moves).h[y], p)) <==> VisitedH(moves, y, p)
    decreases |moves|
  {
    if |moves| == 0 {
    } else {
      var n := |moves|;
      var pre := moves[..n - 1];
      var m := moves[n - 1];
      assert NonNegative(pre);
      TraceCoverage(pre);
      TracePosition(pre);
      TracePosition(moves);
      var st := Trace(pre);
      assert Trace(moves) == Step(st, m);
      StepStoresMinMax(st, m);
      TraceWellFormed(pre);
      if IsVertical(m.dir) {
        AddStrokeCoverage(st.v, st.x, Interval(Min(st.y, Trace(moves).y), Max(st.y, Trace(moves).y)));
      } else if IsHorizontal(m.dir) {
        AddStrokeCoverage(st.h, st.y, Interval(Min(st.x, Trace(moves).x), Max(st.x, Trace(moves).x)));
      }
      forall x, p ensures (x in Trace(moves).v && Covers(Trace(moves).v[x], p)) <==> VisitedV(moves, x, p) {
        VisitedVSnoc(moves, x, p);
      }
      forall y, p ensures (y in Trace(moves).h && Covers(Trace(moves).h[y], p)) <==> VisitedH(moves, y, p) {
        VisitedHSnoc(moves, y, p);
      }
    }
  }

  /** The direction a move takes once the two axes are exchanged: up and
      right trade places, as do down and left; anything else stays. */
  function Relabel(d: char): char {
    if d == 'U' then 'R'
    else if d == 'R' then 'U'
    else if d == 'D' then 'L'
    else if d == 'L' then 'D'
    else d
  }

  /** The path mirrored in the diagonal x == y. */
  function Transpose(moves: seq<Move>): (t: seq<Move>)
    ensures |t| == |moves|
    ensures forall i :: 0 <= i < |moves| ==> t[i] == Move(Relabel(moves[i].dir), moves[i].len)
  {
    seq(|moves|, i requires 0 <= i < |moves| => Move(Relabel(moves[i].dir), moves[i].len))
  }

  /** A trace state with its axes exchanged: columns become rows. */
  function Swap(st: TraceState): TraceState {
    TraceState(st.y, st.x, st.h, st.v)
  }

  /** One move of the mirrored path is the mirror of the move. */
  ghost predicate Mirrored(st: TraceState, m: Move)
    requires Valid(st)
  {
    Step(Swap(st), Move(Relabel(m.dir), m.len)) == Swap(Step(st, m))
  }

  lemma StepUpMirrored(st: TraceState, m: Move)
    requires Valid(st) && m.dir == 'U'
    ensures Mirrored(st, m)
  {
  }

  lemma StepDownMirrored(st: TraceState, m: Move)
    requires Valid(st) && m.dir == 'D'
    ensures Mirrored(st, m)
  {
  }

  lemma StepLeftMirrored(st: TraceState, m: Move)
    requires Valid(st) && m.dir == 'L'
    ensures Mirrored(st, m)
  {
  }

  lemma StepRightMirrored(st: TraceState, m: Move)
    requires Valid(st) && m.dir == 'R'
    ensures Mirrored(st, m)
  {
  }

  lemma StepTranspose(st: TraceState, m: Move)
    requires Valid(st)
    ensures Step(Swap(st), Move(Relabel(m.dir), m.len)) == Swap(Step(st, m))
  {
    if m.dir == 'U' {
      StepUpMirrored(st, m);
    } else if m.dir == 'D' {
      StepDownMirrored(st, m);
    } else if m.dir == 'L' {
      StepLeftMirrored(st, m);
    } else if m.dir == 'R' {
      StepRightMirrored(st, m);
    }
  }

  /** Tracing the mirrored path gives the mirrored state: the columns of one
      are the rows of the other, interval for interval. */
  lemma {:induction false} TraceTranspose(moves: seq<Move>)
    ensures Trace(Transpose(moves)) == Swap(Trace(moves))
    decreases |moves|
  {
    if |moves| > 0 {
      var n := |moves|;
      var pre := moves[..n - 1];
      TraceTranspose(pre);
      assert Transpose(moves)[..n - 1] == Transpose(pre);
      StepTranspose(Trace(pre), moves[n - 1]);
    }
  }
}
