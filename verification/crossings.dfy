/** The crossing finder of Compute.Go: for every consolidated vertical
    interval, the rows it spans are taken from the row index and each is
    binary-searched for the interval's column. Compute.StrokesCross is the
    naive pairwise test the result is measured against. */
module Crossings {
  import opened Intervals
  import opened Strokes
  import opened RowIndex

  /** Compute.StrokesCross: the vertical stroke at column x over rows
      [startY, stopY] and the horizontal stroke at row y over columns
      [startX, stopX] cross. */
  function StrokesCross(x: int, startY: int, stopY: int, y: int, startX: int, stopX: int): (r: bool)
    ensures r <==> Contains(Interval(startX, stopX), x) && Contains(Interval(startY, stopY), y)
  {
    if x < startX || x > stopX then false
    else if y < startY || y > stopY then false
    else true
  }

  /** p is where some vertical interval of `v` and some horizontal interval
      of `h` cross, by the pairwise test. */
  ghost predicate CrossesAt(v: StrokeMap, h: StrokeMap, p: Point) {
    && p.x in v && p.y in h
    && exists a, b :: 0 <= a < |v[p.x]| && 0 <= b < |h[p.y]|
         && StrokesCross(p.x, v[p.x][a].start, v[p.x][a].stop, p.y, h[p.y][b].start, h[p.y][b].stop)
  }

  /** The pairwise test agrees with coverage of both lines. */
  lemma CrossesAtCovers(v: StrokeMap, h: StrokeMap, p: Point)
    ensures CrossesAt(v, h, p) <==> p.x in v && p.y in h && Covers(v[p.x], p.y) && Covers(h[p.y], p.x)
  {
    if p.x in v && p.y in h && Covers(v[p.x], p.y) && Covers(h[p.y], p.x) {
      var iv :| iv in v[p.x] && Contains(iv, p.y);
      var jv :| jv in h[p.y] && Contains(jv, p.x);
      var a :| 0 <= a < |v[p.x]| && v[p.x][a] == iv;
      var b :| 0 <= b < |h[p.y]| && h[p.y][b] == jv;
      assert StrokesCross(p.x, v[p.x][a].start, v[p.x][a].stop, p.y, h[p.y][b].start, h[p.y][b].stop);
    }
    if CrossesAt(v, h, p) {
      var a, b :| 0 <= a < |v[p.x]| && 0 <= b < |h[p.y]|
         && StrokesCross(p.x, v[p.x][a].start, v[p.x][a].stop, p.y, h[p.y][b].start, h[p.y][b].stop);
      assert v[p.x][a] in v[p.x] && h[p.y][b] in h[p.y];
    }
  }

  /** Exchanging the roles of the two maps transposes the crossing points. */
  lemma CrossesAtSwap(v: StrokeMap, h: StrokeMap, p: Point)
    ensures CrossesAt(v, h, p) <==> CrossesAt(h, v, Point(p.y, p.x))
  {
    CrossesAtCovers(v, h, p);
    CrossesAtCovers(h, v, Point(p.y, p.x));
  }

  predicate NoDuplicates(s: seq<Point>) {
    forall i, j :: 0 <= i < j < |s| ==> s[i] != s[j]
  }

  lemma NoDuplicatesAppend(s: seq<Point>, t: seq<Point>)
    requires NoDuplicates(s) && NoDuplicates(t)
    requires forall p :: p in s ==> p !in t
    ensures NoDuplicates(s + t)
  {
    var st := s + t;
    forall i, j | 0 <= i < j < |st| ensures st[i] != st[j] {
      if i < |s| && j >= |s| {
        assert st[i] == s[i] && st[j] == t[j - |s|];
        assert s[i] in s;
      } else if i >= |s| {
        assert st[i] == t[i - |s|] && st[j] == t[j - |s|];
      } else {
        assert st[i] == s[i] && st[j] == s[j];
      }
    }
  }

  /** The row entry has a list, and the list covers x. */
  ghost predicate RowHit(e: RowEntry, x: int) {
    e.strokes.Some? && Covers(e.strokes.value, x)
  }

  /** Row y of the index has an interval containing column x. */
  ghost predicate IndexedRowHit(index: seq<RowEntry>, y: int, x: int) {
    exists e :: e in index && e.y == y && RowHit(e, x)
  }

  /** Over an index built from a stroke map, a hit in row y is a hit in the
      map's line y. */
  lemma IndexedRowHitOfMap(index: seq<RowEntry>, h: StrokeMap)
    requires Rows(index) == h.Keys
    requires forall e :: e in index ==> e.y in h && e.strokes == Some(h[e.y])
    ensures forall y, x :: IndexedRowHit(index, y, x) <==> y in h && Covers(h[y], x)
  {
    forall y, x | y in h && Covers(h[y], x) ensures IndexedRowHit(index, y, x) {
      assert y in Rows(index);
      var e :| e in index && e.y == y;
      assert RowHit(e, x);
    }
  }

  /** The shape HStrokesSorted has once built from consolidated rows. */
  ghost predicate WellIndexed(index: seq<RowEntry>) {
    RowsIncreasing(index) && AllConsolidated(index)
  }

  /** Every entry carries a consolidated list. */
  ghost predicate AllConsolidated(rows: seq<RowEntry>) {
    forall e :: e in rows ==> e.strokes.Some? && Consolidated(e.strokes.value)
  }

  /** The loop over a view of the index (Program.cs lines 314-322): emit
      (x, row) for each viewed row whose search hits, in row order. */
  method ScanRows(rows: seq<RowEntry>, x: int) returns (pts: seq<Point>)
    requires RowsIncreasing(rows) && AllConsolidated(rows)
    ensures forall p :: p in pts <==> p.x == x && exists e :: e in rows && e.y == p.y && RowHit(e, x)
    ensures forall a, b :: 0 <= a < b < |pts| ==> pts[a].y < pts[b].y
  {
    pts := [];
    var k := 0;
    while k < |rows|
      invariant 0 <= k <= |rows|
      invariant forall p :: p in pts <==> p.x == x && exists j :: 0 <= j < k && rows[j].y == p.y && RowHit(rows[j], x)
      invariant forall a, b :: 0 <= a < b < |pts| ==> pts[a].y < pts[b].y
      invariant forall a, j :: 0 <= a < |pts| && k <= j < |rows| ==> pts[a].y < rows[j].y
      decreases |rows| - k
    {
      assert rows[k] in rows;
      var found := FindStrokeCrossesX(rows[k], x);
      if found.Some? {
        pts := pts + [Point(x, rows[k].y)];
      }
      k := k + 1;
    }
    forall p: Point | p.x == x && exists e :: e in rows && e.y == p.y && RowHit(e, x)
      ensures exists j :: 0 <= j < |rows| && rows[j].y == p.y && RowHit(rows[j], x)
    {
      var e :| e in rows && e.y == p.y && RowHit(e, x);
      var j :| 0 <= j < |rows| && rows[j] == e;
    }
  }

  /** One vertical interval iv at column x (Program.cs lines 302-323): view
      the rows in [iv.start, iv.stop] and emit (x, row) for each row whose
      search hits. An ill-formed interval makes the view throw: None. */
  method CrossingsOfStroke(index: seq<RowEntry>, x: int, iv: Interval) returns (r: Option<seq<Point>>)
    requires WellIndexed(index)
    ensures r.None? <==> !WellFormed(iv)
    ensures r.Some? ==> forall p :: p in r.value <==> p.x == x && Contains(iv, p.y) && IndexedRowHit(index, p.y, x)
    ensures r.Some? ==> forall a, b :: 0 <= a < b < |r.value| ==> r.value[a].y < r.value[b].y
  {
    var view := RowsBetween(index, iv.start, iv.stop);
    if view.None? {
      return None;
    }
    var rows := view.value;
    var pts := ScanRows(rows, x);
    return Some(pts);
  }

  /** All the vertical intervals of one column (the foreach over
      VStrokesAtX). On a separated column no point is emitted twice. */
  method CrossingsOfColumn(index: seq<RowEntry>, x: int, line: Line) returns (r: Option<seq<Point>>)
    requires WellIndexed(index)
    ensures r.None? <==> !AllWellFormed(line)
    ensures r.Some? ==> forall p :: p in r.value <==> p.x == x && Covers(line, p.y) && IndexedRowHit(index, p.y, x)
    ensures r.Some? && Separated(line) ==> NoDuplicates(r.value)
  {
    var pts: seq<Point> := [];
    var a := 0;
    while a < |line|
      invariant 0 <= a <= |line|
      invariant forall b :: 0 <= b < a ==> WellFormed(line[b])
      invariant forall p :: p in pts <==>
                  p.x == x && (exists b :: 0 <= b < a && Contains(line[b], p.y)) && IndexedRowHit(index, p.y, x)
      invariant Separated(line) ==> NoDuplicates(pts)
      decreases |line| - a
    {
      var found := CrossingsOfStroke(index, x, line[a]);
      if found.None? {
        assert line[a] in line;
        return None;
      }
      var batch := found.value;
      if Separated(line) {
        forall p | p in pts ensures p !in batch {
          var b :| 0 <= b < a && Contains(line[b], p.y);
          assert line[b].stop < line[a].start;
        }
        NoDuplicatesAppend(pts, batch);
      }
      pts := pts + batch;
      a := a + 1;
    }
    forall w | w in line ensures WellFormed(w) {
      var b :| 0 <= b < |line| && line[b] == w;
    }
    forall p: Point ensures Covers(line, p.y) <==> exists b :: 0 <= b < |line| && Contains(line[b], p.y) {
      if Covers(line, p.y) {
        var w :| w in line && Contains(w, p.y);
        var b :| 0 <= b < |line| && line[b] == w;
      }
    }
    return Some(pts);
  }

  /** The outer foreach over VStrokes, in an order left open: every point at
      which a vertical interval meets an indexed row's interval, each once
      when the columns are separated. */
  method FindCrossings(v: StrokeMap, index: seq<RowEntry>) returns (r: Option<seq<Point>>)
    requires WellIndexed(index)
    ensures r.None? <==> exists x :: x in v && !AllWellFormed(v[x])
    ensures r.Some? ==> forall p :: p in r.value <==> p.x in v && Covers(v[p.x], p.y) && IndexedRowHit(index, p.y, p.x)
    ensures r.Some? && (forall x :: x in v ==> Separated(v[x])) ==> NoDuplicates(r.value)
  {
    var pts: seq<Point> := [];
    var todo := v.Keys;
    while todo != {}
      invariant todo <= v.Keys
      invariant forall x :: x in v && x !in todo ==> AllWellFormed(v[x])
      invariant forall p :: p in pts <==> p.x in v && p.x !in todo && Covers(v[p.x], p.y) && IndexedRowHit(index, p.y, p.x)
      invariant (forall x :: x in v ==> Separated(v[x])) ==> NoDuplicates(pts)
      decreases todo
    {
      var x := PickKey(todo);
      var found := CrossingsOfColumn(index, x, v[x]);
      if found.None? {
        return None;
      }
      var batch := found.value;
      if forall x :: x in v ==> Separated(v[x]) {
        NoDuplicatesAppend(pts, batch);
      }
      pts := pts + batch;
      todo := todo - {x};
    }
    return Some(pts);
  }
}
