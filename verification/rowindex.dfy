/** The row index over consolidated horizontal strokes (HStrokePlus and the
    HStrokesSorted set of Compute): one entry per row, ordered by row, each
    holding the row's intervals in Start order. */
module RowIndex {
  import opened Intervals
  import opened Strokes

  /** HStrokePlus: a row and the list copied from the row's SortedSet, or no
      list at all for the probe entries built with a null set. */
  datatype RowEntry = RowEntry(y: int, strokes: Option<Line>)

  /** The order of a SortedSet<HStrokePlus>, whose comparer looks at Y only. */
  predicate RowsIncreasing(index: seq<RowEntry>) {
    forall i, j :: 0 <= i < j < |index| ==> index[i].y < index[j].y
  }

  function Rows(index: seq<RowEntry>): set<int> {
    set e | e in index :: e.y
  }

  /** SortedSet.Add: an entry whose row is already present is refused and
      the set is left as it was; otherwise the entry goes in at its place in
      row order. */
  function InsertRow(index: seq<RowEntry>, e: RowEntry): (r: seq<RowEntry>)
    requires RowsIncreasing(index)
    ensures RowsIncreasing(r)
    ensures Rows(r) == Rows(index) + {e.y}
    decreases |index|
  {
    if |index| == 0 then
      RowsCons(e, []);
      [e]
    else
      assert index == [index[0]] + index[1..];
      HeadBelowTail(index);
      RowsCons(index[0], index[1..]);
      if e.y < index[0].y then
        RowsCons(e, index);
        ConsIncreasing(e, index);
        [e] + index
      else if e.y == index[0].y then
        index
      else
        var rest := InsertRow(index[1..], e);
        RowsCons(index[0], rest);
        ConsIncreasing(index[0], rest);
        [index[0]] + rest
  }

  /** A row already present leaves the index as it was; a new row adds
      exactly the new entry. */
  lemma {:induction false} InsertRowMembers(index: seq<RowEntry>, e: RowEntry)
    requires RowsIncreasing(index)
    ensures e.y in Rows(index) ==> InsertRow(index, e) == index
    ensures e.y !in Rows(index) ==>
              |InsertRow(index, e)| == |index| + 1 && forall w :: w in InsertRow(index, e) <==> w in index || w == e
    decreases |index|
  {
    if |index| > 0 {
      assert index == [index[0]] + index[1..];
      HeadBelowTail(index);
      RowsCons(index[0], index[1..]);
      if e.y > index[0].y {
        InsertRowMembers(index[1..], e);
      }
    }
  }

  lemma RowsCons(a: RowEntry, tail: seq<RowEntry>)
    ensures Rows([a] + tail) == {a.y} + Rows(tail)
  {
    var full := [a] + tail;
    assert forall w :: w in full <==> w == a || w in tail;
  }

  /** The first entry of a row-ordered index lies below every entry after it. */
  lemma HeadBelowTail(index: seq<RowEntry>)
    requires RowsIncreasing(index) && |index| > 0
    ensures RowsIncreasing(index[1..])
    ensures forall y :: y in Rows(index[1..]) ==> index[0].y < y
  {
    var tail := index[1..];
    forall y | y in Rows(tail) ensures index[0].y < y {
      var w :| w in tail && w.y == y;
      var k :| 0 <= k < |tail| && tail[k] == w;
      assert index[k + 1] == w;
    }
  }

  /** An entry below every row of a row-ordered index can go in front. */
  lemma ConsIncreasing(a: RowEntry, tail: seq<RowEntry>)
    requires RowsIncreasing(tail)
    requires forall y :: y in Rows(tail) ==> a.y < y
    ensures RowsIncreasing([a] + tail)
  {
    var full := [a] + tail;
    forall i, j | 0 <= i < j < |full| ensures full[i].y < full[j].y {
      assert full[j] == tail[j - 1];
      if i == 0 {
        assert tail[j - 1] in tail && tail[j - 1].y in Rows(tail);
      } else {
        assert full[i] == tail[i - 1];
      }
    }
  }

  /** Builds HStrokesSorted: one entry per key of HStrokes, holding that row's
      intervals. The dictionary is enumerated in an order left open. */
  method BuildRowIndex(h: StrokeMap) returns (index: seq<RowEntry>)
    ensures RowsIncreasing(index)
    ensures Rows(index) == h.Keys
    ensures forall e :: e in index ==> e.y in h && e.strokes == Some(h[e.y])
  {
    index := [];
    var todo := h.Keys;
    while todo != {}
      invariant todo <= h.Keys
      invariant RowsIncreasing(index)
      invariant Rows(index) == h.Keys - todo
      invariant forall e :: e in index ==> e.y in h && e.strokes == Some(h[e.y])
      decreases todo
    {
      var y := PickKey(todo);
      InsertRowMembers(index, RowEntry(y, Some(h[y])));
      index := InsertRow(index, RowEntry(y, Some(h[y])));
      todo := todo - {y};
    }
  }

  /** The entries whose row lies in [lo, hi], in index order. */
  function Filter(index: seq<RowEntry>, lo: int, hi: int): (r: seq<RowEntry>)
    ensures forall e :: e in r <==> e in index && lo <= e.y <= hi
    ensures RowsIncreasing(index) ==> RowsIncreasing(r)
    decreases |index|
  {
    if |index| == 0 then []
    else
      var rest := Filter(index[1..], lo, hi);
      assert index == [index[0]] + index[1..];
      if lo <= index[0].y <= hi then
        if RowsIncreasing(index) then
          HeadBelowTail(index);
          assert forall y :: y in Rows(rest) ==> y in Rows(index[1..]);
          ConsIncreasing(index[0], rest);
          [index[0]] + rest
        else
          [index[0]] + rest
      else
        if RowsIncreasing(index) then
          HeadBelowTail(index);
          rest
        else
          rest
  }

  /** SortedSet.GetViewBetween with both ends inclusive. The library throws
      ArgumentException when the lower bound compares above the upper one;
      that outcome is None. */
  function RowsBetween(index: seq<RowEntry>, lo: int, hi: int): (r: Option<seq<RowEntry>>)
    ensures r.None? <==> hi < lo
    ensures r.Some? ==> forall e :: e in r.value <==> e in index && lo <= e.y <= hi
    ensures r.Some? && RowsIncreasing(index) ==> RowsIncreasing(r.value)
  {
    if lo > hi then None else Some(Filter(index, lo, hi))
  }

  /** HStrokePlus.FindStrokeCrossesX: a three-way binary search for an
      interval of the row that contains x. */
  method FindStrokeCrossesX(e: RowEntry, x: int) returns (r: Option<Interval>)
    ensures e.strokes.None? ==> r.None?
    ensures e.strokes.Some? && |e.strokes.value| == 0 ==> r.None?
    ensures r.Some? ==> e.strokes.Some? && r.value in e.strokes.value && Contains(r.value, x)
    ensures e.strokes.Some? && Consolidated(e.strokes.value) ==> (r.Some? <==> Covers(e.strokes.value, x))
  {
    if e.strokes.None? {
      return None;
    }
    var list := e.strokes.value;
    if |list| == 0 {
      return None;
    }
    var l := 0;
    var h := |list| - 1;
    while l <= h
      invariant 0 <= l <= h + 1 <= |list|
      invariant Consolidated(list) ==> forall k :: 0 <= k < l || h < k < |list| ==> !Contains(list[k], x)
      decreases h - l
    {
      var m := (l + h) / 2;
      var ss := list[m];
      if x < ss.start {
        h := m - 1;
      } else if x > ss.stop {
        l := m + 1;
      } else {
        return Some(ss);
      }
    }
    return None;
  }
}
