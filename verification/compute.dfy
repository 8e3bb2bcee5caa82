/** Compute.Go end to end: trace the path, consolidate both stroke maps,
    index the rows, and collect the crossings. */
module Compute {
  import opened Intervals
  import opened Strokes
  import opened Tracer
  import opened Consolidate
  import opened RowIndex
  import opened Crossings

  /** Compute.Go. Returns the consolidated VStrokes and HStrokes and the
      crossings list; the crossings are None when a vertical interval with
      Start above Stop reaches the row view, which throws in the source. */
  method Go(moves: seq<Move>) returns (v: StrokeMap, h: StrokeMap, crosses: Option<seq<Point>>)
    ensures v.Keys == Trace(moves).v.Keys && h.Keys == Trace(moves).h.Keys
    ensures forall x :: x in v ==> ConsolidationOf(Trace(moves).v[x], v[x])
    ensures forall y :: y in h ==> ConsolidationOf(Trace(moves).h[y], h[y])
    ensures crosses.None? <==> exists x :: x in v && !AllWellFormed(v[x])
    ensures crosses.Some? ==> (forall p :: p in crosses.value <==> CrossesAt(v, h, p)) && NoDuplicates(crosses.value)
    ensures crosses.Some? ==> forall p :: p in crosses.value <==> CrossesAt(Trace(moves).v, Trace(moves).h, p)
    ensures NonNegative(moves) ==>
              crosses.Some? && forall p :: p in crosses.value <==> VisitedV(moves, p.x, p.y) && VisitedH(moves, p.y, p.x)
  {
    var traced := Trace(moves);
    h := ConsolidateStrokes(traced.h);
    v := ConsolidateStrokes(traced.v);
    var index := BuildRowIndex(h);
    IndexedRowHitOfMap(index, h);
    crosses := FindCrossings(v, index);
    if crosses.Some? {
      forall p | p in crosses.value ensures CrossesAt(v, h, p) {
        CrossesAtCovers(v, h, p);
      }
      forall p | CrossesAt(v, h, p) ensures p in crosses.value {
        CrossesAtCovers(v, h, p);
      }
      forall p ensures p in crosses.value <==> CrossesAt(traced.v, traced.h, p) {
        CrossesAtCovers(v, h, p);
        CrossesAtCovers(traced.v, traced.h, p);
      }
    }
    if NonNegative(moves) {
      TraceWellFormed(moves);
      TraceCoverage(moves);
      assert forall x :: x in v ==> AllWellFormed(v[x]);
      forall p ensures p in crosses.value <==> VisitedV(moves, p.x, p.y) && VisitedH(moves, p.y, p.x) {
        CrossesAtCovers(v, h, p);
      }
    }
  }

  /** Mirroring the path in the diagonal mirrors its crossings: (x, y) is a
      crossing of the path exactly when (y, x) is one of the mirrored path. */
  lemma CrossingsTranspose(moves: seq<Move>, p: Point)
    ensures CrossesAt(Trace(moves).v, Trace(moves).h, p)
        <==> CrossesAt(Trace(Transpose(moves)).v, Trace(Transpose(moves)).h, Point(p.y, p.x))
  {
    TraceTranspose(moves);
    CrossesAtSwap(Trace(moves).v, Trace(moves).h, p);
  }
}
