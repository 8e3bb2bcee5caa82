# Crossing detector of ScrappyCoco, in Dafny

`Compute.Go` (Program.cs) takes a path made of moves, each a direction
character and a length, and starts at (0, 0). It reports every lattice point
where a vertical part of the path meets a horizontal part. It works in four
phases, and this project models each one:

- **Tracing.** Every Up/Down move becomes a closed interval of rows, filed
  under its column in `VStrokes`. Every Left/Right move becomes an interval of
  columns, filed under its row in `HStrokes`. A second interval with the same
  Start on a line widens the first one instead of being added.
- **Consolidation.** On every line, each interval in Start order absorbs the
  intervals after it that start at or before its current Stop. Absorbed
  intervals are marked dead and removed at the end.
- **Row index.** The horizontal lines are copied into `HStrokesSorted`, one
  `HStrokePlus` per row, ordered by row.
- **Crossing search.** For every vertical interval, `GetViewBetween` selects
  the rows it spans, and each selected row is binary-searched for the column.

Modules, one file each:

- `Intervals`: `StartStop` as `Interval`, a line as a Start-ordered
  `seq<Interval>`, coverage of a line, and `Option` for null references.
- `Strokes`: the insert-or-extend rule and the per-line maps `VStrokes` and
  `HStrokes`.
- `Tracer`: the trace switch as a left fold over the moves.
- `Consolidate`: the consolidation loop, written once and applied to both maps.
- `RowIndex`: `HStrokePlus`, the row-ordered index, `GetViewBetween` and
  `FindStrokeCrossesX`.
- `Crossings`: the crossing loop and `StrokesCross`, the pairwise reference
  test.
- `Compute`: `Go` end to end.

Notes on what the model follows:

- **Direction of stored intervals.** U and R store `(old, new)`, and D and L
  store `(new, old)`, exactly as the source does. This is `(min, max)` only
  when the length is non-negative; `Tracer.StepStoresMinMax` proves that case.
  A negative length can therefore store an interval with Start > Stop.
- **`GetViewBetween` on such an interval.** It would throw an
  ArgumentException, because the lower bound compares above the upper one.
  The model returns `None` there, and `Go` then has no crossings list.
- **Consolidation of a dead interval.** The source does not skip an interval
  that is already dead when the outer loop reaches it; it scans forward all
  the same. The model scans too, and proves that the scan changes nothing.
- **Corners and shared endpoints count as crossings.** This follows from the
  inclusive view and the inclusive search. The origin counts as well, when a
  vertical and a horizontal move both touch it.
- **Dictionary enumeration order is left open.** Results are stated by
  membership and absence of duplicates, never by position.
- **The dictionary loops.** They pick keys in an unspecified order; every
  property holds for whichever order is chosen.

## Model

| member | source | states |
|---|---|---|
| Strokes.InsertOrExtend | Program.cs:116-126 | adding an interval to a Start-ordered line keeps it Start-ordered with distinct Starts, and the set of Starts gains exactly the new Start |
| Strokes.InsertOrExtendCoverage | Program.cs:116-126 | the integers the line covers become exactly the old ones together with those of the added interval |
| Strokes.ExtendInPlace | Program.cs:117-121 | when an interval with the same Start is present, only that interval changes, and its Stop becomes the larger of the two Stops |
| Strokes.InsertNew | Program.cs:122-126 | when the Start is new, the line gains the interval as a new element and loses or alters nothing |
| Strokes.InsertOrExtendWellFormed | Program.cs:116-126 | adding a well-formed interval to a line of well-formed intervals keeps every interval well formed (Start <= Stop) |
| Strokes.AddStroke | Program.cs:110-126 | the line is created when its key is absent; the key set gains exactly that key, every other line is untouched, and every line stays Start-ordered |
| Strokes.AddStrokeCoverage | Program.cs:110-126 | the line under the key covers its previous integers (none for a new line) together with the added interval's |
| Strokes.AddStrokeWellFormed | Program.cs:110-126 | a well-formed interval keeps every line of the map well formed |
| Tracer.Step | Program.cs:105-199 | one turn of the trace switch keeps every line of both maps Start-ordered with distinct Starts |
| Tracer.Trace | Program.cs:97-200 | the trace from (0, 0) over all moves keeps both maps Start-ordered |
| Tracer.TracePosition | Program.cs:105-199 | the cursor ends at (R travel - L travel, U travel - D travel); U adds to y, D subtracts from y, L subtracts from x, R adds to x, and other characters do not move it |
| Tracer.StepIgnoresUnknown | Program.cs:105-199 | a move whose character is not U, D, L or R leaves the cursor and both maps unchanged |
| Tracer.StepStoresMinMax | Program.cs:107-198 | with a non-negative length, a vertical move files (min, max) of its two y ends under the unchanged x and leaves HStrokes alone, and a horizontal move does the same with x, y and VStrokes |
| Tracer.StepWellFormed | Program.cs:109-185 | a move of non-negative length keeps every stored interval well formed |
| Tracer.TraceWellFormed | Program.cs:100-200 | with every length non-negative, every interval in both maps has Start <= Stop |
| Tracer.TraceCoverage | Program.cs:100-200 | with non-negative lengths, column x of VStrokes covers row p exactly when some vertical move of the path runs along column x through row p; likewise HStrokes along rows |
| Tracer.TraceTranspose | Program.cs:105-199 | tracing the path mirrored in the diagonal (U and R exchanged, D and L exchanged) gives the mirrored state: columns and rows exchange, interval for interval |
| Tracer.StepTranspose | Program.cs:105-199 | one mirrored move has the mirrored effect |
| Consolidate.ScanForward | Program.cs:221-238 | the inner scan absorbs exactly the intervals after A up to the first that starts beyond A's widened Stop; each absorbed B starts within A's running Stop, that is within A's Stop before the scan or within the Stop of an interval absorbed before B; only not-yet-dead intervals are marked; every absorbed interval starts and ends within A's new Stop; A's Stop only grows, stays covered and joined step by step, and ends at A's own Stop or at an absorbed interval's Stop; nothing else changes |
| Consolidate.AbsorbFrom | Program.cs:211-239 | one turn of the outer loop keeps its invariant; when A is already dead, or the next interval starts beyond A's Stop, the turn changes nothing |
| Consolidate.DeadScanReachesOnlyDead | Program.cs:224-233 | an interval already dead when the outer loop reaches it can only reach intervals that are already dead |
| Consolidate.ScanAdvance | Program.cs:211-239 | after a turn, every visited survivor has absorbed all that starts within its reach, and every dead interval lies inside an earlier survivor |
| Consolidate.ScanAll | Program.cs:209-239 | after the outer loop, the survivors have absorbed all that starts within their reach and every dead interval lies inside a survivor; on a line with no overlap or touching, nothing is dead or widened |
| Consolidate.Survivors | Program.cs:240-243 | what removing the dead intervals leaves: exactly the non-dead intervals with their widened Stops, and no more of them than there were intervals |
| Consolidate.SurvivorsShape | Program.cs:222-243 | the survivors are Start-ordered and pairwise separated (each starts after the previous one stops), a non-empty line keeps at least one interval, and a line with nothing to merge comes out unchanged |
| Consolidate.SurvivorsCoverage | Program.cs:222-243 | the survivors cover exactly the integers the line covered |
| Consolidate.SurvivorsLinks | Program.cs:222-243 | the survivors join exactly the neighbouring integers the line joined, so intervals that only sit on consecutive integers ([0, 1] and [2, 5]) stay apart while touching ones merge |
| Consolidate.SurvivorsStarts | Program.cs:222-243 | every survivor starts where an original interval started and reaches at least as far as that interval; well-formed lines stay well formed |
| Consolidate.ConsolidateLine | Program.cs:205-243 | the consolidated line is Start-ordered and separated, covers the same integers and joins the same neighbouring integers, keeps only original Starts with Stops that only grow, is no longer and non-empty when the line was; a line of fewer than two intervals, or already separated, is returned unchanged, so running the pass again is a no-op |
| Consolidate.ConsolidateStrokes | Program.cs:203-290 | every line of the map, and no other key, is consolidated as above; the same code serves HStrokes and VStrokes |
| Consolidate.ConsolidationDetermined | Program.cs:203-290 | on a line of well-formed intervals the consolidation promise admits exactly one result, so the contract fixes what the pass returns |
| Consolidate.TouchingMerges | Program.cs:224-236 | the merge test B.Start <= A.Stop absorbs a touching interval: [0, 1], [1, 3] consolidates to [0, 3] and to nothing else |
| Consolidate.NeighboursStayApart | Program.cs:224-236 | the merge test uses A's running Stop: [0, 1], [1, 1], [2, 5] consolidates to [0, 1], [2, 5] and to nothing else |
| Intervals.ConsolidatedUnique | Program.cs:203-290 | two Start-ordered, separated lines of well-formed intervals that cover the same integers and join the same neighbouring integers are equal |
| RowIndex.InsertRow | Program.cs:292-295 | SortedSet.Add keeps the index ordered by row; the set of rows gains exactly the new row |
| RowIndex.InsertRowMembers | Program.cs:292-295 | a row already present is refused and leaves the index unchanged; otherwise exactly the new entry is added |
| RowIndex.BuildRowIndex | Program.cs:292-295 | the index is ordered by row, has one entry per HStrokes key and no other, and each entry holds that row's intervals (the HStrokePlus constructor at lines 38-49 copies the row's set) |
| RowIndex.Filter | Program.cs:309 | the view keeps exactly the entries whose row lies in [lo, hi], in index order |
| RowIndex.RowsBetween | Program.cs:309 | GetViewBetween is inclusive at both ends; it fails (None) exactly when lo > hi |
| RowIndex.FindStrokeCrossesX | Program.cs:51-83 | null is returned for a null or empty list; a returned interval belongs to the row and contains x; on a Start-ordered, separated list, an interval is found exactly when some interval contains x |
| Crossings.StrokesCross | Program.cs:333-338 | the pairwise test holds exactly when x lies in [startX, stopX] and y lies in [startY, stopY] |
| Crossings.CrossesAtCovers | Program.cs:333-338 | some vertical interval of column x and some horizontal interval of row y pass the pairwise test exactly when column x covers y and row y covers x |
| Crossings.CrossesAtSwap | Program.cs:333-338 | exchanging the two maps transposes the points the pairwise test accepts |
| Crossings.IndexedRowHitOfMap | Program.cs:292-295 | over an index built from HStrokes, a row of the index contains x exactly when that row of HStrokes covers x |
| Crossings.ScanRows | Program.cs:314-322 | the loop over a view emits (x, row) exactly for the viewed rows whose search hits, in strictly increasing row order |
| Crossings.CrossingsOfStroke | Program.cs:302-323 | one vertical interval emits exactly the points (x, y) with y in the interval and row y of the index containing x, each once; an ill-formed interval makes the view fail |
| Crossings.CrossingsOfColumn | Program.cs:300-324 | one column emits exactly the points (x, y) with y covered by the column and row y containing x; fails exactly when an interval is ill-formed; no point repeats when the column is separated |
| Crossings.FindCrossings | Program.cs:298-326 | all columns together emit exactly the points where a column covers the row and the row covers the column; failure exactly when some vertical interval is ill-formed; no point repeats once every column is separated |
| Compute.Go | Program.cs:93-331 | both maps have the traced keys, each line consolidated; a point is reported exactly when the pairwise test accepts it, for the consolidated maps and for the traced maps alike, and no point is reported twice; with non-negative lengths the list always exists and holds exactly the points that a vertical move and a horizontal move of the path both pass through |
| Compute.CrossingsTranspose | Program.cs:93-338 | mirroring the path in the diagonal mirrors its crossings: (x, y) is a crossing of the path exactly when (y, x) is one of the mirrored path |

## Left out

- The Stopwatch, the elapsed-seconds arithmetic and the Console report (Program.cs lines 95, 328-330) are timing and output only.
- `Main` and its seeded random path generator (lines 344-364) build inputs; they are not part of the detector. `Go` takes its moves as a parameter.
- The debug `stopper` block for key 48 (lines 251-254) has no effect. The `Debug.Assert(bAdded)` calls are implied by the model: a new Start is always added.
- Integer overflow is not modelled; all integers are unbounded. This covers the subtracting comparers `CompareTo` (lines 24 and 35), the cursor arithmetic, and `(l + h) / 2`. The model assumes no overflow, and with both indices non-negative, `/` agrees with C#.
- Tracer.Trace: the two parallel arrays `dirs` and `lens` are one sequence of moves. The source loops over `dirs` and reads `lens[i]` (lines 100-103), so a `lens` shorter than `dirs` throws an index exception and the extra entries of a longer `lens` are ignored; neither case can be expressed.
- The order in which the Dictionary loops visit keys, and hence the order of `FoundCrosses`, is left open. Results are stated as membership and absence of duplicates.
- The SortedSet enumerator copy at lines 213-221 and the in-place mutation of shared StartStop objects are modelled as positions in a Start-ordered sequence, with the Stop and Dead values in sequences of their own.
- `VStrokes`, `HStrokes`, `HStrokesSorted` and `FoundCrosses` are fields (lines 88-90) that persist across several calls of `Go` on one object: a second call would extend the old lines, `HStrokesSorted.Add` would refuse rows already present so stale row lists would be searched, and the crossings would accumulate. The model starts every call from empty maps and returns the list of that call, which matches how `Main` uses a fresh `Compute` per call.
- `System.Drawing.Point` is a pair of integers.
- Consolidate.ConsolidateLine: on a line holding an interval with Start > Stop (only a negative move length stores one), the contract does not say which of those empty intervals survive, because they cover and join nothing; on well-formed lines the result is fixed (Consolidate.ConsolidationDetermined).
- Consolidate.ConsolidateStrokes: the same gap as Consolidate.ConsolidateLine for lines holding an interval with Start > Stop.
- SortedSet.GetViewBetween is modelled as a filter of the row-ordered index on lo <= row <= hi. Its laziness and the live-view behaviour of the returned set are not modelled.
