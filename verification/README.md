# 1line-admin level editor, modelled in Dafny

1line-admin is a small React tool for authoring levels of a one-stroke puzzle.
On a 9×9 grid of cells the author activates **dots** and then, in line mode,
traces a **path** through them. `generate` turns the dots and the path into an
exported level `{ id, points }`:

- there is one point per dot, holding the dot's coordinates;
- each point has a `join` list, holding the positions of the dot's path
  neighbours in the path's list of distinct cells;
- the points are ordered by the first time the path visits each dot.

The model covers the state and handlers of `src/components/App.jsx`, the
component the application mounts. It is split into four modules:

- `Cells` (`cells.dfy`): grid cells and the 9×9 bound.
- `Paths` (`paths.dfy`): the sequence operations `generate` relies on.
  - `FirstIndex` is the first occurrence, as reached by the scan's `??=`.
  - `FindIndex` is `findIndex` with its `-1`.
  - `Dedup` is the order-preserving deduplication done through a `Set`.
- `Export` (`export.dfy`): the export itself.
  - `Neighbours` gives the `subIndexes` of one visit.
  - `JoinUpTo` and `Join` give a dot's `join`.
  - `BuildLevel` is the unsorted `level`, stated declaratively.
  - The loop methods `GenerateLevel`, `ScanPath` and `ScanStep` follow the
    handler's nested `map` loops and are proved equal to `BuildLevel`.
  - `SortById` is the sort by `id`.
  - `Derive` is the complete exported object.
- `Editor` (`editor.dfy`): the component state (`dots`, `points`, `drawMode`,
  `output`) and its handlers (`addDot`, `removeDot`, `drawLine`, `clear`,
  `generate`, the mode buttons).
  - `Tap` models how the canvas routes a tap that reaches a circle. An
    active dot's circle lies above everything else, so it receives the tap.
    The path's stroke lies between the grid circles and the dot circles and
    has no handler; a tap on it is the no-op event `StrokeTap`.
  - `Run` plays a whole session of taps and button presses.

Cells are `Cell(x, y)` with unbounded naturals. A path entry `[x, y]` and a
dot `{ y, x }` both become a `Cell`. The level id typed by the author is a
plain `int` parameter.

## Model

| member | source | states |
|---|---|---|
| Paths.FirstIndex | src/components/App.jsx:51-59 | the id a scan assigns: None exactly when the cell is not on the path; otherwise an index holding the cell with no earlier occurrence |
| Paths.FindIndex | src/components/App.jsx:56 | `findIndex` by equality: -1 exactly when absent, otherwise the first index holding the element |
| Paths.FirstIndexUnique | src/components/App.jsx:56-59 | an occurrence with no earlier occurrence is the first index, for both `FirstIndex` and `FindIndex` |
| Paths.FirstIndexStep | src/components/App.jsx:51-59 | `item.id ??= index` over a growing prefix of the path keeps the first set index, and sets it at the first visit |
| Paths.Dedup | src/components/App.jsx:41-44 | the unique points: no repetitions, exactly the cells of the path, never longer than the path |
| Paths.DedupOrder | src/components/App.jsx:41-44 | the unique points are in order of first occurrence along the path |
| Paths.DedupOfDistinct | src/components/App.jsx:41-44 | a path without repeated cells is its own list of unique points |
| Paths.DedupIdempotent | src/components/App.jsx:41-44 | deduplicating twice equals deduplicating once |
| Paths.DedupCharacterised | src/components/App.jsx:41-44 | any repetition-free list of the path's cells in first-occurrence order is the list of unique points |
| Export.Neighbours | src/components/App.jsx:53-57 | a visit at `i` contributes the unique-list position of path cell `i-1` (if it exists) and then that of `i+1` (if it exists); each value is a valid position |
| Export.JoinUpTo | src/components/App.jsx:49-61 | every value a dot's `join` collects is a valid index into the unique points |
| Export.JoinUpToSound | src/components/App.jsx:51-61 | every collected value is the unique-list position of a path neighbour of some visit of the dot |
| Export.JoinUpToComplete | src/components/App.jsx:51-61 | the unique-list position of every path neighbour of every visit is collected |
| Export.JoinContents | src/components/App.jsx:49-61 | a value is in a dot's `join` if and only if it is the unique-list position of a path neighbour of one of the dot's visits |
| Export.JoinUpToVisit | src/components/App.jsx:52-61 | a visit appends the previous neighbour's position and then the next one's, after what was collected before |
| Export.JoinUpToSkip | src/components/App.jsx:52 | a path cell other than the dot adds nothing |
| Export.JoinUpToOfUnvisited | src/components/App.jsx:51-52 | a dot the path never visits keeps an empty `join` |
| Export.Join | src/components/App.jsx:49-61 | a dot's complete `join`: every value is a valid index into the unique points, and a dot the path never visits exports `join: []` |
| Export.BuildLevel | src/components/App.jsx:40 | the level holds one entry per dot |
| Export.GenerateLevel | src/components/App.jsx:40-64 | the nested loops give one entry per dot, in dot order, with the dot, its complete `join` and its first-visit id; this equals `BuildLevel` |
| Export.ScanPath | src/components/App.jsx:51-63 | scanning the whole path for one dot yields the dot, its `join` and the index of its first visit (undefined if never visited) |
| Export.ScanStep | src/components/App.jsx:52-62 | one path index keeps the scan invariant: the `join` so far, and an id that is set only at the first visit |
| Export.Insert | src/components/App.jsx:68 | inserting into an id-ordered list keeps it ordered and adds exactly that entry |
| Export.SortById | src/components/App.jsx:68 | the sorted level is ordered by id and is a permutation of the level |
| Export.Points | src/components/App.jsx:68 | the final `map` keeps one point per entry, in the same order, with that entry's `dot` and `join` |
| Export.PointsPermutation | src/components/App.jsx:68 | dropping the ids of two permutations of each other gives two permutations of each other |
| Export.Derive | src/components/App.jsx:39-69 | the exported object carries the given level id and one point per dot, and its points are a permutation of the dots' `{ dot, join }` pairs |
| Export.SortedEntries | src/components/App.jsx:40-68 | every sorted entry is the entry built for one of the dots |
| Export.DeriveJoinsInRange | src/components/App.jsx:53-57 | every exported `join` value is a valid index into the unique points (never -1) |
| Export.DerivePoints | src/components/App.jsx:40-68 | a point is exported if and only if it is some dot together with that dot's `join` |
| Export.DeriveOrdered | src/components/App.jsx:59-68 | when the path visits every dot, the exported points follow the order of first visits along the path |
| Export.LevelIdsDistinguish | src/components/App.jsx:59-60 | when every dot is drawn, every entry has an id and no two different entries share one |
| Export.SortedPermutationUnique | src/components/App.jsx:68 | two id-ordered permutations of entries with distinguishing ids are equal |
| Export.DeriveSortIndependent | src/components/App.jsx:68 | when every dot is drawn, every id-ordered permutation of the level exports exactly the points of `Derive`, so the result does not depend on the sorting algorithm |
| Export.ThreeCellStroke | src/components/App.jsx:39-69 | a stroke through three distinct dots exports the ends joined to the middle (`[1]`) and the middle joined to both ends (`[0, 2]`) |
| Export.StrokeLevel | src/components/App.jsx:40-64 | the unsorted entries of that stroke, with ids 0, 1, 2 |
| Export.OneCellPathNoNeighbours | src/components/App.jsx:53-61 | the only visit of a one-cell path has no neighbour in the path's bounds, so the dot's `join` stays empty |
| Export.RevisitRepeatsJoin | src/components/App.jsx:61 | on the path a, b, a the `join` values repeat (`[0, 0]` and `[1, 1]`): `join` is not deduplicated |
| Editor.Initial | src/components/App.jsx:11-14 | the state on mount: no dots, no path, dots mode, the empty output |
| Editor.AddDot | src/components/App.jsx:17-20 | in dots mode the cell is appended after the existing dots, with no check for repeats; in line mode nothing changes; the path, mode and output never change |
| Editor.Without | src/components/App.jsx:24 | the filter keeps exactly the dots that are not at the cell |
| Editor.WithoutCounts | src/components/App.jsx:24 | the filter drops every copy of the cell and keeps every other dot as often as it occurred |
| Editor.WithoutAppend | src/components/App.jsx:24 | filtering distributes over concatenation, so the kept dots stay in order |
| Editor.WithoutAbsent | src/components/App.jsx:24 | filtering out an absent cell changes nothing |
| Editor.WithoutKeepsDistinct | src/components/App.jsx:24 | filtering cannot introduce a repeated dot |
| Editor.WithoutSplice | src/components/App.jsx:24 | filtering out the only copy of a cell leaves the dots before it followed by the dots after it |
| Editor.RemoveDot | src/components/App.jsx:22-25 | in dots mode no dot remains at the cell and all other dots keep their multiplicity; in line mode nothing changes; the path, mode and output never change |
| Editor.RemoveDotKeepsOrder | src/components/App.jsx:22-25 | removing a dot keeps every other dot in its original position relative to the rest |
| Editor.RemoveDotSplices | src/components/App.jsx:22-25 | with distinct dots, removing the dot at position k splices out exactly that dot |
| Editor.DrawLine | src/components/App.jsx:27-30 | in line mode the cell is appended to the path; in dots mode nothing changes; the dots, mode and output never change |
| Editor.Clear | src/components/App.jsx:32-37 | whatever the state, no dots, no path, dots mode and the empty output |
| Editor.SelectMode | src/components/App.jsx:149-156 | a mode button sets the mode and nothing else |
| Editor.Generate | src/components/App.jsx:66-73 | the output becomes a level with the given id and one point per dot; the dots, path and mode are unchanged |
| Editor.Tap | src/components/App.jsx:98-125 | a tap on an active dot removes it in dots mode and appends it to the path in line mode; a tap on an inactive cell appends a dot in dots mode and changes nothing in line mode; the mode and output never change |
| Editor.AddThenRemove | src/components/App.jsx:17-25 | adding a dot that is not active and removing it again restores the state |
| Editor.ClearThenGenerate | src/components/App.jsx:32-73 | generating right after `clear` exports a level with no points |
| Editor.GenerateWithoutDots | src/components/App.jsx:39-69 | with no dots the export has no points, whatever the path |
| Editor.TapInLineMode | src/components/App.jsx:98-124 | in line mode a tap never changes the dots; it extends the path exactly when it hits an active dot |
| Editor.TapKeepsDotsDistinct | src/components/App.jsx:98-124 | a tap on the canvas never makes a dot active twice |
| Editor.TapTwice | src/components/App.jsx:98-124 | in dots mode two taps on the same cell that both reach a circle restore the dots (in the same order when the cell was inactive) and leave the path alone |
| Editor.Step | src/components/App.jsx:98-156 | the handler each input reaches: a stroke tap changes nothing, taps and mode buttons leave the output alone, mode and generate buttons leave dots and path alone, clear resets everything, generate stores a level with the typed id |
| Editor.Run | src/components/App.jsx:98-156 | an empty session changes nothing, and a session without mode or clear buttons keeps the drawing mode |
| Editor.RunConcat | src/components/App.jsx:98-156 | running a session split in two equals running the second part from the state the first part reached |
| Editor.StrokeTapsIgnored | src/components/App.jsx:104-110 | a tap on the path's stroke, wherever it falls in a session, changes nothing |
| Editor.StepKeepsWellFormed | src/components/App.jsx:98-156 | any tap on the grid or button press keeps the dots distinct and all dots and path cells on the grid |
| Editor.RunKeepsWellFormed | src/components/App.jsx:98-156 | a whole session of grid taps and button presses keeps the state well formed |
| Editor.SessionWellFormed | src/components/App.jsx:4-14 | every session that starts from the mounted state and taps only grid cells reaches a well-formed state |

## Left out

- Rendering (konva circles and line, the pixel mapping `x * 35 + 15`), the JSON shown in the output panel and the copy-to-clipboard button are not modelled: they are display and browser I/O.
- Which element a pixel lands on is not modelled. Each tap event says which element received it: `TapAt` for a circle, `StrokeTap` for the path's stroke. The stroke's geometry (10 px wide, between consecutive path cells) is left to the events.
- Editor.TapTwice: the restore property holds for two taps that both reach a circle. After a dot that the drawn path crosses is removed, a second tap at its centre lands on the stroke (`StrokeTap`), which changes nothing, so the dot is not added back.
- The `radius` and `color` fields of dots are not modelled: they are constant and never reach the export.
- Reading the level id from the input field (`Number(inputRef.current.value) ?? 0`) is not modelled: the id is a parameter of `Generate` and `Derive`. `Number` never returns `null` or `undefined`, so `?? 0` never applies. The field has `type="number"`, so an empty or non-numeric entry reads back as `""`, which `Number` turns into 0. Negative and decimal numbers pass through unchanged.
- Export.Derive: the level id is an `int`, so fractional ids such as `1.5`, which the number field accepts, are outside the model.
- Export.SortById: the source sorts with `a.id - b.id`. For a dot the path never visits, `id` is `undefined` and the comparison yields `NaN`, so the order the browser's sort produces is not defined. The model places such entries after every visited dot. `Export.DeriveSortIndependent` shows that the choice does not matter when every dot is visited.
- Paths.Dedup: the source deduplicates the path by joining it into the string `"x,y-x,y"` and splitting it again. The model deduplicates cells directly. For an empty path the source's string round trip yields one bogus entry `[0, NaN]`; that entry is never read, because no dot has a visit.
- Export.ScanStep: the source's `item.dot = point` makes the entry's `dot` the very array object `points[index]`, shared with the path. The model has values only, so it sets `dot` to an equal cell and cannot express that sharing.
- The grid bound is not checked by any handler, in the source or in the model. Only the canvas produces cells, and `Editor.SessionWellFormed` assumes every tap lands on a grid cell.
- `addDot` never checks for repeats. Dots stay distinct because a tap on an active dot reaches its circle, which calls `removeDot`; `Editor.Tap` models this routing and `Editor.TapKeepsDotsDistinct` proves it.
- `drawLine` does not check that the cell is an active dot. Only active dots' circles call it, which `Editor.Tap` models.
- A visit's neighbours `i - 1` and `i + 1` that fall outside the path are dropped. A visit at one end of a path of two or more cells contributes one value; the only visit of a one-cell path contributes none (`Export.OneCellPathNoNeighbours`).
- `src/App.jsx` (an earlier variant of the editor with colour-flag cells) and the entry point `src/main.jsx` are not part of this model.
- React's state batching and re-rendering are not modelled. Each handler is a function from state to state, applied in event order.
