# Wave Function Collapse in Dafny

A verified model of the core of a Unity Wave Function Collapse (WFC) tile generator. It covers four parts:

- **The solver.** This is one `ChunkState` per cell of a 3-D grid (`WFCGenerator`) or a 2-D grid (`WFCGenerator2D`):
  - `Reset` gives every cell the full pattern set;
  - `SetBoundaryPattern` restricts the border cells;
  - `Observe` collapses the non-definite cell of least jittered entropy to a weighted random pattern;
  - `PropagateProgressive` drives a LIFO stack of changed cells: each popped cell restricts its in-grid neighbours to what it allows and pushes those that shrank, until the stack is empty;
  - `RunProgressive` repeats the observe-and-propagate step until `Observe` finds nothing.
- **Adjacency extraction.** `Tilemap3DPattern` and `TilemapPattern` build the pattern graph from painted tiles. Each prefab gets one `Pattern`, and each pattern's neighbour set for a direction collects the patterns seen at that offset.
- **Chunked tile storage.** `TileChunk` is a slot array plus a swap-remove list. `GameObjectTilemap` adds floor-division chunk addressing, a chunk dictionary and a tile count.
- **Helpers.** These come from `Utility.cs` (weighted `RandomTake`, `IndexOf`, `MinOf`/`MaxOf`, `Diff`, `DiagonalIndices`, `PopBack`, `TryGet`, `Join`, `ToOrdinal`, `OffsetArray`) and the LIFO `ObjectPool`.

How the source's values and objects are represented:

- **Patterns** are integer ids into a table. The solver only sees `Adjacency(weight, neighbors)`, the `IPattern` view.
- **`ChunkState`** is a C# struct, so it is a datatype. Its mutators are methods that take a record and return the new one.
- **The generators** are classes. Each holds an `array3`/`array2` of cells, the propagation stack as a sequence with its top last, and the random stream.
- **The extractors** and the tilemap classes are classes whose methods update their dictionaries and lists in place.

The main results:

- **The solver preserves an arc-consistency invariant.** Every collapsed cell off the stack has neighbours inside its `CompatibleAdjacent`. After propagation, so does every cell that was on the stack and every cell that propagation changed.
- **Propagation terminates.** Each push follows a strict shrink of a candidate set, so the number of (cell, candidate) pairs decreases.
- **`RunProgressive` ends with every cell `Definite` or emptied.** When none was emptied and the stack is clear, every cell is collapsed and every pair of neighbours is allowed by the adjacency rules.
- **Extraction records exactly the observed adjacencies.** After `ExtractPatterns`, each pattern's neighbour set in direction `idx` holds exactly the patterns of the tiles painted at offset `idx` from one of its tiles.
- **The tilemap's chunk addressing is injective.** `GetTile` reads back what `SetTile` wrote. `Count` rises exactly when `SetTileInstance` fills an empty slot, and falls exactly when `RemoveTile` finds an occupant.

External inputs become parameters:

- The entropy function (`Mathf.Log` over float weights) is an uninterpreted `EntropyFn`.
- `System.Random` is a stream of reals in `[0, 1)` plus a draw counter, and `new Random(seed)` is a function from seeds to streams.
- The enumeration order of a `HashSet` is a function that lists each set exactly once.
- The shared `ObjectPool<HashSet<..>>` of `WFCGenerator2D` is an `ObjectPool` object.

## Model

| member | source | states |
|---|---|---|
| `ChunkStates.EntropyOf` | Assets/Scripts/WFC/ChunkState.cs:120-125 | the entropy of a candidate set is NaN exactly when the set is empty (the log of a zero weight sum), otherwise a finite value |
| `ChunkStates.New` | Assets/Scripts/WFC/ChunkState.cs:34-48 | a fresh state is not definite, holds the full pattern set, has `adjacentCount` adjacency sets each equal to the union of the candidates' neighbours, and carries the entropy of the full set |
| `ChunkStates.CollapsedPattern` | Assets/Scripts/WFC/ChunkState.cs:20-28 | reading the pattern fails with `NotDetermined` iff the cell is not definite, otherwise yields the collapsed pattern |
| `ChunkStates.Ban` | Assets/Scripts/WFC/ChunkState.cs:56-65 | returns true iff the pattern was a candidate; afterwards it is removed, the adjacency cache is untouched, and the entropy is recomputed only on a change |
| `ChunkStates.UpdateCompatibleFrom` | Assets/Scripts/WFC/ChunkState.cs:74-85 | reports a change iff the candidates are not a subset of the given set; with no change the state is identical; on a change the candidates become the intersection, a strict subset with fewer members, and the cache and entropy are brought up to date |
| `ChunkStates.CollapseTo` | Assets/Scripts/WFC/ChunkState.cs:92-100 | afterwards the candidates are exactly `{p}`, the cell is definite with pattern `p` and entropy 0, and each adjacency set is `p`'s neighbour set |
| `ChunkStates.UpdateAdjacent` | Assets/Scripts/WFC/ChunkState.cs:105-115 | for every direction the adjacency cache equals the union of the candidates' neighbour sets; nothing else changes |
| `ChunkStates.AdjacentUnionAdd` | Assets/Scripts/WFC/ChunkState.cs:110-113 | adding one candidate to the union adds exactly its neighbour set, which is the step the inner loop takes |
| `ChunkStates.SingletonUnion` | Assets/Scripts/WFC/ChunkState.cs:94-99 | the cache of a cell collapsed to one pattern is that pattern's neighbour sets |
| `ChunkStates.StrictSubsetSmaller` | Assets/Scripts/WFC/ChunkState.cs:76-81 | a strict shrink of a candidate set lowers its size, which is what makes propagation terminate |
| `ChunkStates.SubsetSmaller` | Assets/Scripts/WFC/ChunkState.cs:76-78 | a subset is no larger than its superset |
| `ChunkStates.RestrictionKeepsValid` | Assets/Scripts/WFC/ChunkState.cs:74-85 | a strict restriction with a refreshed cache and entropy keeps a cell's invariant (cache consistent, candidates within the pattern set, entropy matching) |
| `PatternInterface.Adjacency.GetAdjacent` | Assets/Scripts/IPattern.cs:5-9 | `GetAdjacent(i)` succeeds iff `i` indexes a direction, and then yields that direction's neighbour set |
| `Patterns.Orientation2D.Index` | Assets/Scripts/Pattern.cs:7-13 | every orientation has an index below 4 |
| `Patterns.OrientationAt` | Assets/Scripts/Pattern.cs:7-13 | the orientation with index `i` has index `i` |
| `Patterns.OrientationIndices` | Assets/Scripts/Pattern.cs:7-13 | Right, Up, Left, Down are indices 0-3 both ways round |
| `Patterns.NewPattern` | Assets/Scripts/Pattern.cs:35-43 | the constructor stores the payload, weighs 1 and creates exactly `adjacentCount` empty neighbour sets |
| `Patterns.Empties` | Assets/Scripts/Pattern.cs:38-42 | `n` empty neighbour sets, the sequence both constructors start a pattern with |
| `Patterns.NewWeightedPattern` | Assets/Scripts/WFC/Tilemap3DPattern.cs:81 | the three-argument constructor the extractor calls: the payload and the given weight with `adjacentCount` empty neighbour sets |
| `Patterns.Pattern.GetAdjacent` | Assets/Scripts/Pattern.cs:46 | `GetAdjacent(i)` is `Neighbors[i]`; an index outside `[0, adjacentCount)` is an out-of-range error |
| `Patterns.Pattern.AsAdjacency` | Assets/Scripts/Pattern.cs:45-46 | the solver's view of a pattern keeps its weight and neighbour sets |
| `Patterns.Pattern.AddNeighbor` | Assets/Scripts/WFC/Tilemap3DPattern.cs:116 | `Neighbors[idx].Add(q)`: direction `idx` gains `q`, every other direction and the payload and weight are unchanged |
| `Patterns2D.NewPattern2D` | Assets/Scripts/Pattern2D.cs:18-37 | the payload is stored and there are exactly four neighbour sets, all empty |
| `Patterns2D.AccessorsAlias` | Assets/Scripts/Pattern2D.cs:26-32 | `Right`, `Up`, `Left`, `Down` alias `Neighbors[0]`, `[1]`, `[2]`, `[3]` |
| `Patterns2D.Pattern2D.GetAdjacent` | Assets/Scripts/Pattern2D.cs:40 | `GetAdjacent(i)` succeeds iff `0 <= i < 4` and yields `Neighbors[i]` |
| `Patterns2D.Pattern2D.AsAdjacency` | Assets/Scripts/Pattern2D.cs:39-40 | the solver's view has weight 1 and the four neighbour sets |
| `Patterns2D.Pattern2D.AddTo` | Assets/Scripts/Pattern2D.cs:26-32 | adding through one alias changes only that side |
| `Selection.JitteredKey` | Assets/Scripts/WFC/WFCGenerator.cs:113-117 | entropy plus jitter is NaN iff the entropy is |
| `Selection.Keys` | Assets/Scripts/WFC/WFCGenerator.cs:108-113 | one jitter draw per scanned non-definite cell, in scan order |
| `Selection.FirstMinimum` | Assets/Scripts/WFC/WFCGenerator.cs:114-118 | the chosen index is in range and has a finite key |
| `Selection.FirstMinimumIsFirstLeast` | Assets/Scripts/WFC/WFCGenerator.cs:101-123 | nothing is chosen iff every key is NaN; otherwise the chosen key is least among finite keys and strictly less than every earlier one (ties go to the earliest cell) |
| `Selection.FoldIsFirstMinimum` | Assets/Scripts/WFC/WFCGenerator.cs:101-119 | the scan loop's running `minChunk`/`minEntropy` (starting from "none", the `float.MaxValue` sentinel) end at the first least key |
| `Selection.FoldAppend` | Assets/Scripts/WFC/WFCGenerator.cs:113-118 | scanning one more cell applies one strict-less-than update with the next draw |
| `Selection.TracksAppend` | Assets/Scripts/WFC/WFCGenerator.cs:114-118 | the scan invariant survives a cell that does not improve the minimum, and is re-established at the new cell when it does |
| `Selection.KeysAppend` | Assets/Scripts/WFC/WFCGenerator.cs:113 | the key of the next cell uses the next draw of the stream |
| `Selection.FirstMinimumAppend` | Assets/Scripts/WFC/WFCGenerator.cs:114-118 | the first minimum of a longer list moves to the new key exactly when it is finite and strictly smaller |
| `Selection.ChoosePattern` | Assets/Scripts/WFC/WFCGenerator.cs:125-127 | the picked pattern is the weighted `RandomTake` of the cell's candidates in enumeration order, and is one of them |
| `Generator3D.Box` | Assets/Scripts/WFC/WFCGenerator.cs:61 | the cells of `BoundsInt(0, Size)` are exactly the positions inside `Size` |
| `Generator3D.BorderCells` | Assets/Scripts/WFC/WFCGenerator.cs:66 | `BoundaryIter(offset)` is read as the cells inside the box whose neighbour at `offset` is outside it |
| `Generator3D.Generator.constructor` | Assets/Scripts/WFC/WFCGenerator.cs:31-38 | stores size, offsets and patterns, allocates the grid and starts the unseeded stream with an empty stack |
| `Generator3D.Generator.Resize` | Assets/Scripts/WFC/WFCGenerator.cs:40-44 | a fresh grid of the new size; the stack and random state are untouched |
| `Generator3D.Generator.Reset` | Assets/Scripts/WFC/WFCGenerator.cs:46-57 | the stack is empty, the stream is the seed's, and every cell is a fresh state with the full pattern set and `NeighborOffset.Length` directions |
| `Generator3D.Generator.ScanMinimum` | Assets/Scripts/WFC/WFCGenerator.cs:101-119 | the triple loop draws once per non-definite cell and finds the first cell of least jittered entropy in x, y, z order |
| `Generator3D.Generator.ScanRow` | Assets/Scripts/WFC/WFCGenerator.cs:106-119 | the innermost loop extends the scan by one row, keeping the running minimum equal to the fold over the cells seen |
| `Generator3D.Generator.ScanPlane` | Assets/Scripts/WFC/WFCGenerator.cs:105-119 | the middle loop extends the scan by one plane, keeping the running minimum equal to the fold over the cells seen |
| `Generator3D.Generator.ScanVisitsUncollapsed` | Assets/Scripts/WFC/WFCGenerator.cs:104-110 | the scan lists exactly the non-definite cells, each once, in lexicographic order |
| `Generator3D.Generator.ObserveFindsNothingIff` | Assets/Scripts/WFC/WFCGenerator.cs:101-123 | no cell is chosen iff every non-definite cell has an empty candidate set (NaN entropy) |
| `Generator3D.Generator.ObserveFailsIffAllDefinite` | Assets/Scripts/WFC/WFCGenerator.cs:101-123 | without contradictions, `Observe` fails iff every cell is definite |
| `Generator3D.Generator.Observe` | Assets/Scripts/WFC/WFCGenerator.cs:99-135 | succeeds iff the scan finds a minimum; consumes one draw per scanned cell plus one for the pick; collapses the first least cell to the weighted pick from its old candidates and pushes it; every other cell is unchanged; on failure the position is the default and the stack is untouched |
| `Generator3D.Generator.ChosenCell` | Assets/Scripts/WFC/WFCGenerator.cs:108-125 | a scanned cell with a finite jittered key is in the grid, non-definite and has candidates, so `RandomTake` has something to pick from |
| `Generator3D.Generator.ObserveAt` | Assets/Scripts/WFC/WFCGenerator.cs:125-131 | the chosen cell is collapsed to the weighted pick from its candidates with the next draw and pushed; no other cell changes |
| `Generator3D.Generator.NothingFound` | Assets/Scripts/WFC/WFCGenerator.cs:101-123 | when the scan finds no minimum, every non-definite cell has an empty candidate set |
| `Generator3D.Generator.CollapseAndPush` | Assets/Scripts/WFC/WFCGenerator.cs:128-131 | the chosen cell is collapsed to the pattern and pushed, and the invariant is kept |
| `Generator3D.Generator.Restrict` | Assets/Scripts/WFC/WFCGenerator.cs:151-155 | `UpdateCompatibleFrom` on one neighbour, written back: changed iff the neighbour was not within the set, then it is the intersection and the candidate count strictly drops |
| `Generator3D.Generator.RestrictAndPush` | Assets/Scripts/WFC/WFCGenerator.cs:151-156 | as `Restrict`, and the neighbour is pushed iff it changed |
| `Generator3D.Generator.PropagateDirection` | Assets/Scripts/WFC/WFCGenerator.cs:144-157 | a neighbour outside `Size` is skipped and nothing changes; otherwise it becomes its old candidates intersected with the popped cell's `CompatibleAdjacent[dir]`, it is pushed iff that removed a candidate, and no other cell changes |
| `Generator3D.Generator.PropagateStep` | Assets/Scripts/WFC/WFCGenerator.cs:139-159 | one pop: the stack below the top is kept and only cells that lost a candidate are pushed, covering every cell that changed; the popped cell is on the stack again or all its arcs hold; with no zero offset every cell ends as `Swept` from its old state by the popped cell's adjacency; the grid stays valid and the candidate pairs strictly shrink unless nothing but the pop happened |
| `Generator3D.Generator.PopAndSweep` | Assets/Scripts/WFC/WFCGenerator.cs:139-159 | the pop and the direction loop, with the same stack and per-cell results as `PropagateStep` |
| `Generator3D.Generator.SweepFrom` | Assets/Scripts/WFC/WFCGenerator.cs:144-157 | the direction loop for one popped cell, against the state after the pop: every cell `Swept` (with no zero offset), pushes are shrunk cells covering every change, and the popped cell's arcs hold unless it was pushed |
| `Generator3D.Generator.SweepLoop` | Assets/Scripts/WFC/WFCGenerator.cs:144-157 | the `for` loop over the directions keeps the pop's progress invariant up to the table's length |
| `Generator3D.Generator.PropagateNext` | Assets/Scripts/WFC/WFCGenerator.cs:144-157 | one direction extends the pop's progress: pushes, changes, arcs and `Swept` cover one more direction |
| `Generator3D.Generator.PushesAdvance` | Assets/Scripts/WFC/WFCGenerator.cs:151-156 | one more direction keeps the stack prefix and pushes only a cell that lost a candidate |
| `Generator3D.Generator.ChangesAdvance` | Assets/Scripts/WFC/WFCGenerator.cs:151-156 | one more direction keeps every changed cell on the stack above the pop |
| `Generator3D.Generator.ArcsAdvance` | Assets/Scripts/WFC/WFCGenerator.cs:144-157 | one more direction extends the popped cell's handled arcs |
| `Generator3D.Generator.SweptAdvance` | Assets/Scripts/WFC/WFCGenerator.cs:151-155 | one more direction extends every cell's `Swept` state by that direction's intersection |
| `Generator3D.Generator.PopFinished` | Assets/Scripts/WFC/WFCGenerator.cs:139-159 | a sweep over every direction, restated against the state before it |
| `Generator3D.Generator.SweptMembership` | Assets/Scripts/WFC/WFCGenerator.cs:144-157 | a candidate survives a pop iff every direction that reaches the cell allows it |
| `Generator3D.Generator.ArcsOutKept` | Assets/Scripts/WFC/WFCGenerator.cs:151-155 | a cell whose state did not change keeps its arcs while all cells only shrink |
| `Generator3D.Generator.AllArcsDone` | Assets/Scripts/WFC/WFCGenerator.cs:144-157 | once every direction of the popped cell is handled, the grid is arc consistent off the stack |
| `Generator3D.Generator.FewerCandidates` | Assets/Scripts/WFC/WFCGenerator.cs:151-155 | a pop that pushed a shrunk cell strictly shrinks the candidate pairs |
| `Generator3D.Generator.SameCandidates` | Assets/Scripts/WFC/WFCGenerator.cs:139-159 | a pop that pushed nothing leaves the candidate pairs as they were |
| `Generator3D.Generator.Propagate` | Assets/Scripts/WFC/WFCGenerator.cs:137-162 | runs to completion: the stack ends empty and the grid arc consistent; every cell that was on the stack and every cell that changed ends with all its arcs holding; candidate sets only shrink |
| `Generator3D.Generator.SettledKept` | Assets/Scripts/WFC/WFCGenerator.cs:139-160 | across one pop, cells already settled keep their arcs, the popped cell joins them unless pushed again, and every waiting or changed cell stays on the stack or is settled |
| `Generator3D.Generator.ExtendArcs` | Assets/Scripts/WFC/WFCGenerator.cs:144-157 | once direction `dir` of the popped cell has been handled, the arc invariant covers one more direction |
| `Generator3D.Generator.Step` | Assets/Scripts/WFC/WFCGenerator.cs:83-95 | one observe-and-propagate round: on success a new cell becomes definite, the set of non-definite cells strictly shrinks and the stack is empty; on failure nothing changes and the grid is finished |
| `Generator3D.Generator.RunProgressive` | Assets/Scripts/WFC/WFCGenerator.cs:81-97 | terminates with every cell definite or emptied; yields distinct positions, each newly collapsed; with an empty stack and no contradiction the grid is solved |
| `Generator3D.Generator.FinishedIsSolved` | Assets/Scripts/WFC/WFCGenerator.cs:81-97 | a finished grid without contradictions and with an empty stack is collapsed everywhere and every adjacent pair is allowed |
| `Generator3D.Generator.Candidates` | Assets/Scripts/WFC/WFCGenerator.cs:137-162 | the (cell, candidate) pairs of the grid, the measure propagation decreases |
| `Generator3D.Generator.NonDefinite` | Assets/Scripts/WFC/WFCGenerator.cs:81-97 | the positions of non-definite cells, the measure the run loop decreases |
| `Generator3D.Generator.ShrinkCandidates` | Assets/Scripts/WFC/WFCGenerator.cs:151-155 | a strict restriction of one cell strictly shrinks the grid's candidate pairs |
| `Generator3D.Generator.ShrinkKeepsCells` | Assets/Scripts/WFC/WFCGenerator.cs:151-155 | writing back one valid cell keeps every cell valid |
| `Generator3D.Generator.ShrinkKeepsArcs` | Assets/Scripts/WFC/WFCGenerator.cs:151-155 | shrinking one neighbour's candidates keeps the arc invariant everywhere except at that neighbour |
| `Generator3D.Generator.ArcsExceptOutside` | Assets/Scripts/WFC/WFCGenerator.cs:139-160 | the arc invariant with no exception is full arc consistency |
| `Generator3D.Generator.RestrictBorder` | Assets/Scripts/WFC/WFCGenerator.cs:62-75 | for one direction, fails (changing nothing) iff the border is non-empty and the contrary index is missing or outside `Neighbors`; otherwise every border cell becomes its candidates intersected with `Neighbors[contraryIdx]`, no other cell changes, and exactly the cells that lost a candidate are pushed, each once |
| `Generator3D.Generator.RestrictCells` | Assets/Scripts/WFC/WFCGenerator.cs:66-75 | every listed cell becomes its candidates intersected with the allowed set, no other cell changes, and the stack grows by exactly the cells that lost a candidate, each once |
| `Generator3D.Generator.RestrictOne` | Assets/Scripts/WFC/WFCGenerator.cs:68-74 | one border cell restricted and pushed iff it shrank, keeping the pass invariant |
| `Generator3D.Generator.OneDone` | Assets/Scripts/WFC/WFCGenerator.cs:68-74 | the pass invariant extends to one more cell |
| `Generator3D.Generator.MoveDone` | Assets/Scripts/WFC/WFCGenerator.cs:66 | taking a cell from the remaining ones moves it to the done ones |
| `Generator3D.Generator.CellsFinished` | Assets/Scripts/WFC/WFCGenerator.cs:66-75 | a finished pass, restated against the state before it |
| `Generator3D.BorderSweptMembership` | Assets/Scripts/WFC/WFCGenerator.cs:62-75 | a candidate survives the border passes iff every pass that runs over the cell allows it |
| `Generator3D.PassesDone` | Assets/Scripts/WFC/WFCGenerator.cs:62-65 | the number of passes before one throws: all earlier directions are indexed and the one it stops at is not |
| `Generator3D.Generator.RestrictAllBorders` | Assets/Scripts/WFC/WFCGenerator.cs:62-76 | the loop over all directions succeeds iff every direction's pass is indexed; the passes run in order until the first one that throws, and every cell ends as `BorderSwept` over the passes that ran; the pushes are cells that lost a candidate, covering every cell that changed |
| `Generator3D.Generator.PassAdvance` | Assets/Scripts/WFC/WFCGenerator.cs:62-76 | one more pass extends every cell's `BorderSwept` state and the stack bookkeeping |
| `Generator3D.Generator.BordersFinished` | Assets/Scripts/WFC/WFCGenerator.cs:62-76 | the passes that ran, restated against the state before them |
| `Generator3D.Generator.RestrictNextBorder` | Assets/Scripts/WFC/WFCGenerator.cs:62-76 | one iteration of the direction loop: it succeeds iff the direction's pass is indexed, and then the loop state covers one more pass; when it throws the state is as before |
| `Generator3D.PassesAt` | Assets/Scripts/WFC/WFCGenerator.cs:62-65 | the loop stops at direction `n` exactly where `PassesDone` does, when all earlier directions are indexed and `n` is the end of the table or not indexed |
| `Generator3D.Generator.RunPasses` | Assets/Scripts/WFC/WFCGenerator.cs:62-76 | the direction loop: it runs the passes in table order, finishes the table on success, and on failure stops at a direction whose pass is not indexed, with the loop state covering every pass before it |
| `Generator3D.Generator.RestrictedStaysRestricted` | Assets/Scripts/WFC/WFCGenerator.cs:62-76 | a border restricted by an earlier iteration stays restricted while later iterations only shrink candidate sets |
| `Generator3D.Generator.SetBoundaryPattern` | Assets/Scripts/WFC/WFCGenerator.cs:59-79 | succeeds iff every direction's pass is indexed; on success every cell is within its `BorderSwept` candidates, every border is restricted, the stack is empty, and every cell that changed or was waiting has all its arcs holding; on failure (an out-of-range contrary index) the passes before it have been applied exactly and their pushes are left on the stack |
| `Generator3D.BorderCellAsWritten` | Assets/Scripts/WFC/WFCGenerator.cs:68-74 | the loop body as written: the candidate sets are shared and shrink, but the stored copy keeps its old entropy |
| `Generator3D.StaleBorderCellIsObserved` | Assets/Scripts/WFC/WFCGenerator.cs:68-74 | a border cell emptied without write-back breaks the cell invariant, is still chosen by the minimum scan, and `RandomTake` over its empty candidates fails |
| `Generator3D.StaleBorderCellExample` | Assets/Scripts/WFC/WFCGenerator.cs:68-74 | one concrete pattern and cell for which this happens |
| `Generator3D.WrittenBackEmptyCellIsSkipped` | Assets/Scripts/WFC/WFCGenerator.cs:113-118 | an emptied cell whose state is written back has NaN entropy and is never chosen |
| `Generator2D.OppositeDirection` | Assets/Scripts/WFCGenerator2D.cs:21-27 | the table is right, up, left, down; direction `(d+2)%4` is the negation of `d`, and stepping there and back returns to the start |
| `Generator2D.Generator.constructor` | Assets/Scripts/WFCGenerator2D.cs:29-35 | stores size and patterns, allocates the grid and starts the unseeded stream with an empty stack |
| `Generator2D.Generator.Resize` | Assets/Scripts/WFCGenerator2D.cs:37-41 | a fresh grid of the new size; the stack and random state are untouched |
| `Generator2D.Generator.Reset` | Assets/Scripts/WFCGenerator2D.cs:43-53 | the stack is empty, the stream is the seed's, and every `Size.x × Size.y` cell is a fresh state with the full pattern set and 4 directions |
| `Generator2D.Generator.ScanMinimum` | Assets/Scripts/WFCGenerator2D.cs:75-92 | one draw per non-definite cell; finds the first cell of least jittered entropy in x, y order |
| `Generator2D.Generator.ScanColumn` | Assets/Scripts/WFCGenerator2D.cs:79-92 | the inner loop extends the scan by one column, keeping the running minimum equal to the fold over the cells seen |
| `Generator2D.Generator.ScanVisitsUncollapsed` | Assets/Scripts/WFCGenerator2D.cs:78-83 | the scan lists exactly the non-definite cells, each once, in lexicographic order |
| `Generator2D.Generator.ObserveFindsNothingIff` | Assets/Scripts/WFCGenerator2D.cs:73-96 | no cell is chosen iff every non-definite cell has an empty candidate set |
| `Generator2D.Generator.ObserveFailsIffAllDefinite` | Assets/Scripts/WFCGenerator2D.cs:73-96 | without contradictions, `Observe` fails iff no cell is non-definite |
| `Generator2D.Generator.Observe` | Assets/Scripts/WFCGenerator2D.cs:73-108 | as in 3-D: the first least cell is collapsed to the weighted pick from its old candidates and pushed, drawing once per scanned cell plus once; everything else is unchanged |
| `Generator2D.Generator.ChosenCell` | Assets/Scripts/WFCGenerator2D.cs:81-98 | a scanned cell with a finite jittered key is in the grid, non-definite and has candidates |
| `Generator2D.Generator.ObserveAt` | Assets/Scripts/WFCGenerator2D.cs:98-104 | the chosen cell is collapsed to the weighted pick from its candidates with the next draw and pushed; no other cell changes |
| `Generator2D.Generator.NothingFound` | Assets/Scripts/WFCGenerator2D.cs:73-96 | when the scan finds no minimum, every non-definite cell has an empty candidate set |
| `Generator2D.Generator.CollapseAndPush` | Assets/Scripts/WFCGenerator2D.cs:101-104 | the chosen cell is collapsed to the pattern and pushed, and the invariant is kept |
| `Generator2D.Generator.Restrict` | Assets/Scripts/WFCGenerator2D.cs:124-128 | changed iff the neighbour was not within the set; then it is the intersection and the candidate count strictly drops |
| `Generator2D.Generator.RestrictAndPush` | Assets/Scripts/WFCGenerator2D.cs:124-129 | as `Restrict`, and the neighbour is pushed iff `UpdateCompatibleFrom` returned true |
| `Generator2D.Generator.PropagateDirection` | Assets/Scripts/WFCGenerator2D.cs:117-130 | an out-of-bounds neighbour is skipped and nothing changes; otherwise it becomes its old candidates intersected with the popped cell's `CompatibleAdjacent[dir]`, it is pushed iff that removed a candidate, and no other cell changes |
| `Generator2D.Generator.PropagateStep` | Assets/Scripts/WFCGenerator2D.cs:112-133 | one pop: every cell ends as `Swept` from its old state by the popped cell's adjacency; the stack below the top is kept and only cells that lost a candidate are pushed, covering every cell that changed; the popped cell is on the stack again or all its arcs hold; the candidate pairs strictly shrink unless nothing but the pop happened |
| `Generator2D.SweptNeighbour` | Assets/Scripts/WFCGenerator2D.cs:117-130 | after a pop the neighbour in direction `d` keeps exactly its candidates allowed by `CompatibleAdjacent[d]` |
| `Generator2D.SweptElsewhere` | Assets/Scripts/WFCGenerator2D.cs:117-130 | after a pop a cell that no direction reaches keeps all its candidates |
| `Generator2D.Generator.PopAndSweep` | Assets/Scripts/WFCGenerator2D.cs:112-133 | the pop and the direction loop, with the same stack and per-cell results as `PropagateStep` |
| `Generator2D.Generator.SweepFrom` | Assets/Scripts/WFCGenerator2D.cs:117-130 | the direction loop for one popped cell, against the state after the pop: every cell `Swept`, pushes are shrunk cells covering every change, and the popped cell's arcs hold unless it was pushed |
| `Generator2D.Generator.SweepLoop` | Assets/Scripts/WFCGenerator2D.cs:117-130 | the `for` loop over the four directions keeps the pop's progress invariant |
| `Generator2D.Generator.PropagateNext` | Assets/Scripts/WFCGenerator2D.cs:117-130 | one direction extends the pop's progress |
| `Generator2D.Generator.PopAdvance` | Assets/Scripts/WFCGenerator2D.cs:117-130 | the pop's progress after one more direction |
| `Generator2D.Generator.PushesAdvance` | Assets/Scripts/WFCGenerator2D.cs:124-129 | one more direction keeps the stack prefix and pushes only a cell that lost a candidate |
| `Generator2D.Generator.ChangesAdvance` | Assets/Scripts/WFCGenerator2D.cs:124-129 | one more direction keeps every changed cell on the stack above the pop |
| `Generator2D.Generator.ArcsAdvance` | Assets/Scripts/WFCGenerator2D.cs:117-130 | one more direction extends the popped cell's handled arcs |
| `Generator2D.Generator.SweptAdvance` | Assets/Scripts/WFCGenerator2D.cs:124-128 | one more direction extends every cell's `Swept` state by that direction's intersection |
| `Generator2D.Generator.PopFinished` | Assets/Scripts/WFCGenerator2D.cs:112-133 | a sweep over all four directions, restated against the state before it |
| `Generator2D.Generator.ArcsOutKept` | Assets/Scripts/WFCGenerator2D.cs:124-128 | a cell whose state did not change keeps its arcs while all cells only shrink |
| `Generator2D.Generator.AllArcsDone` | Assets/Scripts/WFCGenerator2D.cs:117-130 | once every direction of the popped cell is handled, the grid is arc consistent off the stack |
| `Generator2D.Generator.FewerCandidates` | Assets/Scripts/WFCGenerator2D.cs:124-128 | a pop that pushed a shrunk cell strictly shrinks the candidate pairs |
| `Generator2D.Generator.SameCandidates` | Assets/Scripts/WFCGenerator2D.cs:112-133 | a pop that pushed nothing leaves the candidate pairs as they were |
| `Generator2D.Generator.Propagate` | Assets/Scripts/WFCGenerator2D.cs:110-135 | runs to completion: the stack ends empty and the grid arc consistent; every cell that was on the stack and every cell that changed ends with all its arcs holding; candidate sets only shrink |
| `Generator2D.Generator.SettledKept` | Assets/Scripts/WFCGenerator2D.cs:112-133 | across one pop, cells already settled keep their arcs, the popped cell joins them unless pushed again, and every waiting or changed cell stays on the stack or is settled |
| `Generator2D.Generator.ExtendArcs` | Assets/Scripts/WFCGenerator2D.cs:117-130 | once direction `dir` of the popped cell has been handled, the arc invariant covers one more direction |
| `Generator2D.Generator.Step` | Assets/Scripts/WFCGenerator2D.cs:57-69 | one round: on success the set of non-definite cells strictly shrinks; on failure nothing changes and the grid is finished |
| `Generator2D.Generator.RunProgressive` | Assets/Scripts/WFCGenerator2D.cs:55-71 | terminates with every cell definite or emptied, yields distinct newly collapsed positions, and a contradiction-free run with an empty stack is solved |
| `Generator2D.Generator.FinishedIsSolved` | Assets/Scripts/WFCGenerator2D.cs:55-71 | a finished, contradiction-free grid with an empty stack has every adjacent pair allowed |
| `Generator2D.Generator.Candidates` | Assets/Scripts/WFCGenerator2D.cs:110-135 | the (cell, candidate) pairs of the grid, the measure propagation decreases |
| `Generator2D.Generator.NonDefinite` | Assets/Scripts/WFCGenerator2D.cs:55-71 | the positions of non-definite cells, the measure the run loop decreases |
| `Generator2D.Generator.ShrinkCandidates` | Assets/Scripts/WFCGenerator2D.cs:124-128 | a strict restriction of one cell strictly shrinks the grid's candidate pairs |
| `Generator2D.Generator.ShrinkKeepsCells` | Assets/Scripts/WFCGenerator2D.cs:124-128 | writing back one valid cell keeps every cell valid |
| `Generator2D.Generator.ShrinkKeepsArcs` | Assets/Scripts/WFCGenerator2D.cs:124-128 | shrinking one neighbour's candidates keeps the arc invariant everywhere except at that neighbour |
| `Generator2D.Generator.ArcsExceptOutside` | Assets/Scripts/WFCGenerator2D.cs:112-133 | the arc invariant with no exception is full arc consistency |
| `Generator2D.Generator.SupportContains` | Assets/Scripts/WFCGenerator2D.cs:141-149 | a pattern is in the accumulated set iff some in-bounds neighbour allows it through `CompatibleAdjacent[(dir+2)%4]` |
| `Generator2D.Generator.AddSupport` | Assets/Scripts/WFCGenerator2D.cs:141-149 | the loop unions the pooled set with every in-bounds neighbour's opposite adjacency set |
| `Generator2D.Generator.RestrictToSupport` | Assets/Scripts/WFCGenerator2D.cs:151-153 | the cell becomes its candidates intersected with the union, and the change is reported iff it was not a subset |
| `Generator2D.Generator.UpdateChunk` | Assets/Scripts/WFCGenerator2D.cs:137-163 | the cell is restricted to the union of its in-bounds neighbours' `CompatibleAdjacent[(dir+2)%4]` (plus whatever the pooled set held); the result says whether it changed; the pooled set is returned empty on both paths; with a pool of empty sets the union is exactly the neighbours' |
| `Generator2D.Generator.SettledNeighboursSupport` | Assets/Scripts/WFCGenerator2D.cs:137-151 | when every in-bounds neighbour is settled and off the stack, the cell's candidates already lie in the union, so `UpdateChunk` reports no change |
| `Tilemap3DPatterns.Opposite` | Assets/Scripts/WFC/Tilemap3DPattern.cs:43-48 | the opposite index of a direction is a direction |
| `Tilemap3DPatterns.OppositeComponents` | Assets/Scripts/WFC/Tilemap3DPattern.cs:43-48 | the six directions come in opposite pairs (0,1), (2,3), (4,5) |
| `Tilemap3DPatterns.OffsetsDistinct` | Assets/Scripts/WFC/Tilemap3DPattern.cs:43-48 | the six offsets are pairwise distinct |
| `Tilemap3DPatterns.IndexOfNegation` | Assets/Scripts/WFC/Tilemap3DPattern.cs:111 | `NeighborOffset.IndexOf(-NeighborOffset[idx])` is the opposite index |
| `Tilemap3DPatterns.ArcsMembership` | Assets/Scripts/WFC/Tilemap3DPattern.cs:93-118 | an adjacency is recorded by the scan iff some scanned painted cell sees it in some direction |
| `Tilemap3DPatterns.ArcsAtMembership` | Assets/Scripts/WFC/Tilemap3DPattern.cs:101-117 | the adjacencies one painted cell records: the neighbour's prefab when painted, otherwise (with empty tiles included) the empty chunk there and the reverse link from the empty chunk in the opposite direction |
| `Tilemap3DPatterns.MetMembership` | Assets/Scripts/WFC/Tilemap3DPattern.cs:93-118 | a prefab gets a pattern iff it is painted at a scanned cell or beside one |
| `Tilemap3DPatterns.MetAtMembership` | Assets/Scripts/WFC/Tilemap3DPattern.cs:95-116 | the prefabs one painted cell meets: its own and its painted neighbours' |
| `Tilemap3DPatterns.Selves` | Assets/Scripts/WFC/Tilemap3DPattern.cs:62-65 | the empty pattern's sets: itself in each of the six directions |
| `Tilemap3DPatterns.ExactAt` | Assets/Scripts/WFC/Tilemap3DPattern.cs:101-117 | in a registry that is exact, a pattern's set holds `q` iff `q` was there before extraction or `q` is current and the adjacency was recorded |
| `Tilemap3DPatterns.GrowKeepsExact` | Assets/Scripts/WFC/Tilemap3DPattern.cs:71-84 | creating a new pattern keeps every other pattern's sets exact and handed-out ids stable |
| `Tilemap3DPatterns.ChunksAgree` | Assets/Scripts/WFC/Tilemap3DPattern.cs:110-116 | changing neighbour sets does not change which pattern a chunk maps to |
| `Tilemap3DPatterns.LinkKeepsExact` | Assets/Scripts/WFC/Tilemap3DPattern.cs:110-116 | adding `q` to direction `idx` of `s` keeps the registry exact for the recorded adjacencies plus this one |
| `Tilemap3DPatterns.PatternChunk` | Assets/Scripts/WFC/Tilemap3DPattern.cs:71-84 | the pattern a chunk maps to is current and carries that chunk |
| `Tilemap3DPatterns.MetAgain` | Assets/Scripts/WFC/Tilemap3DPattern.cs:73-74 | meeting a prefab that already has a pattern changes nothing |
| `Tilemap3DPatterns.StartTracking` | Assets/Scripts/WFC/Tilemap3DPattern.cs:90-91 | after clearing the dictionary, the registry tracks the empty scan |
| `Tilemap3DPatterns.GrowKeepsTracking` | Assets/Scripts/WFC/Tilemap3DPattern.cs:71-84 | a newly created pattern keeps the scan invariant and every handed-out pattern |
| `Tilemap3DPatterns.AddDictKeepsTracking` | Assets/Scripts/WFC/Tilemap3DPattern.cs:77-83 | a new dictionary pattern for a non-boundary prefab keeps the scan invariant |
| `Tilemap3DPatterns.AddBoundaryKeepsTracking` | Assets/Scripts/WFC/Tilemap3DPattern.cs:24-36 | creating the boundary pattern keeps the scan invariant, with the boundary prefab met but not in the dictionary |
| `Tilemap3DPatterns.AddEmptyKeepsTracking` | Assets/Scripts/WFC/Tilemap3DPattern.cs:56-69 | creating the empty pattern (itself in every direction) keeps the scan invariant |
| `Tilemap3DPatterns.LinkKeepsTracking` | Assets/Scripts/WFC/Tilemap3DPattern.cs:110-116 | one neighbour-set insertion records one more adjacency and keeps every handed-out pattern |
| `Tilemap3DPatterns.StepPainted` | Assets/Scripts/WFC/Tilemap3DPattern.cs:115-116 | a painted neighbour records exactly one adjacency and meets its prefab |
| `Tilemap3DPatterns.StepUnpainted` | Assets/Scripts/WFC/Tilemap3DPattern.cs:105-113 | an unpainted neighbour records the two empty-tile adjacencies when empty tiles are included and nothing otherwise |
| `Tilemap3DPatterns.NeighbourMeaning` | Assets/Scripts/WFC/Tilemap3DPattern.cs:93-118 | after the scan, a dictionary pattern's direction `idx` holds exactly the current patterns of the chunks seen at offset `idx` from one of its cells (the empty pattern for an unpainted cell when empty tiles are included); a painted neighbour gets no converse link |
| `Tilemap3DPatterns.EmptyMeaning` | Assets/Scripts/WFC/Tilemap3DPattern.cs:105-113 | the empty pattern's direction `idx` holds what it held before plus exactly the patterns of the painted cells whose neighbour in the opposite direction is unpainted |
| `Tilemap3DPatterns.Extractor.constructor` | Assets/Scripts/WFC/Tilemap3DPattern.cs:13-22 | an extractor with no patterns, no boundary pattern and no empty pattern |
| `Tilemap3DPatterns.Extractor.BoundaryPattern` | Assets/Scripts/WFC/Tilemap3DPattern.cs:24-36 | the cached boundary pattern; none without a boundary prefab; otherwise created once with empty sets and cached |
| `Tilemap3DPatterns.Extractor.GetOrCreateEmptyPattern` | Assets/Scripts/WFC/Tilemap3DPattern.cs:56-69 | created once, with a null chunk and itself in every direction, then reused |
| `Tilemap3DPatterns.Extractor.GetOrCreatePattern` | Assets/Scripts/WFC/Tilemap3DPattern.cs:71-84 | idempotent per prefab; the boundary prefab maps to the boundary pattern and is never added to the dictionary; a new prefab gets a pattern weighted by its `TileWeight` (1 without one) |
| `Tilemap3DPatterns.Extractor.Adopt` | Assets/Scripts/WFC/Tilemap3DPattern.cs:99 | getting a prefab's pattern during the scan keeps the scan invariant and every handed-out pattern |
| `Tilemap3DPatterns.Extractor.AdoptEmpty` | Assets/Scripts/WFC/Tilemap3DPattern.cs:109 | getting the empty pattern during the scan keeps the scan invariant |
| `Tilemap3DPatterns.Extractor.Link` | Assets/Scripts/WFC/Tilemap3DPattern.cs:110-116 | `Neighbors[idx].Add(q)` records exactly that adjacency |
| `Tilemap3DPatterns.Extractor.TracksSame` | Assets/Scripts/WFC/Tilemap3DPattern.cs:93-118 | the scan invariant depends only on the recorded sets |
| `Tilemap3DPatterns.Extractor.ExtractPatterns` | Assets/Scripts/WFC/Tilemap3DPattern.cs:86-124 | starting from a cleared dictionary and list: every pattern's sets are exact for the adjacencies seen, the dictionary holds exactly the met non-boundary prefabs, and `Patterns` is the dictionary's values in insertion order followed, with empty tiles included, by the empty pattern |
| `Tilemap3DPatterns.Extractor.Scan` | Assets/Scripts/WFC/Tilemap3DPattern.cs:93-118 | the loop over the bounds records exactly the adjacencies and prefabs of the scanned cells |
| `Tilemap3DPatterns.Extractor.ExtractAt` | Assets/Scripts/WFC/Tilemap3DPattern.cs:95-117 | an unpainted cell is skipped; a painted one records all six directions |
| `Tilemap3DPatterns.Extractor.ExtractPainted` | Assets/Scripts/WFC/Tilemap3DPattern.cs:101-117 | a painted cell: its prefab's pattern is adopted, then each of the six directions records exactly that cell's arcs and met prefabs |
| `Tilemap3DPatterns.Extractor.LinkAll` | Assets/Scripts/WFC/Tilemap3DPattern.cs:101-117 | the loop over the six directions adds exactly the cell's arcs and met prefabs, direction by direction |
| `Tilemap3DPatterns.Extractor.LinkAt` | Assets/Scripts/WFC/Tilemap3DPattern.cs:103-116 | one direction: a painted neighbour or, with empty tiles, the empty pattern both ways |
| `Tilemap3DPatterns.Extractor.LinkPainted` | Assets/Scripts/WFC/Tilemap3DPattern.cs:115-116 | the painted neighbour's pattern joins direction `idx`, with no converse link |
| `Tilemap3DPatterns.Extractor.LinkEmpty` | Assets/Scripts/WFC/Tilemap3DPattern.cs:107-112 | the empty pattern joins direction `idx`, and the pattern joins the empty pattern's opposite direction |
| `Tilemap3DPatterns.Extractor.DictPatterns` | Assets/Scripts/WFC/Tilemap3DPattern.cs:120-121 | the dictionary's values in insertion order |
| `Tilemap3DPatterns.Extractor.ListPatterns` | Assets/Scripts/WFC/Tilemap3DPattern.cs:120-123 | `Patterns` is the dictionary's values followed, with empty tiles included, by the empty pattern |
| `TilemapPatterns.NeighborOffset` | Assets/Scripts/WFC/TilemapPattern.cs:18-38 | 8 offsets with corners and 4 without |
| `TilemapPatterns.OppositeHalfway` | Assets/Scripts/WFC/TilemapPattern.cs:18-36 | in either table the opposite of direction `i` is half-way round: `(i+2)%4` without corners, `(i+4)%8` with them |
| `TilemapPatterns.SideComponents` | Assets/Scripts/WFC/TilemapPattern.cs:18-24 | componentwise, `Adjacent[(i+2)%4]` is the negation of `Adjacent[i]` |
| `TilemapPatterns.SideOpposite` | Assets/Scripts/WFC/TilemapPattern.cs:18-24 | in the four-direction table, `Adjacent[(i+2)%4]` is the negation of `Adjacent[i]` |
| `TilemapPatterns.CornerOpposite` | Assets/Scripts/WFC/TilemapPattern.cs:26-36 | in the eight-direction table, `AdjacentWithCorner[(i+4)%8]` is the negation of `AdjacentWithCorner[i]` |
| `TilemapPatterns.WithCornerComponents` | Assets/Scripts/WFC/TilemapPattern.cs:26-36 | componentwise, `AdjacentWithCorner[(i+4)%8]` is the negation of `AdjacentWithCorner[i]` |
| `TilemapPatterns.ArcsMembership` | Assets/Scripts/WFC/TilemapPattern.cs:75-88 | an adjacency is recorded iff some scanned painted cell has that tile painted at that offset |
| `TilemapPatterns.ArcsAtMembership` | Assets/Scripts/WFC/TilemapPattern.cs:83-87 | the adjacencies one painted cell records: only painted neighbours |
| `TilemapPatterns.MetMembership` | Assets/Scripts/WFC/TilemapPattern.cs:75-88 | a tile gets a pattern iff it is painted at a scanned cell or beside one |
| `TilemapPatterns.MetAtMembership` | Assets/Scripts/WFC/TilemapPattern.cs:77-87 | empty cells are skipped; a painted cell meets its own tile and its painted neighbours' |
| `TilemapPatterns.CreateKeepsExact` | Assets/Scripts/WFC/TilemapPattern.cs:55-60 | adding a new pattern for an unseen tile keeps every set exact |
| `TilemapPatterns.LinkKeepsExact` | Assets/Scripts/WFC/TilemapPattern.cs:86 | one insertion records exactly one more adjacency |
| `TilemapPatterns.NeighbourMeaning` | Assets/Scripts/WFC/TilemapPattern.cs:75-88 | after the scan, a tile's pattern holds in direction `idx` exactly the patterns of the tiles painted at that offset from one of its cells |
| `TilemapPatterns.Extractor.Patterns` | Assets/Scripts/WFC/TilemapPattern.cs:40 | `Patterns` is the dictionary's values, in insertion order |
| `TilemapPatterns.Extractor.constructor` | Assets/Scripts/WFC/TilemapPattern.cs:14-16 | an extractor with an empty dictionary |
| `TilemapPatterns.Extractor.GetOrCreatePattern` | Assets/Scripts/WFC/TilemapPattern.cs:50-62 | idempotent per tile; a new pattern has 8 or 4 empty neighbour sets to match `IncludeCorner` |
| `TilemapPatterns.Extractor.ExtractPatterns` | Assets/Scripts/WFC/TilemapPattern.cs:66-91 | clears the dictionary first; afterwards it holds exactly the painted tiles met, and every pattern's sets are exactly the adjacencies seen; older patterns stay in the table unchanged |
| `TilemapPatterns.Extractor.ExtractAt` | Assets/Scripts/WFC/TilemapPattern.cs:77-87 | an empty cell is skipped; a painted one records every direction |
| `TilemapPatterns.Extractor.LinkAt` | Assets/Scripts/WFC/TilemapPattern.cs:85-86 | the neighbour's pattern is added iff a tile is painted at `pos + offset` |
| `TilemapPatterns.Extractor.LinkPainted` | Assets/Scripts/WFC/TilemapPattern.cs:86 | the painted neighbour's pattern joins direction `idx` |
| `TilemapPatterns.Extractor.Adopt` | Assets/Scripts/WFC/TilemapPattern.cs:81 | getting a tile's pattern during the scan keeps the scan invariant and every existing entry |
| `TilemapPatterns.Extractor.Link` | Assets/Scripts/WFC/TilemapPattern.cs:86 | `Neighbors[idx].Add(..)` records exactly that adjacency |
| `TilemapPatterns.Extractor.TracksSame` | Assets/Scripts/WFC/TilemapPattern.cs:75-88 | the scan invariant depends only on the recorded sets |
| `TileChunks.Tile.constructor` | Assets/Scripts/Tilemap3D/GameObjectTile.cs:16-27 | a tile instance with its prefab, chunk, offset and list index |
| `TileChunks.TileChunk.constructor` | Assets/Scripts/Tilemap3D/TileChunk.cs:11-15 | `chunkSize³` empty slots and an empty list |
| `TileChunks.TileChunk.At` | Assets/Scripts/Tilemap3D/TileChunk.cs:23-27 | the `this[pos]` indexer: the slot's occupant, null when empty; `SetTile` reads back through it and `RemoveTile` leaves it unchanged |
| `TileChunks.TileChunk.AtCoords` | Assets/Scripts/Tilemap3D/TileChunk.cs:17-21 | the `this[x, y, z]` indexer reads the same slot as `this[pos]` at `(x, y, z)` |
| `TileChunks.TileChunk.SetTile` | Assets/Scripts/Tilemap3D/TileChunk.cs:29-39 | returns the previous occupant; the slot holds the new tile; an empty slot appends to the list, an occupied one overwrites `TileList[old.InChunkId]`, and an occupant whose list index lies outside the list is an index error that changes nothing; other slots are unchanged |
| `TileChunks.TileChunk.RemoveTile` | Assets/Scripts/Tilemap3D/TileChunk.cs:41-55 | an empty slot returns null and changes nothing; otherwise the list loses the tile by swap-remove and the moved last tile takes the removed index; no other tile's index changes; the slot itself is not cleared |
| `TileChunks.Placed` | Assets/Scripts/Tilemap3D/TileChunk.cs:31-35 | the list after `SetTile` grows by one for an empty slot and keeps its length otherwise; fails iff the old index is out of range |
| `TileChunks.PlacedContents` | Assets/Scripts/Tilemap3D/TileChunk.cs:31-35 | the list's contents gain the tile, and lose the replaced one when the slot was occupied |
| `TileChunks.SwapRemoved` | Assets/Scripts/Tilemap3D/TileChunk.cs:46-51 | the list after `RemoveTile` is one shorter; fails exactly where the source would index out of range |
| `TileChunks.SwapRemovedContents` | Assets/Scripts/Tilemap3D/TileChunk.cs:46-51 | swap-remove removes exactly the tile at the index from the contents |
| `TileChunks.SwapRemoveCount` | Assets/Scripts/Tilemap3D/TileChunk.cs:48-51 | moving the last element into the hole then dropping the last slot removes exactly one occurrence |
| `TileChunks.SwapRemovedStale` | Assets/Scripts/Tilemap3D/TileChunk.cs:46-51 | a one-element list becomes empty whatever the tile's index says |
| `TileChunks.RemoveThenPlace` | Assets/Scripts/Tilemap3D/TileChunk.cs:29-55 | removing a tile and placing it again restores the list's contents |
| `GameObjectTilemaps.TruncDiv` | Assets/Scripts/Tilemap3D/GameObjectTilemap.cs:144 | C#'s integer division rounds toward zero |
| `GameObjectTilemaps.TruncRem` | Assets/Scripts/Tilemap3D/GameObjectTilemap.cs:151-154 | C#'s `%` takes the sign of the dividend |
| `GameObjectTilemaps.FloorReminder` | Assets/Scripts/Tilemap3D/GameObjectTilemap.cs:151-154 | for `m > 0` the result lies in `[0, m)` and is congruent to `x` modulo `m` |
| `GameObjectTilemaps.ChunkAt` | Assets/Scripts/Tilemap3D/GameObjectTilemap.cs:137-149 | every component of the offset lies in `[0, ChunkSize)` |
| `GameObjectTilemaps.ChunkCoordFloor` | Assets/Scripts/Tilemap3D/GameObjectTilemap.cs:139-144 | the chunk coordinate is the floor quotient except at negative multiples of the chunk size, where it is one less |
| `GameObjectTilemaps.ChunkCoordRecompose` | Assets/Scripts/Tilemap3D/GameObjectTilemap.cs:137-154 | chunk times size plus offset gives back the coordinate, except at negative multiples, where it gives one chunk less |
| `GameObjectTilemaps.ChunkAtRecompose` | Assets/Scripts/Tilemap3D/GameObjectTilemap.cs:137-149 | `chunkPos*ChunkSize + offset == pos` for every component that is non-negative or not a multiple of the chunk size |
| `GameObjectTilemaps.ChunkAtNegativeMultiple` | Assets/Scripts/Tilemap3D/GameObjectTilemap.cs:137-154 | at a negative multiple the recomposed coordinate is one chunk size short |
| `GameObjectTilemaps.ChunkCoordInjective` | Assets/Scripts/Tilemap3D/GameObjectTilemap.cs:137-154 | two coordinates with the same chunk coordinate and offset are equal |
| `GameObjectTilemaps.ChunkAtInjective` | Assets/Scripts/Tilemap3D/GameObjectTilemap.cs:137-149 | distinct positions never share a chunk and an offset, so slots never collide |
| `GameObjectTilemaps.ModUnique` | Assets/Scripts/Tilemap3D/GameObjectTilemap.cs:151-154 | a decomposition with a remainder in `[0, m)` is the floor division |
| `GameObjectTilemaps.Tilemap.constructor` | Assets/Scripts/Tilemap3D/GameObjectTilemap.cs:11-15 | an empty tilemap: no chunks, count 0 |
| `GameObjectTilemaps.Tilemap.GetTile` | Assets/Scripts/Tilemap3D/GameObjectTilemap.cs:106-112 | null where no chunk exists, otherwise the chunk's slot |
| `GameObjectTilemaps.Tilemap.GetOrCreateChunk` | Assets/Scripts/Tilemap3D/GameObjectTilemap.cs:156-163 | returns the existing chunk for the key, or creates and stores exactly one new empty chunk |
| `GameObjectTilemaps.Tilemap.SetTileInstance` | Assets/Scripts/Tilemap3D/GameObjectTilemap.cs:58-73 | on success the position holds the tile and `Count` grows by one exactly when the slot was empty; when the chunk throws on the previous occupant's stale `InChunkId`, the position keeps its old occupant and `Count` is unchanged; every other position reads as before |
| `GameObjectTilemaps.Tilemap.RemoveTile` | Assets/Scripts/Tilemap3D/GameObjectTilemap.cs:75-88 | a no-op when the chunk is absent; `Count` drops by one only when a tile was returned; the chunk dictionary is unchanged |
| `GameObjectTilemaps.Tilemap.SetTile` | Assets/Scripts/Tilemap3D/GameObjectTilemap.cs:45-56 | a null prefab behaves as `RemoveTile`; otherwise a new instance of the prefab at that chunk and offset is stored through `SetTileInstance`, and when that throws the position keeps its old occupant |
| `GameObjectTilemaps.Tilemap.ClearAllTiles` | Assets/Scripts/Tilemap3D/GameObjectTilemap.cs:90-103 | no chunks and `Count == 0` afterwards, so `GetTile` is null everywhere |
| `Utility.MinOf` | Utility.cs:76-102 | none for an empty sequence; otherwise the first element attaining the least selector value (strict comparison keeps the first) |
| `Utility.MaxOf` | Utility.cs:104-130 | none for an empty sequence; otherwise the first element attaining the greatest selector value |
| `Utility.Diff` | Utility.cs:136-151 | true iff both sequences have equal length and the comparer holds pairwise |
| `Utility.DiagonalIndices` | Utility.cs:165-210 | every `(x, y)` of the rectangle is yielded once and only those, diagonal by diagonal from the entry corner and by increasing `x` along a diagonal |
| `Utility.EmitDiagonal` | Utility.cs:170-208 | one diagonal: all its in-rectangle cells are appended in increasing `x`, after everything emitted before |
| `Utility.EmitStep` | Utility.cs:165-210 | appending the next cell of the current diagonal keeps the output strictly increasing in walk order and everything emitted before that cell |
| `Utility.DiagonalShape` | Utility.cs:170-208 | the cell of diagonal `i` in column `x`, and the columns range each corner's loop bounds cover |
| `Utility.DiagonalKeyRange` | Utility.cs:165-210 | every cell of the rectangle lies on one of the `width + height - 1` diagonals |
| `Utility.FirstExceeding` | Utility.cs:259-265 | the first index whose cumulative weight exceeds the location, or none |
| `Utility.ExceedingBracket` | Utility.cs:253-268 | for a location inside `[0, total)` with positive weights, some index is found, and the location lies between its cumulative weight and the next |
| `Utility.Take` | Utility.cs:253-268 | the weighted pick fails only with a random value out of range |
| `Utility.RandomTake` | Utility.cs:253-268 | the loop returns the first element whose cumulative weight exceeds `randomValue * total`, and throws when there is none |
| `Utility.RandomTakeUniform` | Utility.cs:240-241 | the unweighted overload is the weighted one with all weights 1 |
| `Utility.TakeSucceeds` | Utility.cs:253-268 | with positive weights, a non-empty source and a value in `[0, 1)`, the pick succeeds and is an element of the source lying in the bracket of cumulative weights |
| `Utility.TakeAt` | Utility.cs:259-265 | a found index gives exactly that element |
| `Utility.PrefixWeightPositive` | Utility.cs:257-262 | running sums of positive weights are positive |
| `Utility.ScaledDraw` | Utility.cs:256-257 | a value in `[0, 1)` times a positive total lies in `[0, total)` |
| `Utility.FindIndex` | Utility.cs:270-276 | the first index of an equal element, or -1 iff there is none |
| `Utility.IndexOf` | Utility.cs:270-276 | the loop returns `FindIndex` |
| `Utility.TryGet` | Utility.cs:389-408 | none for an out-of-range index, otherwise the element |
| `Utility.Buffer.constructor` | Utility.cs:370-380 | a list holding the given elements |
| `Utility.Buffer.PopBack` | Utility.cs:370-380 | removes and returns the last element, shrinking the list by one; an empty list is an index error |
| `Utility.JoinedAppend` | Utility.cs:410-419 | appending one string adds one separator and the string |
| `Utility.JoinedLength` | Utility.cs:410-419 | the joined string has every element and one separator between neighbours; the empty list gives "" |
| `Utility.Join` | Utility.cs:410-419 | the loop builds the elements separated by the separator |
| `Utility.StringJoin` | Utility.cs:421-429 | null for no strings, otherwise the joined string |
| `Utility.NatToString` | Utility.cs:971-994 | decimal digits without a leading zero |
| `Utility.ParseNatToString` | Utility.cs:971-994 | the digits read back as the number |
| `Utility.ToOrdinal` | Utility.cs:971-994 | the plain number for values at most 0; otherwise the number followed by "th" for 11-13 modulo 100, else "st", "nd", "rd" for a last digit 1, 2, 3, else "th" |
| `Utility.OrdinalRoundTrip` | Utility.cs:971-994 | stripping the suffix from a positive ordinal reads back the number |
| `Utility.OffsetArray.constructor` | Utility.cs:1022-1026 | a fresh array of the given size, starting at `startIndex`, with unspecified contents |
| `Utility.OffsetArray.Get` | Utility.cs:1015-1019 | `this[i]` reads `_array[i - start]`, and is an index error outside `start .. start+Count-1` |
| `Utility.OffsetArray.Set` | Utility.cs:1015-1019 | `this[i] = v` writes `_array[i - start]` only, and a later read gives `v` |
| `Utility.OffsetArray.Indices` | Utility.cs:1002-1011 | yields `start .. start+Count-1`, each a valid index |
| `ObjectPools.Popped` | Assets/Scripts/Utils/ObjectPool.cs:9-14 | a non-empty pool gives its top and the rest; an empty one gives a fresh object and stays empty |
| `ObjectPools.ReleaseThenGet` | Assets/Scripts/Utils/ObjectPool.cs:9-17 | releasing `o` then getting returns `o` and restores the previous pool |
| `ObjectPools.LastInFirstOut` | Assets/Scripts/Utils/ObjectPool.cs:9-17 | two releases come back in reverse order |
| `ObjectPools.PoppedFromEmpties` | Assets/Scripts/Utils/ObjectPool.cs:9-14 | a pool holding only empty sets hands out an empty set and keeps only empty sets |
| `ObjectPools.ObjectPool.constructor` | Assets/Scripts/Utils/ObjectPool.cs:7 | the pool starts empty |
| `ObjectPools.ObjectPool.Get` | Assets/Scripts/Utils/ObjectPool.cs:9-14 | pops the most recently released object, or returns a fresh one and leaves an empty pool empty |
| `ObjectPools.ObjectPool.Release` | Assets/Scripts/Utils/ObjectPool.cs:16-17 | pushes the object, growing the pool by one |
| `Vectors.OppositeByComponents` | Assets/Scripts/WFC/WFCGenerator.cs:65 | componentwise negation is `-offset` |

## Left out

- Floating point. Entropy is an uninterpreted function of the candidate set that is NaN exactly for the empty set. The jitter `EntropyBias * NextDouble()` and the weights are reals. `float` rounding in `RandomTake`'s accumulation and the cast of the draw to `float` are not modelled.
- `System.Random` is a stream of reals in `[0, 1)` chosen per seed; its generator algorithm is not modelled. The parameterless `new Random()` is an arbitrary stream.
- `HashSet` enumeration order is a parameter that lists each set exactly once; nothing is assumed about which order.
- `Dictionary.Values` is read in insertion order (`Tilemap3DPatterns.Extractor.DictPatterns`, `TilemapPatterns.Extractor.Patterns`). .NET does not promise that order in general. It holds in practice for a dictionary with no removals, which is the case here: the extractors only `Clear` the dictionary and then add to it.
- `CoroutineRunner` is not part of this model. Propagation runs to completion as a plain loop, which is how the solver uses it.
- `BoundsInt.BoundaryIter` is not part of this model. `Generator3D.BorderCells` assumes it yields the cells inside the box whose neighbour at `offset` lies outside. `Vector3Int.Contains` on `Size` is componentwise `0 <= c < size`, and so is the `Vector2Int` `Size.Contains` that `Generator2D` relies on (`Contains2`). No file of the model's sources defines either.
- The arc invariant of `Generator2D.Generator.UpdateChunk` holds only while the changed cell is not yet re-propagated. The source never pushes the cell it changed, so the model only states the restriction and the pool behaviour.
- Patterns carry a weight field, defaulting to 1. The `Weight => 1` of `Pattern.cs:45` is the value `NewPattern` stores. The three-argument constructor and `TileWeight` that `Tilemap3DPattern` uses are not in `Pattern.cs`; they are modelled as `NewWeightedPattern` and a prefab-to-weight map.
- `Utility.MinOf`, `Utility.MaxOf`: an empty sequence gives `None`, where the source returns `default`.
- `Utility.RandomTake`: the source's `throw` when no element is chosen is the `RandomValueOutOfRange` failure.
- `Utility.RandomSequence` uses Unity's global random and is not modelled. The same goes for the UI, animation, mesh and rendering helpers of `Utility.cs` and for `MathUtility.cs`.
- `Tilemap3D.cs` (a superseded duplicate), the editor code, `GameObjectPool.cs`, `ShaderPool.cs` and the MonoBehaviour drivers are not part of this model.
- `GameObjectTilemaps.Tilemap.SetTileInstance` does not track `Bounds`/`Encapsulate`, and does not model the transform parenting and local position, which are scene plumbing.
- `GameObjectTilemaps.Tilemap.SetTile`: `GameObjectTile.CreateInstance` takes two arguments in `GameObjectTile.cs:16-27`, but `SetTile` passes three. The model creates a fresh `Tile` with the prefab, chunk and offset, and with list index 0; pooled instance reuse is not modelled.
- `ReloadTileFromChildren` is not modelled. It reads the scene's child objects and replays `SetTileInstance` for each of them.
- `GameObjectTilemaps.Tilemap.ClearAllTiles` does not model the per-slot nulling loop, because the chunks are dropped right after it. `DestroyInstance` is not modelled either.
- `TileChunks.TileChunk.SetTile` never assigns `InChunkId` to the new tile. `TileChunks.TileChunk.RemoveTile` never clears the slot. The model keeps both behaviours as written, and its contracts claim nothing that depends on them.
- `GameObjectTilemaps.Tilemap.constructor`: the chunk size is a positive constant fixed at construction. In the source `ChunkSize` is a public, settable field defaulting to 8. The throws for a non-positive value are not modelled: `DivideByZeroException` from `pos / ChunkSize` for zero, and `OverflowException` from the chunk's array allocation for a negative value. Neither is re-addressing: changing the field after chunks exist makes positions map to other chunks and slots, so `GetTile` no longer reads back what `SetTile` wrote.
- The extractors' configuration fields are also fixed at construction: `TilemapPatterns.Extractor.includeCorner`, `Tilemap3DPatterns.Extractor.includeEmptyTile` and `Tilemap3DPatterns.Extractor.boundaryTile`. In the source they are public fields that can change between extractions. `BoundaryPattern` caches the pattern of whichever `BoundaryTile` was set at its first access, and the model does not capture a later change of that field.
- `GameObjectTilemaps.ChunkAt`: at negative multiples of the chunk size the recomposed coordinate is one chunk short (`ChunkAtNegativeMultiple`). Storage stays correct because the addressing is still injective (`ChunkAtInjective`), so the model keeps the source's arithmetic.
- The extractors take the painted tiles as a map from positions to prefab ids, and the scanned positions as a sequence (the tilemap bounds in iteration order).
- In `Tilemap3DPatterns`, `Tile.Prefab` is the prefab id stored in that map.
- `Utility.OffsetArray.constructor`: C# fills the new array with `default(T)`. Dafny's `new T[size]` leaves the contents unspecified, so the model does not state that the array starts zeroed.
- `Generator3D.Generator.PropagateStep`: the per-cell result (`Swept`) is stated only when no entry of `NeighborOffset` is zero. With a zero offset the popped cell is its own neighbour and restricts its own cached adjacency mid-loop. The same guard applies to `Generator3D.Generator.PopAndSweep`, `Generator3D.Generator.SweepFrom` and `Generator3D.Generator.PopFinished`. The stack facts and arc facts hold without it.

## Findings

| source | as written | input that shows it | evidently intended | confidence | as-written member | corrected member |
|---|---|---|---|---|---|---|
| Assets/Scripts/WFC/WFCGenerator.cs:68-74 | `SetBoundaryPattern` restricts a copy of the struct `ChunkState` and never stores it back. The shared candidate set and adjacency sets change, but the stored `Entropy` stays stale. | One pattern whose neighbour sets exclude the boundary pattern: a border cell is emptied but keeps a finite entropy. `Observe` then picks it, and `RandomTake` over its empty candidates throws. | Write the restricted state back (as `PropagateProgressive` does at line 155), so that an emptied cell has NaN entropy and is never observed | not executed | `Generator3D.BorderCellAsWritten`, `Generator3D.StaleBorderCellIsObserved`, `Generator3D.StaleBorderCellExample` | `Generator3D.Generator.SetBoundaryPattern`, `Generator3D.WrittenBackEmptyCellIsSkipped` |
