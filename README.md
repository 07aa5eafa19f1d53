# Falling sand: the simulation engine, verified

This project models the simulation engine of a browser falling-sand toy in `main.js`. The grid is `gridW` by `gridH` cells. Each cell holds one of four materials: AIR 0, SAND 1, WATER 2 or WALL 3. The per-cell state lives in byte arrays indexed by `x + y * gridW`: `materials`, `updated`, `yVel` and `xVel`.

The class `Simulation.World` holds the dimensions and the four arrays. Its methods are the three parts of the engine, with the same loops and in-place writes as the code:

- **The tick** (`stepSimulation`, with its closures `tryMove` and `cellSolid`). If the button is held, the tick first paints the stroke. Then it clears the `updated` flags and sweeps the rows from top to bottom, each row in a direction chosen at random.
  - Every visited index gains one unit of velocity, which wraps from 255 to 0.
  - Every SAND or WATER cell that was not moved into this tick tries to fall as far as its velocity allows.
  - If the fall fails, water tries two cells to one side and then to the other. Sand tries one cell diagonally down, first on one side and then on the other, each time only past a side cell that is not a wall.
- **The brush** (`fillCircles`, with `setCell`, `drawCircle` and `drawLine`).
  - The two cursor positions are turned into cells.
  - An integer line is stepped between them, stamping at most 20 discs of radius 3.
  - Each disc covers the offsets in `[-3, 3) x [-3, 3)` within distance 3.
  - Each covered cell is written by the brush rule: AIR and WALL overwrite anything, SAND and WATER fill only AIR. The cell's velocity is reset either way.
- **The resize.** Four fresh arrays are allocated for the new grid, and new cell `(x, y)` is copied from old flat index `x + y * oldW`. As written, this copy goes wrong when the grid gets wider (see Findings). `Resize` therefore follows the corrected migration `Clip`: a new cell inside the old grid keeps its value and every other cell is 0. The code's own migration is `Migrate`, and `MigrateIsClipUnlessWidening` proves the two agree unless the grid widens.

Three modules of value-level definitions support the class:

- `Cells` covers bytes, materials, `undefined` reads and counting.
- `Motion` covers passable cells, the search limit, the record `Move` of one relocation, the replay `Replay` of a log of relocations, and the sweep invariant `SweepHolds`. The invariant says:
  - the grid is the grid at the start of the sweep with the logged relocations performed in order, each one legal in the grid it was made in;
  - the walls are where they were;
  - the SAND count is unchanged;
  - WATER turns into AIR exactly where sand landed on it;
  - every move is a fall, a spread or a guarded slide onto AIR, or sand onto WATER;
  - every destination is flagged;
  - no cell is a source twice, or a source after being a destination.
- `Strokes` covers the brush rule, disc and stroke cell sets, the line stepping, and the predicate `Painted`. `Painted` says the grid is the old grid with exactly a given set of cells painted.
- `Migration` covers the migration as written (`Migrate`), its corrected form (`Clip`), the overlap both keep, and the finding below.

The sweep methods return, as ghost values, a trace: the grid (`materials`, `updated` and `yVel`) after every visit, in the order `SweepOrder` of the scan, with what each visit did. `Visited` states what one visit does to all three arrays, and `Traced` chains it along the order. So the contracts of `Visit`, `ScanRight`, `ScanLeft`, `SweepRow`, `Sweep` and `StepSimulation` tie all three new arrays to the visits the code makes. The lemmas prove that each relocation keeps `SweepHolds`. `TracedSweeps` lifts this to a whole trace, so the log `StepSimulation` returns is exactly the relocations that turned the painted grid into the new one.

The semantics of JavaScript typed arrays are written out:

- A read outside an array yields `undefined`. It is neither AIR, WATER nor WALL, so the movement search treats it as blocked and `cellSolid` treats it as not a wall.
- A write outside an array is dropped.
- `undefined` stored into a new array becomes 0.
- Velocity arithmetic wraps modulo 256.

Some behaviours are modelled as the code has them:

- The brush does not range-check columns. A disc near the left or right edge continues on the neighbouring row.
- The right-to-left scan starts at `x = gridW`. It therefore also visits `(y + 1) * gridW`: the first cell of the next row, or one past the grid on the last row.
- Sand landing on water overwrites the water. It does not swap with it.
- A cell may be a move destination twice in one tick. This happens when sand lands on water that was itself moved there earlier in the tick. What holds is that a source is never reused. A stronger property, that no cell is a move destination twice, does not hold of the code.
- `Simulation.World.TryMove` models the `tryMove` branch for a destination equal to the source (main.js:78-84) without the copies and the flag write that main.js:73-76 make before it. The branch cannot be taken: such a destination would be the cell probed at distance 1 (for example with a grid one column wide, on the `(-1, 1)` diagonal), and a mover never finds its own cell passable.

## Model

| member | source | states |
|---|---|---|
| Cells.Probe | main.js:54-57 | a read outside the array yields a value that is neither AIR, WATER nor WALL; inside it is the element |
| Cells.Inc | main.js:52 | `yVel += 1` adds one below 255 and wraps 255 to 0 |
| Cells.CountUpdate | main.js:74-79 | overwriting one cell changes the count of a material by what left and what arrived |
| Cells.MoveCounts | main.js:73-80 | moving a cell's content onto another and clearing the source changes each material count by exactly the destination's old content and one AIR |
| Motion.SearchLimit | main.js:63-64 | the search bound `yVel / 18 + 1` is between 1 and 15, and is 1 exactly when the velocity is below 18 |
| Motion.SweepStarts | main.js:44-46 | before the first relocation the sweep invariant holds of the unchanged grid |
| Motion.MoveKeepsWalls | main.js:64-88 | a relocation leaves every wall in place and creates none |
| Motion.MoveKeepsMass | main.js:73-80 | after a relocation SAND is conserved, and WATER lost and AIR gained only where sand landed on water |
| Motion.MoveKeepsOnce | main.js:44-86 | relocating an unflagged cell and flagging its destination keeps every cell to at most one use as a source, never after being a destination |
| Motion.MoveKeepsOk | main.js:60-99 | the relocation appended to the log is a fall, a spread or a wall-guarded slide onto a passable cell, judged against the walls at the start of the sweep |
| Motion.MoveKeepsReplay | main.js:73-80 | a legal relocation performed on the replayed grid extends the replayed log by that move |
| Motion.MoveKeepsSweep | main.js:60-84 | one relocation preserves the whole sweep invariant (the grid is the replay of the log, walls, mass, move shapes, at most one move per source) |
| Simulation.World.Search | main.js:62-64 | the distance found is the run of passable cells along the direction, cut at the velocity's limit: every cell up to it is passable, and the next is not unless the limit was reached |
| Simulation.World.Relocate | main.js:73-80 | the mover and its velocity are copied to the destination, the destination is flagged, the source becomes AIR |
| Simulation.World.TryMove | main.js:60-84 | returns false and zeroes the velocity, changing nothing else, exactly when the first probed cell is blocked; otherwise moves the cell by the distance the search finds (the passable run, cut at `yVel / 18 + 1`) and the move is a legal relocation |
| Simulation.World.Visit | main.js:50-103 | the velocity accrues (mod 256) on a cell outside the rules; an eligible cell either moves by a legal relocation in the attempt order, a fall going as far as the accrued velocity and the passable run allow, or stays exactly when every attempt is blocked; the whole velocity array is given in each case |
| Simulation.World.UpdateParticle | main.js:88-100 | a fall is tried first, as far as the velocity allows; only after it fails does water spread or sand slide; the cell stays, with velocity 0, exactly when every attempt is blocked; the whole velocity array is given in each case |
| Simulation.World.Sideways | main.js:91-99 | after a failed fall, water spreads and sand slides; the cell stays, changing nothing, only when both sideways attempts are blocked |
| Simulation.World.Spread | main.js:92-95 | water that cannot fall moves two cells sideways, first towards the scan direction and only then away from it; it stays only when both are blocked; both ends of the move get velocity 0 |
| Simulation.World.Slide | main.js:96-99 | sand that cannot fall moves one cell diagonally down towards the scan direction, else away from it, never past a side cell that is a wall; it stays only when each side is walled or its diagonal blocked; both ends of the move get velocity 0 |
| Simulation.World.SlideOnce | main.js:98-99 | one diagonal attempt is made only past a side cell that is not a wall; it fails, changing nothing, exactly when that side cell is a wall or the diagonal cell is blocked |
| Simulation.World.ClearUpdated | main.js:44 | every flag is 0 after the loop |
| Simulation.World.Sweep | main.js:46-105 | for every choice of row directions, the grids after the visits of the rows from top to bottom, each row in its direction, form a trace from the old arrays to the new ones, each visit doing what `Visited` says |
| Simulation.World.SweepRow | main.js:49-104 | one row, in either direction, is a trace of its visits from the old arrays to the new ones |
| Simulation.World.ScanRight | main.js:49-104 | the left-to-right scan visits `x + y * gridW` for `x = 0 .. gridW - 1` in order, each visit doing what `Visited` says, from the old arrays to the new ones |
| Simulation.World.ScanLeft | main.js:49-104 | the right-to-left scan visits `x + y * gridW` for `x = gridW .. 0` in order, each visit doing what `Visited` says, from the old arrays to the new ones |
| Simulation.World.VisitTraced | main.js:50-103 | one visit extends the trace of the visits before it by the grid it leaves |
| Simulation.RowOrderAt | main.js:49-50 | visit `n` of a row is column `n` left to right, or column `gridW - n` right to left, in the row's direction |
| Simulation.RowOrderLeftExtra | main.js:49-50 | a right-to-left scan makes one visit more than a left-to-right one, and its first visit is the first cell of the next row |
| Simulation.SweepOrderNext | main.js:46-49 | the visits of rows `0 .. y` are those of rows `0 .. y - 1` followed by those of row `y` |
| Simulation.TracedNextRow | main.js:46-105 | the trace of the rows above followed by the trace of row `y` is the trace of rows `0 .. y` |
| Simulation.RunAt | main.js:49-104 | in a trace, visit `k` turns grid `k` into grid `k + 1` |
| Simulation.TracedAt | main.js:50-103 | in a trace of the sweep, visit `k` turns grid `k` into grid `k + 1` as `Visited` says |
| Simulation.RunSnoc | main.js:49-104 | one more visit extends a trace by the grid it leaves |
| Simulation.RunAppend | main.js:46-105 | two traces that meet at a grid join into one trace of both orders of visits |
| Simulation.VisitKeepsSweep | main.js:50-103 | one visit keeps the sweep invariant, with its relocation, if any, appended to the log |
| Simulation.TracedSweeps | main.js:46-105 | the relocations a whole trace reports, in order, turn its first grid into its last, each legal where it was made, keeping the walls, the sand and the one-use-per-source rule |
| Simulation.World.StepSimulation | main.js:39-106 | a tick paints exactly the stroke's cells while the button is held, clears every flag, then sweeps the painted grid: the returned trace runs through every visit from the painted grid to the new arrays, and the new grid is the painted grid with the relocations the trace reports replayed, the sweep invariant holding |
| Strokes.CellOf | main.js:110-113 | a pixel lies inside the cell it is mapped to (`Math.floor(p / 4)`) |
| Strokes.BrushWrite | main.js:117-118 | the brush writes AIR and WALL over anything, writes SAND or WATER only into AIR, and otherwise keeps the cell |
| Strokes.BrushWriteIdempotent | main.js:117-118 | painting a cell twice with the same brush is painting it once |
| Strokes.PaintedTwice | main.js:123-131 | painting one set of cells and then another equals painting their union |
| Strokes.Advance | main.js:144-146 | one stepping move changes each coordinate by 0 or by its direction |
| Strokes.CentresEnds | main.js:140-147 | from any pen state the stepping starts at the pen and stops short of 20 centres only at the end |
| Strokes.CentresShape | main.js:140-147 | from any pen state the stepping never reaches the end before its last centre, and each step moves each coordinate by 0 or its direction |
| Strokes.AdvanceOnLine | main.js:143-146 | a step from a pen on the line short of the end keeps it in the box between the ends with the matching error term, and moves it |
| Strokes.CentresOnLine | main.js:140-147 | from a pen on the line every centre lies in the box between the ends and no centre repeats the one before |
| Strokes.LineCentresShape | main.js:133-148 | a stroke has 1 to 20 centres, the first being the previous cursor cell; the end cell comes only last, it is reached whenever fewer than 20 are stamped, and each step moves each coordinate by 0 or 1 towards the end |
| Strokes.LineCentresBoxed | main.js:133-148 | every centre of a stroke lies in the box between the two cursor cells, and consecutive centres differ; so a coordinate whose ends agree never moves |
| Strokes.CentresStep | main.js:140-147 | one loop iteration stamps the pen's centre, breaks exactly at the end, and otherwise leaves the rest of the stroke to the stepped pen |
| Strokes.LineCellsAre | main.js:140-141 | a cell is covered by a stroke exactly when it lies in the grid and in the disc of one of the centres |
| Simulation.World.SetCell | main.js:115-121 | exactly the one cell in the arrays is painted by the brush rule with its velocity reset; an index outside is not written |
| Simulation.World.DrawCircle | main.js:123-131 | exactly the grid cells of the disc (half-open offsets within distance `r`) are painted |
| Simulation.World.StepPen | main.js:144-146 | the in-place update of `x0`, `y0` and `err` is one step of the line stepping `Advance` |
| Simulation.World.StampCentre | main.js:141 | stamping the disc of the current centre extends the painted set by that disc |
| Simulation.World.DrawLine | main.js:133-148 | exactly the cells of the discs at the stepped centres are painted |
| Simulation.World.FillCircles | main.js:109-151 | exactly the cells of the stroke from the previous cursor cell to the current one are painted |
| Migration.Migrate | main.js:455-466 | the array the code as written builds has one cell per cell of the new grid |
| Migration.MigrateAt | main.js:457-459 | as written, new cell `(x, y)` holds the old array at `x + y * oldW`, or 0 past its end |
| Migration.MigrateKeepsOverlap | main.js:455-462 | even as written, a cell inside both the old and the new grid keeps its value |
| Migration.MigrateSameSize | main.js:455-466 | as written, a resize to the same dimensions leaves every array unchanged |
| Migration.WideningReadsNextRow | main.js:457-459 | a widened column reads the next old row, so that old cell appears twice in the new grid |
| Migration.Clip | main.js:455-466 | the intended migration has one cell per cell of the new grid |
| Migration.ClipAt | main.js:455-466 | the intended migration keeps the overlap and empties every other cell |
| Migration.MigrateIsClipUnlessWidening | main.js:455-466 | the code's migration is the intended one whenever the grid does not get wider |
| Simulation.CopyCell | main.js:457-459 | one copy (or the 0 left outside the old grid) extends the correctly migrated prefix of the new array by one cell |
| Simulation.CopyRow | main.js:456-464 | the inner copy loop fills row `y` of each of the four new arrays with the corrected migration |
| Simulation.CopyCells | main.js:457-462 | one iteration extends the copied prefix of each of the four arrays |
| Simulation.CopyGrid | main.js:449-465 | four fresh, distinct arrays, each equal to the corrected migration `Clip` of its old array |
| Simulation.World.Resize | main.js:439-472 | the grid takes the new dimensions, and each of the four arrays is replaced by a fresh array that keeps the overlap of the old and new grids and is 0 elsewhere (with `ClipAt`) |
| Simulation.World.constructor | main.js:15-24 | the start-up grid is `canvas / 4` cells on each side, all AIR, at rest and unflagged |

## Left out

- Rendering (the `draw` loop, the RGBA texture buffer, WebGL setup and shaders): a display adapter that does not affect the simulation state. For the same reason the resize does not copy `rgbaTextureBuffer`.
- Mouse and touch listeners and the material buttons: the stroke arrives as the parameters of `StepSimulation`.
- Window sizing: the canvas size in pixels is a parameter of `Resize` and of the constructor.
- `Math.random()`: the per-row scan directions are the parameter `dirs`, and every property holds for every choice.
- Frame scheduling: the model covers one tick or one resize at a time.
- Cursor coordinates are integers. The browser may deliver fractional pixel positions, and `Math.floor` of those is not modelled.
- A clamp of a degenerate resize to 1 by 1: the code does not clamp, and neither does the model.
- Simulation.World.TryMove: requires the sideways calls to come with a velocity below 18. The code makes those calls only after a failed fall has zeroed the velocity, which `UpdateParticle` establishes. It ignores the unused third argument the code passes.
- Simulation.World.StepSimulation: the sweep invariant is stated relative to the grid after painting. Multi-tick properties such as a grain settling on a floor are not stated.
- Simulation.World.CellSolid: a predicate used as the slide guard, with no contract of its own. Its meaning is stated through `Motion.Solid` in the contracts of `Slide` and `Visit`.

## Findings

| source | as written | input that shows it | evidently intended | confidence | as-written member | corrected member |
|---|---|---|---|---|---|---|
| main.js:457-459 | when the grid gets wider, new cell `(x, y)` with `x >= oldW` reads old index `x + y * oldW`, which is cell `(x - oldW, y + 1)` of the next old row | a column of two sand cells in a 1 by 2 grid, resized to 2 by 2: the lower grain also appears at `(1, 0)`, giving three grains | cells outside the old grid are empty, and only the overlap is kept | not executed | Migration.WideningReadsNextRow | Migration.ClipAt |
