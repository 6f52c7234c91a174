# Conway's Game of Life, two engines, in Dafny

This project models the generation step of a Windows Forms Game of Life,
which the program implements twice, and proves both against Conway's rule.
The sparse engine is proved to follow the rule for any starting list without
repeated coordinates. The dense engine is proved to follow it below column
`maxX` and row `maxY`, on the cells its bounds-checked read reports living
(see `Dense.Form1.Tick` under "Left out").

- **Sparse engine** (`EfficientSolution/CellsSystem.cs`, `EfficientSolution/Cell.cs`).
  The only state is a list of living cells. One `Iterate` does four things:
  - collects the birth candidates: dead positions next to a living cell, each listed once;
  - collects the cells to kill with the survival predicate `DecideIfAlive`;
  - keeps the other living cells in their original order;
  - appends every candidate with exactly three living neighbours.

  It then replaces the list in one assignment. `GetVisibleCells` filters the
  list by an inclusive window.
- **Dense engine** (`Form1.cs`). A fixed 100 x 100 `bool` grid is stepped into
  a fresh grid, which is then swapped in. `setup` writes a 12 x 10 pattern
  string into the grid at offset (20, 10).

Layout:

- `sequences.dfy` (module `Sequences`): LINQ's `Where` as `Filter`, and
  distinct lists, subsequences and sets.
- `cells.dfy` (module `Cells`): the `Cell` coordinate record, the 3x3 box
  filter `GetNeighbours`, the survival predicate `DecideIfAlive`, and the
  list of the eight neighbour positions (`getCellNeighboursLocations` of
  `CellsSystem.cs`, kept here because both engines' proofs use it).
- `life.dfy` (module `Life`): Conway's rule on a set of living coordinates,
  the reference both engines are proved against, and its count taken over
  the eight neighbour positions.
- `sparse.dfy` (module `Sparse`): the class `CellsSystem` and the
  specification functions its loops are proved against.
- `dense.dfy` (module `Dense`): the class `Form1` with the grid step and `setup`.
  Three parts of the source's methods are separate methods here:
  - the pattern-copying loop of `setup` (`PlacePattern`), with the same statements;
  - the running neighbour counter of the step (`CountLivingNeighbours`), with
    the same eight conditional increments;
  - the rule branches of the step (`NextState`). They return the value that
    the source writes into `iterationCells[x, y]` in each branch, and `Tick`
    writes it. The source's `continue` after each death only skips the rest
    of that branch, so the written value is the same.

A `Cell` is an immutable datatype value. So `X` and `Y` keep the values they
were built with, which the source ensures with private setters.

Cells are compared by coordinates. The C# code compares `Cell` objects by
reference in two places:
- `cellsToKill.Contains(cell)`: `SurvivorsAreSpared` shows that membership by
  coordinate gives the same survivors, because the kill decision depends only
  on coordinates.
- `cell != this` in `GetNeighbours`: at its only call site `this` is a freshly
  built candidate whose coordinate is not alive, and `FreshCellExcludesNothing`
  shows that coordinate inequality then excludes nothing either.
  `BirthsUseBoxCount` applies this to every candidate of a step.

Counts are taken over the list, so a repeated coordinate is counted twice. The
constructor keeps repeated coordinates. The theorem that a step is Conway's
rule therefore assumes a list without repeated coordinates, and proves that a
step keeps that property.

## Model

| member | source | states |
|---|---|---|
| `Cells.GetNeighbours` | EfficientSolution/Cell.cs:21-22 | the result holds exactly the entries of the list at Chebyshev distance 1 from the cell, in list order (a subsequence), each as often as in the list; a list without repeats gives a result without repeats |
| `Cells.FreshCellExcludesNothing` | EfficientSolution/Cell.cs:21-22 | for a cell whose coordinate is not in the list, the `cell != this` test excludes nothing: the result is the plain 3x3 box filter |
| `Cells.DecideIfAlive` | EfficientSolution/Cell.cs:33-46 | true exactly when the list has 2 or 3 entries: false at 1 or fewer (solitude), false at 4 or more (overpopulation), and it depends only on the length |
| `Cells.GetCellNeighboursLocations` | EfficientSolution/CellsSystem.cs:110-123 | 8 pairwise distinct positions, exactly the positions at Chebyshev distance 1 from the cell |
| `Sparse.LivingNeighboursOf` | EfficientSolution/CellsSystem.cs:70-73 | the living entries located at one of the 8 neighbour positions, exactly those adjacent to the cell; no repeats if the list has none |
| `Sparse.NewCandidatesFacts` | EfficientSolution/CellsSystem.cs:47-56 | one cell's contribution is exactly its neighbour positions that are neither already selected nor alive, with no repeats |
| `Sparse.CandidatesFacts` | EfficientSolution/CellsSystem.cs:40-62 | the candidate list has no repeated position, and a position is in it iff it is not alive and is adjacent to some living cell |
| `Sparse.SurvivorsAreSpared` | EfficientSolution/CellsSystem.cs:64-95 | the survivors are exactly the living cells for which `DecideIfAlive` holds of their neighbour count, in their original order |
| `Sparse.GetNeighboursIsLivingNeighbours` | EfficientSolution/CellsSystem.cs:97-108 | the box filter used for births and the neighbour-position count used for deaths select the same entries |
| `Sparse.CountIsLiveCount` | EfficientSolution/CellsSystem.cs:70-76 | over a list without repeats, the neighbour count equals the number of living positions around the cell |
| `Life.LiveCountByLocations` | EfficientSolution/CellsSystem.cs:110-123 | the number of living positions around a cell equals the number of the 8 listed neighbour positions that are alive |
| `Sparse.NeighbourCountAtMostEight` | EfficientSolution/Cell.cs:21-22 | over a list without repeated coordinates, `GetNeighbours` returns at most 8 cells |
| `Sparse.SurvivesIffTwoOrThree` | EfficientSolution/CellsSystem.cs:64-95 | over a list without repeats, a position survives iff it is alive with 2 or 3 living neighbours |
| `Sparse.BirthsUseBoxCount` | EfficientSolution/CellsSystem.cs:97-108 | the births computed with `GetNeighbours` are the candidates whose plain 3x3 box count, with no `cell != this` test, is 3: every candidate is a fresh cell whose coordinate is not alive |
| `Sparse.BornIffThree` | EfficientSolution/CellsSystem.cs:97-108 | over a list without repeats, a position is born iff it is dead with exactly `LIVING_NEIGHBOURS_TO_CREATE_LIFE` = 3 living neighbours |
| `Sparse.StepIsLife` | EfficientSolution/CellsSystem.cs:23-35 | a step over a list without repeats gives a list without repeats that holds exactly the positions Conway's rule makes alive, every count taken on the old generation |
| `Sparse.CellsSystem.constructor` | EfficientSolution/CellsSystem.cs:13-16 | the living list is the starting list as given, repeats included |
| `Sparse.CellsSystem.Iterate` | EfficientSolution/CellsSystem.cs:23-35 | the new list is the step of the old list (survivors in order, then births), computed from the old list only; if the old list has no repeats, the new one has none and obeys Conway's rule |
| `Sparse.CellsSystem.GetVisibleCells` | EfficientSolution/CellsSystem.cs:37-38 | exactly the living cells with `screenX <= X <= screenXMax` and `screenY <= Y <= screenYMax`, in list order and with their multiplicity; an inverted window gives an empty list; the state is not changed |
| `Sparse.CellsSystem.GetCandidatesForNewLife` | EfficientSolution/CellsSystem.cs:40-62 | the loop builds the candidate list: no repeats, and exactly the dead positions adjacent to a living cell |
| `Sparse.CellsSystem.GetCellsToKill` | EfficientSolution/CellsSystem.cs:64-81 | a cell is put in the kill list iff `DecideIfAlive` is false for its living entries at the 8 neighbour positions |
| `Sparse.CellsSystem.GetCellsThatSurviveIteration` | EfficientSolution/CellsSystem.cs:83-95 | the cells not in the kill list, in their original order |
| `Sparse.CellsSystem.AddNewCellsForThisIteration` | EfficientSolution/CellsSystem.cs:97-108 | the surviving list followed by exactly the candidates with 3 living neighbours, in candidate order |
| `Dense.Form1.constructor` | Form1.cs:31-45 | a fresh 100 x 100 grid with `maxX` = `maxY` = 99, holding the pattern that `setup` writes |
| `Dense.Form1.Setup` | Form1.cs:68-95 | cell (x+20, y+10) is alive iff the pattern character at y*12+x is `*`, for x < 12 and y < 10; every other cell is dead; all indices are in bounds |
| `Dense.Form1.PlacePattern` | Form1.cs:92-94 | every cell of the window at the offset becomes alive iff the row-major pattern has a `*` there; all indices are in bounds; cells outside the window keep their value |
| `Dense.Form1.IsAlive` | Form1.cs:196-205 | false when x < 0, x >= maxX, y < 0 or y >= maxY, so column `maxX` and row `maxY` read as dead; otherwise the grid cell |
| `Dense.Form1.LivingNeighbours` | Form1.cs:150-159 | the count over the 8 positions read through `IsAlive` is between 0 and 8 |
| `Dense.Form1.CountLivingNeighbours` | Form1.cs:150-159 | the running counter ends equal to the count over the 8 positions |
| `Dense.Form1.LivingNeighboursIsLiveCount` | Form1.cs:150-159 | the grid's count is Conway's count on the set of cells `IsAlive` reports living |
| `Dense.Form1.NextState` | Form1.cs:161-186 | the rule branches compute Conway's rule: a live cell lives on with 2 or 3 neighbours and dies of solitude at 1 or fewer or of overpopulation at 4 or more; a dead cell comes alive with exactly 3 |
| `Dense.Form1.Tick` | Form1.cs:135-191 | the next grid is fresh and swapped in; the old grid is not modified; a live cell with 2 or 3 neighbours lives and any other live cell dies; a dead cell comes alive iff it has exactly 3; all counts come from the old grid |
| `Dense.Form1.StepInsideIsLife` | Form1.cs:161-186 | below column `maxX` and row `maxY`, the value the step writes is Conway's rule on the cells `IsAlive` reports living |

## Left out

- Painting: `Form1_Paint`, the bitmap, `LockBits`, the unsafe pixel pointers and the zoom. They are rendering only.
- `Form2.cs` as a whole. It is window plumbing: the timer, mouse drag and pan, wheel zoom, and the message filter calling into `user32.dll`. Its `setup` builds the same pattern as a cell list for `CellsSystem`.
- `randomSetup` in `Form1.cs`: it draws from a clock-seeded random generator with a floating-point threshold.
- `Invalidate`, `Refresh`, `InitializeComponent`, and the timer and button wiring. `Program.cs` (application start-up) is not part of this model.
- 32-bit wrap-around of `X - 1` and `X + 1`: coordinates are unbounded integers.
- The `CellsSystem` constructor keeps a reference to the caller's list. Here it takes a sequence value, so later changes by the caller are not modelled.
- Object identity of `Cell`: cells are compared by coordinates. The two places where C# compares references are covered by the lemmas named above.
- Deduplication: the constructor stores the starting list as given and does not collapse repeated coordinates. The model does the same and does not add a deduplicating constructor.
- `Cell.LIVING_NEIGHBOURS_TO_CREATE_LIFE` is declared in `Cell.cs` but never used there, so it is omitted. The one in `CellsSystem.cs` is modelled.
- Running time: the quadratic `Any`/`Where` scans are modelled by their results only.
- `Dense.Form1.Tick`: the off-by-one bounds check in `isAlive` is kept as written. Conway's rule is therefore proved only below column `maxX` and row `maxY` (`StepInsideIsLife`). On that column and row, `Tick` still applies the code's rule to the code's count.
