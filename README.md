# Wall-extension maze generator, modelled in Dafny

This project models `MazeGenerator/maze.py`, a random maze generator that
uses the wall-extension method. The maze is a `height × width` array of
ints: a wall is 1 and a path cell is 0. `random_maze` works in three stages:

1. It checks that both sizes are odd.
2. It builds a grid whose outer ring is wall and whose inside is path.
3. It repeats one pass until no candidate is left. A candidate is a cell
   with even row and even column that is still path. Each pass:
   - lists the candidates in row-major order;
   - draws one of them as the start;
   - has `extend_wall` grow a wall from it two cells at a time, until the
     next landing cell is already wall;
   - sets every cell of the grown wall to 1.

`search_visitable_dir` decides which of the four directions a wall may grow
in from the current cell.

Modules:

- `Coordinates` (coordinates.dfy) covers `Coordinate` with `+`, `*` and `add_mul`, and the `Directions` enumeration.
- `Grid` (grid.dfy) covers:
  - the 0/1 cell type and the array predicates (in bounds, border, path cell, wall);
  - the errors;
  - the random index source (see "Randomness").
- `WallExtension` (wall_extension.dfy) holds `search_visitable_dir` and `extend_wall`:
  - `Step` is a specification function for one pass of the `while True` body, on the state (`curr`, `building`, `failed`, draws so far).
  - `Run` repeats `Step`.
  - The method `ExtendWall` is the loop itself, written over the same local variables and proved equal to `Run`.
  - Lemmas state what a pass and the whole loop guarantee.
- `MazeBuilder` (maze_builder.dfy) holds `random_maze`. Its candidate scan, the commit loop, the border set-up and the main loop (`FillMaze`) are methods over an `array2`, and `RandomMaze` adds the size check. The ghost list `walls` records the committed walls in order, and `GrownWalls` states what each of them was when it was committed.
- `Wrappers` (wrappers.dfy) is a `Result` type. Raised exceptions become `Failure` values:
  - `SizeNotOdd` is the `ValueError` of `random_maze`.
  - `NegativeDimensions` is the `ValueError` that `np.zeros` raises for a negative odd size.
  - `PopFromEmptyList` is the `IndexError` of `building.pop()`.

Randomness: `np.random.randint(n)` is a supplied function `pick(k, n)`. It gives the `k`-th draw of the run, and `ValidOracle` requires `0 <= pick(k, n) < n`. One draw counter is threaded through the start-cell draw of `random_maze` and the direction draws of `extend_wall`, because both use the same NumPy stream.

Backtracking follows the code as written. The comment at maze.py:161 says the retry should be recursive; the code does something else at a dead end:

- It appends `curr` to `failed` and sets `curr = building.pop()`.
- When `curr` was just reached by an advance, or is the start, it is the last entry of `building`. The first pop then returns `curr` itself, so the next pass is again a dead end at the same cell (`DeadEndPopsCurrFirst`).
- The second pop lands on the cell appended before it, usually the doorway cell, and the walk carries on from there.
- After a pop, `curr` is no longer in `building`. A dead end there directly pops the entry before it.
- Popping an empty list raises `IndexError` (`StartDeadEndRaises`).

The model follows the code.

## Model

| member | source | states |
|---|---|---|
| Coordinates.Coordinate.Add | MazeGenerator/maze.py:29-31 | `+`: component-wise sum (definition; its laws are in `AddLaws`) |
| Coordinates.Coordinate.Mul | MazeGenerator/maze.py:33-38 | `*`: scaling by an int, component-wise product by a coordinate (definition; related by `ScalarIsDiagonalPointwise`) |
| Coordinates.Coordinate.AddMul | MazeGenerator/maze.py:40-58 | `c.add_mul(o, m)` is `c + o * m`, with `*` by an int, as the docstring promises |
| Coordinates.AddMulDefaultIsAdd | MazeGenerator/maze.py:40-58 | with the default multiplier 1, `add_mul` is plain `+` |
| Coordinates.ScalarIsDiagonalPointwise | MazeGenerator/maze.py:33-38 | `*` by an int `k` scales both components, i.e. equals the component-wise product with `(k, k)` |
| Coordinates.AddLaws | MazeGenerator/maze.py:29-31 | `+` is commutative and associative; `add_mul` with `-m` undoes `add_mul` with `m` |
| Coordinates.TwoStepsAreTwoUnitSteps | MazeGenerator/maze.py:172-177 | for every direction, `curr.add_mul(d, 2)` is `curr + d + d`, differs from `curr` and from `curr + d`, and `(curr + d).add_mul(d, -1)` is `curr` |
| Coordinates.DirectionsEnumerateAll | MazeGenerator/maze.py:61-66 | iterating `Directions` visits every member |
| Coordinates.DirectionsInOrder | MazeGenerator/maze.py:61-66 | iteration yields (0,1), (0,-1), (1,0), (-1,0) in that order, pairwise different |
| Coordinates.DirectionsAreTheUnitSteps | MazeGenerator/maze.py:61-66 | a coordinate is the value of some direction exactly when it is a unit step along one axis |
| Coordinates.Direction.Value | MazeGenerator/maze.py:61-66 | the `.value` of each member (definition; its values, order and unit length are stated by `DirectionsInOrder` and `DirectionsAreTheUnitSteps`) |
| Coordinates.RankIndexesDirections | MazeGenerator/maze.py:61-66 | every member sits in `Directions` at the index given by its declaration position |
| Grid.OpenIsInterior | MazeGenerator/maze.py:208-211 | when the border is wall, a path cell is strictly interior, so every probe `curr + d` is inside the array |
| Grid.DistinctIsNoDuplicates | MazeGenerator/maze.py:209-211 | the "no repeated cell" predicate used for `building` holds exactly when no two positions hold the same coordinate |
| Grid.DistinctConcat | MazeGenerator/maze.py:125-126 | two repeat-free lists with no common cell concatenate to a repeat-free list |
| Grid.OpenCellsMembership | MazeGenerator/maze.py:117 | a coordinate is among the path cells exactly when it is in bounds and its cell is 0 |
| WallExtension.Visitable | MazeGenerator/maze.py:208-211 | the four-part condition under which a direction is yielded (definition; used by `VisitableDirsSpec`) |
| WallExtension.VisitableDirs | MazeGenerator/maze.py:207-212 | `search_visitable_dir` as the scan of `Directions` (definition; its meaning is stated by `VisitableDirsSpec`) |
| WallExtension.VisitableAmongSpec | MazeGenerator/maze.py:207-212 | scanning the first `n` directions keeps exactly the qualifying ones of rank below `n`, in increasing rank |
| WallExtension.VisitableDirsSpec | MazeGenerator/maze.py:207-212 | `search_visitable_dir` yields `d` iff `maze[curr+d]==0`, `curr+d` not in `building`, `curr+d` not in `failed` and `curr+2d` not in `building`; the yield is in RIGHT, LEFT, UP, DOWN order, each at most once, and is empty iff no direction qualifies |
| WallExtension.VisitableAntitone | MazeGenerator/maze.py:207-212 | keeping every entry of `building` except `curr` (more may be added), and every entry of `failed` (more may be added), never makes a new direction qualify |
| WallExtension.Step | MazeGenerator/maze.py:166-178 | one pass of the `while True` body on (`curr`, `building`, `failed`, draws): dead end and pop, or draw, append and return or advance (definition; its properties are the lemmas below) |
| WallExtension.Run | MazeGenerator/maze.py:165-178 | the loop of `extend_wall` as repeated `Step`, cut off after `fuel` passes (definition; its outcomes are stated by `RunOutcomes`, `RunKeepsDistinct` and `ExtensionOutcomes`) |
| WallExtension.DeadEndBacktracks | MazeGenerator/maze.py:167-169 | with no direction, an empty `building` raises IndexError; otherwise `curr` becomes the popped last entry, `curr` is appended to `failed`, no draw is made and the invariant holds |
| WallExtension.AdvanceFinishes | MazeGenerator/maze.py:170-176 | when a pass returns, some qualifying `d` was drawn (one draw), the result is `building + [curr + d]` with `maze[curr + 2d] == 1`, and the result is non-empty, all path cells, ending next to wall |
| WallExtension.AdvanceContinues | MazeGenerator/maze.py:170-178 | when a pass advances, `curr` moves by exactly `2d` for a qualifying `d`, the doorway and the new `curr` are appended, `failed` is unchanged, and one draw is made |
| WallExtension.StepKeepsInvariant | MazeGenerator/maze.py:165-178 | every pass keeps `curr` and all of `building` on path cells, only appends to `failed` and never takes back a draw |
| WallExtension.StepKeepsDistinct | MazeGenerator/maze.py:173-178 | a pass never puts a cell into `building` twice, nor into the returned list |
| WallExtension.DeadEndPopsCurrFirst | MazeGenerator/maze.py:167-169 | the first pop after a dead end returns `curr` itself; the next pass is again a dead end and pops the entry before it, with `curr` twice in `failed` |
| WallExtension.StartDeadEndRaises | MazeGenerator/maze.py:162-169 | a start cell without a qualifying direction makes the second pop hit an empty `building`: IndexError |
| WallExtension.RunOutcomes | MazeGenerator/maze.py:165-178 | the loop ends in a completed wall (non-empty, path cells, ending next to wall, at least one draw), an IndexError or the step bound, and nothing else |
| WallExtension.RunKeepsDistinct | MazeGenerator/maze.py:162-178 | a returned wall has no repeated cell |
| WallExtension.ExtensionOutcomes | MazeGenerator/maze.py:162-178 | from `building = [start]`: a returned wall is non-empty, repeat-free, made of path cells and ends next to existing wall; any other outcome is the IndexError or the step bound |
| WallExtension.DeadEndTransition | MazeGenerator/maze.py:167-169 | a dead-end pass, stated on the loop variables, leaves the rest of the loop's result unchanged |
| WallExtension.AdvanceTransition | MazeGenerator/maze.py:170-178 | an advancing pass, stated on the loop variables: the probe `curr + 2d` is in bounds, and the loop's result is the one the pass returns or continues to |
| WallExtension.ExtendWall | MazeGenerator/maze.py:136-178 | the imperative loop over `curr`, `building` and `failed` returns exactly what `Run` specifies, and only reads the maze |
| MazeBuilder.Candidates | MazeGenerator/maze.py:114-121 | the candidate list holds exactly the even/even cells that are 0, strictly in row-major order, and is empty iff no such cell exists |
| MazeBuilder.Commit | MazeGenerator/maze.py:125-126 | after setting the returned cells, a cell is 1 if it is in the wall and keeps its old value otherwise |
| MazeBuilder.WalledGrid | MazeGenerator/maze.py:106-110 | the fresh `height × width` grid is 1 exactly on the outer ring and 0 inside |
| MazeBuilder.ShrinksOpenCells | MazeGenerator/maze.py:112-126 | committing a non-empty wall of path cells strictly lowers the number of path cells (the main loop terminates) |
| MazeBuilder.ThinGridHasNoCandidate | MazeGenerator/maze.py:114-121 | with at most 3 rows or columns and a walled border, no cell is a candidate |
| MazeBuilder.CompletedIsGrown | MazeGenerator/maze.py:124-126 | a wall `extend_wall` completes on a grid whose walls are the border and the laid cells is a grown wall of that grid: non-empty, repeat-free, off the border, disjoint from the laid cells, ending next to the border or a laid cell |
| MazeBuilder.GrownWallsAppend | MazeGenerator/maze.py:112-126 | committing a wall grown on the current grid keeps the whole history of walls well formed |
| MazeBuilder.GrownWallsDisjoint | MazeGenerator/maze.py:112-126 | in a well-formed history no cell is committed twice: the walls are pairwise disjoint and each repeat-free |
| MazeBuilder.GrowFromCandidate | MazeGenerator/maze.py:124-126 | one main-loop pass: the start is `candidates[randint(len(candidates))]`, a path cell; the result is exactly `extend_wall`'s (`Run` from `[start]` on the grid before the pass); on IndexError or the step bound the array is untouched; otherwise exactly the returned cells become 1, the wall was completed on the old grid and is a grown wall of it, at least one draw is made and the number of path cells drops |
| MazeBuilder.FillMaze | MazeGenerator/maze.py:112-126 | the main loop: a stop is an `extend_wall` error, namely `Run` failing with that error from the candidate `start` at the draw after `draws` on the grid the loop stopped at, which is the border plus the committed walls, each grown on the grid of its moment; otherwise no even/even path cell is left, the border is walled, the walls are exactly the border plus the committed walls, each committed wall was grown on the grid of its moment, and no cell is committed twice; grids with at most 3 rows or columns get no wall |
| MazeBuilder.RandomMaze | MazeGenerator/maze.py:101-133 | ValueError exactly when a size is even or negative; on success the array is `height × width`, its border is wall, no even/even cell is 0, and a cell is 1 iff it is on the border or in a committed wall; each committed wall is non-empty and repeat-free, was made of path cells at its commit, avoids the walls committed before it and ends next to the border or one of them, and no cell is committed twice; any other failure is `extend_wall`'s: `Run` fails with that error from a candidate of the ghost output `grid`, which is the `height × width` array the loop stopped at, made of the border plus the committed walls; on success `grid` is the result; grids with at most 3 rows or columns (1×1 included) come back as just the walled border |

## Left out

- ExtendWall: the `while True` loop of `extend_wall` has no decreasing measure, so the model bounds it with a `fuel` parameter. It returns the extra error `OutOfFuel` when the bound runs out. That error is not in the source. It also means the model does not claim that `extend_wall` terminates.
- ExtendWall: its contract is the equality with `Run`. The outcome properties are stated about `Run` in `RunOutcomes`, `RunKeepsDistinct` and `ExtensionOutcomes`, and `GrowFromCandidate` applies them.
- RandomMaze: `fuel` is passed to every `extend_wall` call. The main loop itself needs no bound, because its termination is proved from the falling count of path cells.
- RandomMaze: the statement about which cells are walls uses a ghost list of the committed walls.
- RandomMaze: does not say that each committed wall is `Run` of the grid of its moment. `Run` reads the array, and earlier grids are not kept. `GrowFromCandidate` states that equality for one pass; `FillMaze` and `RandomMaze` keep its consequences (`GrownWalls`).
- FillMaze: it does not state that each committed wall is `Run` on the grid of its moment. Earlier grids are not kept, and only the failing pass's grid, which is the final array, is tied to `Run` (`FailsFrom`). It also does not state how the draw counter is threaded from pass to pass, only that a failure's `draws` is the counter before the failing pass's start draw. It does not say that the failing start is the `pick(draws, n)`-th candidate in row-major order, only that it is a candidate. `GrowFromCandidate` states these facts for each single pass.
- Randomness: `np.random.seed` (maze.py:104) and the distribution of `randint` (maze.py:124, maze.py:172) are left out. Draws come from the supplied `pick` function.
- Presentation is left out, because it is I/O:
  - `show_maze`;
  - the matplotlib calls;
  - the `verbose` printing and the float copy of the maze (maze.py:128-132, 140-141, 180-188, 215-226);
  - the module-level demo call (maze.py:229-230);
  - `Coordinate.__str__` (maze.py:26-27).
- Perfect-maze claims are not stated:
  - connectivity;
  - acyclicity;
  - that `PopFromEmptyList` never happens from a real candidate.
  The code neither asserts nor tests them.
- NumPy negative-index wraparound is not modelled. Every probe is proved to be in bounds (`OpenIsInterior`, `AdvanceTransition`), so wraparound never happens.
- Exceptions are values. Python's propagation of `IndexError` out of `extend_wall` and `random_maze` is modelled as a `Failure` result that `RandomMaze` returns at once.
- MachineEpsilon/MachineEpsilon_csharp/Program.cs is not part of this model. It is floating-point work that is unrelated to the maze.
