# Maze solver and path validator, modelled in Dafny

This project models `maze.cpp`, a Stanford CS106B maze exercise, and proves
properties of the model. A maze is a rectangular grid of booleans: `true` is
a corridor and `false` is a wall. The entry is the top-left cell (0, 0) and
the exit is the bottom-right cell (R-1, C-1). A path is a stack of
locations, written here as a sequence whose last element is the top.

The model covers four parts of the program:

- `generateValidMoves`, the in-bounds corridor cells one orthogonal step
  away (`Moves`).
- `validatePath`, modelled as the code behaves, quirks included
  (`Validation`).
- `solveMaze`, a breadth-first search over whole partial paths with one
  visited set that is never cleared (`Solver`).
- The loop of `readMazeFile` that turns lines into a grid (`MazeFile`).

`RoutePrefix`, `Universe` and the parity lemmas in `Routes` are shared
definitions. `RoundTrip` connects the solver to the validator, which is what
the source's tests on maze files do.

Modules, one per file:

| file | module | contents |
|---|---|---|
| grid.dfy | MazeGrid | `Loc`, the rectangular `Grid`, entry, exit, adjacency, the (row, column) order |
| moves.dfy | Moves | `ValidMoves`, the loop `GenerateValidMoves`, ascending iteration `InOrder` |
| routes.dfy | Routes | routes from the entry, reachability, shortest solutions, parity and length bounds |
| validation.dfy | Validation | the validator as written (`Walk`, `Pop`, `ValidatePath`), its closed form, the intended validator |
| solver.dfy | Solver | `SolveMaze` with its ghost level bookkeeping and the invariant lemmas |
| mazefile.dfy | MazeFile | `ReadMazeLines`, its specification `Parse`, and `Render` as its inverse |
| roundtrip.dfy | RoundTrip | verdicts of the validator on the solver's answers |

How the code's behaviour shows up in the model:

- **The validator's loop.** The validator pops a copy of the path in a loop
  whose bound `i < path.size()` re-reads the shrinking stack. So the loop
  runs only about n/2 times. With the path written bottom-up as p[0..n), it
  checks only the pairs (p[c-1], p[c]) with c >= n/2.
- **The start test.** It fires only when n is even, and it compares the
  popped cell p[n/2] with the entry, not the bottom of the stack.
- **An empty path.** The Stanford `peek` fails on an empty stack before the
  exit test runs, so an empty path yields `Empty`.
- **The arguments.** The source passes the grid by reference
  (maze.cpp:23, 49, 111) but never writes to it, so the model takes it as
  a value. validatePath takes the path by value (maze.cpp:49) and pops its
  own copy (maze.cpp:66); `ValidatePath` likewise pops a local `stack`
  and leaves the caller's path as it was.
- **The visited set.** solveMaze keeps one set `uniqueLocations`
  (maze.cpp:115) for the whole search and never clears it, so a cell
  reached by one path is closed to every later path.
- **Set iteration order.** A Stanford `Set` iterates in ascending (row,
  column) order. The solver's enqueue loop does the same through
  `Moves.InOrder`.
- **An open entry.** No part of the source checks that the entry cell is
  open, so a route starts at (0, 0) even on a wall.

Where the source's own comments and its code differ, the model follows the
code:

- **The start test.** The comment on validatePath (maze.cpp:44) says the
  end of the stack is checked to be the entry. The code compares the
  popped cell at the middle of the path with the entry (maze.cpp:81-86),
  and only when the length is even.
- **The step test.** The comment (maze.cpp:45) says every location is
  checked to be a valid step from the previous one. The loop bound
  (maze.cpp:64) stops after about half of the path, so the pairs below the
  middle are never checked. The diagonal test path [(0,0),(1,1)]
  (maze.cpp:323) is therefore rejected at the start test, not as a bad
  move.
- **The revisit test.** The comment (maze.cpp:46) says no location occurs
  twice. The code only tests each cell from index n/2 - 1 upward against
  the cells above it, so a repeat among the lower cells goes unnoticed
  (`Validation.LowerHalfIgnored`).
- **The fallback answer.** The comment on solveMaze (maze.cpp:104-110)
  says it returns the path to the exit. When no path reaches the exit it
  returns the one-cell stack {(0,0)} (maze.cpp:113, 164).

## Model

| member | source | states |
|---|---|---|
| Moves.Directions | maze.cpp:26-30 | there are four candidate steps, and they are exactly the orthogonal neighbours of `cur` |
| Moves.InOrder | maze.cpp:145-153 | iterating a set of moves lists at most four cells, each in the set and a neighbour of `cur` |
| Moves.ValidMoves | maze.cpp:23-41 | a cell is a valid move from `cur` exactly when it is one orthogonal step from `cur` and is an in-bounds corridor; there are at most four and `cur` is never one of them |
| Moves.GenerateValidMoves | maze.cpp:23-41 | the four-step loop over the directions builds exactly `ValidMoves(g, cur)` |
| Moves.InOrderListsSet | maze.cpp:145-158 | iterating a set of moves lists exactly its elements, each once, in strictly ascending (row, column) order |
| Moves.CentreOfOpenGrid | maze.cpp:229-237 | the centre of an open 3x3 grid has its four neighbours as moves |
| Moves.SideOfOpenGrid | maze.cpp:239-247 | the top middle cell of an open 3x3 grid has three moves |
| Moves.CornerWithWall | maze.cpp:249-256 | the corner of the walled 2x2 grid has only (1, 0) as a move |
| Moves.WalledIn | maze.cpp:258-267 | a cell surrounded by walls and the edge has no moves |
| Moves.SingleCell | maze.cpp:268-276 | the cell of a 1x1 grid has no moves |
| Moves.OneOpenNeighbour | maze.cpp:278-288 | the centre of the test grid with one open neighbour has exactly that neighbour as a move |
| Routes.RouteLengthParity | maze.cpp:23-41 | every route from the entry to the exit has a number of cells with the parity of R + C - 1 |
| Routes.RouteParity | maze.cpp:23-41 | the k-th cell of a route has row + column of the parity of k, since each move changes row + column by one |
| Routes.SimpleRouteBound | maze.cpp:111-165 | a route without repeated cells has no more cells than the maze |
| Routes.RoutePrefix | maze.cpp:111-165 | every non-empty prefix of a route is a route |
| Routes.ElementsOfSuffix | maze.cpp:64-73 | popping one more cell adds exactly that cell to the set of popped cells |
| Validation.Validate | maze.cpp:49-63 | the verdict is Empty exactly for the empty path, because `peek` fails first, and NotAtExit exactly for a non-empty path whose top is not the exit |
| Validation.Pop | maze.cpp:64-98 | the loop over the popped stack copy and the set of popped cells never reports the empty-path or not-at-exit errors |
| Validation.Walk | maze.cpp:64-98 | the loop as written never reports the empty-path or not-at-exit errors |
| Validation.PopIsWalk | maze.cpp:64-98 | the loop run on the popped stack and popped-cell set gives the same verdict as the index form `Walk` |
| Validation.ValidatePath | maze.cpp:49-102 | the source's validatePath, popping a copy of the stack, returns the verdict `Validate(g, path)` |
| Validation.AcceptIff | maze.cpp:49-102 | a path is accepted exactly when it is non-empty, its top is the exit, every cell from index n/2 up is a valid move from the cell below it, that cell does not occur above it, and for even n the cell p[n/2] is the entry |
| Validation.WalkOk | maze.cpp:64-98 | from iteration i on, the loop succeeds exactly when the pairs it still examines are chained and the start test, if still ahead, sees the entry |
| Validation.StartTestOnlyForEven | maze.cpp:81-88 | a NotAtStart verdict happens only for an even length of at least 2, and then p[n/2] is not the entry; it is reached only after every pair above the middle is linked and the cell p[n/2 - 1] has passed the revisit test |
| Validation.WalkNotAtStart | maze.cpp:81-88 | the start test fires only at iteration (n-2)/2 of an even-length path |
| Validation.WalkStartReached | maze.cpp:64-88 | from iteration i on, with the pairs above already linked, a NotAtStart verdict means every pair above the middle is linked and p[n/2 - 1] does not occur above itself |
| Validation.ErrorsLieInUpperHalf | maze.cpp:64-94 | a Revisited or BadMove verdict names the topmost faulty pair, at an index c >= n/2 with every pair above it linked; for BadMove the lower cell is no revisit and, at the middle of an even-length path, the upper cell is the entry |
| Validation.WalkRevisited | maze.cpp:64-77 | from iteration i on, with the pairs above already linked, a revisit is reported for a real revisit in the upper half below which nothing was skipped |
| Validation.WalkBadMove | maze.cpp:64-94 | from iteration i on, with the pairs above already linked, a bad move is reported for the first pair from the top whose upper cell is not a valid move from a not-yet-seen lower cell, after the start test passed |
| Validation.LowerHalfIgnored | maze.cpp:64 | two paths of equal length that agree from index n/2 - 1 upwards get the same verdict |
| Validation.WalkIgnoresLowerHalf | maze.cpp:64 | from iteration i on, two paths of equal length that agree from any index lo <= n/2 - 1 upwards get the same verdict: the cells below n/2 - 1 are never read |
| Validation.OneCellPaths | maze.cpp:56-69 | a one-cell path is accepted exactly when its cell is the exit, because the loop breaks after the first pop |
| Validation.TwoCellPaths | maze.cpp:81-88 | in a maze larger than 1x1 a two-cell path ending at the exit is rejected, as a revisit if both cells are the exit and otherwise at the start test |
| Validation.SolutionInTwoByTwo | maze.cpp:291-297 | the tested solution of the 2x2 maze is accepted |
| Validation.NotEndingAtExitInTwoByTwo | maze.cpp:317-331 | the tested path whose top is not the exit is rejected as NotAtExit |
| Validation.NotBeginningAtEntryInTwoByTwo | maze.cpp:317-331 | the tested path that does not begin at the entry is rejected at the start test |
| Validation.ThroughWallInTwoByTwo | maze.cpp:317-331 | the tested path through a wall is rejected as a bad move |
| Validation.TeleportInTwoByTwo | maze.cpp:317-331 | the tested diagonal jump is rejected, at the start test |
| Validation.RevisitInTwoByTwo | maze.cpp:317-331 | the tested path with a loop is rejected as a revisit |
| Validation.InvalidPathsInThreeByThree | maze.cpp:333-370 | the tested loop on the exit is a revisit, the tested step out of bounds is a bad move, and the tested reversed path fails at the exit test |
| Validation.SingleCellMaze | maze.cpp:372-381 | the one-cell path of the 1x1 maze is accepted |
| Validation.WalkIntendedOk | maze.cpp:43-48 | the intended walk from step i on succeeds exactly when the bottom is the entry and every remaining pair is chained |
| Validation.IntendedAcceptsExactlySolutions | maze.cpp:43-48 | the validation the doc comment describes accepts exactly the routes from the entry to the exit that repeat no cell |
| Validation.NoRepeatsFromSuffixes | maze.cpp:72-77 | a path repeats no cell exactly when no cell occurs again above itself, which is the test the loop makes |
| Validation.MovesAlongOpenRow | maze.cpp:23-41 | in an open 1x5 maze each cell of row 0 is a move from the one before it, and (0, 1) is not a move from (3, 3) |
| Validation.UncheckedLowerHalfExample | maze.cpp:64 | the validator as written accepts a 5-cell path whose bottom cell lies outside the maze |
| Validation.LowerHalfCheckedWhenIntended | maze.cpp:43-48 | the intended validation rejects that path as a bad move |
| Validation.EvenSolutionRejectedExample | maze.cpp:81-88 | the only solution of the open 1x2 maze is rejected as written and accepted when intended |
| Validation.LoneExitExample | maze.cpp:64-69 | the path holding only the exit is accepted as written and rejected when intended |
| Solver.SolveMaze | maze.cpp:111-165 | when the exit is reachable, the answer is a route from the entry to the exit with no repeated cell and no more cells than any other route to the exit; otherwise it is the one-cell stack {(0,0)} |
| Solver.MarkVisited | maze.cpp:131-135 | popping a copy of the dequeued path adds all of its cells to the visited set |
| Solver.Unvisited | maze.cpp:144-152 | the kept moves are exactly the valid moves of the tail that have not been visited |
| Solver.EnqueueExtensions | maze.cpp:153-158 | the queue gains, at its back and in iteration order, the dequeued path extended by each kept move |
| Solver.InitialInvariant | maze.cpp:113-123 | the queue holding only [entry], with nothing visited, satisfies the search invariant |
| Solver.StepKeepsInvariant | maze.cpp:125-160 | one round of dequeue, visit and enqueue keeps the search invariant, with the level advancing when the front paths run out |
| Solver.ShapeStep | maze.cpp:128-158 | the queue still holds front paths of one length followed by paths one cell longer |
| Solver.RoutesStep | maze.cpp:128-158 | every queued path is still a route without repeats whose cells below the top are visited |
| Solver.ClosedStep | maze.cpp:131-158 | every move out of a visited cell still leads to a visited cell or to the top of a queued path |
| Solver.LevelsStep | maze.cpp:125-160 | every route shorter than the level ends in a visited cell, and every route of the level's length ends in a visited cell or at the top of a front path |
| Solver.FrontLevelStep | maze.cpp:128-135 | dequeuing a front path keeps every route of the level's length covered |
| Solver.NextLevelStep | maze.cpp:144-158 | once all routes of one length end in visited cells, closure covers all routes one cell longer |
| Solver.ExitStaysUnvisited | maze.cpp:137-140 | visiting a path whose top is not the exit leaves the exit unvisited |
| Solver.LevelBound | maze.cpp:111-165 | the length of the queued paths never exceeds the number of cells, which bounds the loop |
| Solver.FoundIsShortest | maze.cpp:137-140 | the first dequeued path whose top is the exit is a shortest solution |
| Solver.ExhaustedUnreachable | maze.cpp:125-164 | when the queue is exhausted, no route reaches the exit |
| Solver.AllRoutesVisited | maze.cpp:125-164 | a visited set closed under moves that covers the short routes covers every route |
| MazeFile.Parse | maze.cpp:189-207 | reading fails on the first line exactly for an empty file; a grid read has one row per line and as many columns as the first line |
| MazeFile.RowsError | maze.cpp:192-206 | scanning rows never reports the empty-file error, and a reported invalid character is neither '@' nor '-' |
| MazeFile.BadChar | maze.cpp:196-205 | a reported character is neither '@' nor '-' |
| MazeFile.Decode | maze.cpp:189-191 | the grid has one row per line and, for a non-empty file, `cols` columns |
| MazeFile.ReadMazeLines | maze.cpp:189-207 | the loop that sizes and fills the grid produces `Parse(lines)`: the first error in row order, or the grid |
| MazeFile.ParseSucceedsIff | maze.cpp:189-207 | reading succeeds exactly for a non-empty file whose lines all have the first line's length and use only '@' and '-'; the grid then has one row per line, one column per character, and a corridor exactly at each '-' |
| MazeFile.ParseErrors | maze.cpp:189-207 | only an empty file fails on the first line; otherwise the error is the first defect met scanning rows in order, length before characters: an inconsistent-columns error names a line of another length below only good lines; an invalid-character error names the first character other than '@' and '-' in a line of the right length below only good lines |
| MazeFile.RowsErrorNone | maze.cpp:192-206 | rows r on raise no error exactly when they all have the expected length and use only '@' and '-' |
| MazeFile.RowsErrorSome | maze.cpp:192-206 | an error from rows r on is the first defect in row order: a wrong length below only good rows, or the first bad character of a row of the right length below only good rows |
| MazeFile.BadCharNone | maze.cpp:196-205 | a line has no bad character exactly when it uses only '@' and '-' |
| MazeFile.BadCharSome | maze.cpp:196-205 | a reported bad character is the first character of the line from c on that is neither '@' nor '-' |
| MazeFile.ReadRendered | maze.cpp:189-207 | reading the file written from a grid of at least one row gives back that grid |
| MazeFile.RenderRead | maze.cpp:189-207 | a file that reads successfully is the file written from the grid it reads |
| MazeFile.ReadsSmallMaze | maze.cpp:189-207 | the file "-@", "--" reads as the walled 2x2 maze of the tests |
| MazeFile.RejectsRaggedMaze | maze.cpp:194-196 | a file whose second line is shorter fails on inconsistent columns |
| MazeFile.RejectsStrayCharacter | maze.cpp:203-205 | a file holding 'x' fails naming that character |
| RoundTrip.SimpleRouteVerdict | maze.cpp:49-102 | a route without repeats from the entry to the exit is accepted when it has odd length and rejected at the start test when it has even length |
| RoundTrip.SolutionVerdict | maze.cpp:385-414 | a shortest solution is accepted exactly when R + C is even, and otherwise rejected at the start test |
| RoundTrip.FallbackVerdict | maze.cpp:416-422 | in a maze whose exit is unreachable, the fallback answer {(0,0)} is rejected as not ending at the exit |
| RoundTrip.IntendedAcceptsSolution | maze.cpp:43-48 | the intended validation accepts every shortest solution |
| RoundTrip.OneCellSolution | maze.cpp:137-140 | in a 1x1 maze the shortest solution is the one-cell path [(0,0)] |
| RoundTrip.SolutionOfTwoByTwo | maze.cpp:291-297 | the only shortest solution of the tested 2x2 maze is (0,0), (1,0), (1,1) |
| RoundTrip.ThreeCellRoute | maze.cpp:111-165 | when the entry has a single move from which the exit is a move, the shortest solution is those three cells |
| RoundTrip.EntryNeighbourOfTwoByTwo | maze.cpp:23-41 | in the walled 2x2 maze the moves from (1, 0) are (0, 0) and (1, 1) |
| RoundTrip.SolveThenValidate | maze.cpp:385-422 | solving and then validating yields Ok when the exit is reachable and R + C is even, NotAtStart when it is reachable and R + C is odd, and NotAtExit when it is unreachable; the intended validation accepts the answer exactly when the exit is reachable |

## Left out

- Graphics: `MazeGraphics::drawGrid` and `highlightPath` (maze.cpp:112, 129) only draw, so they have no model.
- File I/O: `openFile` and `readEntireFile` (maze.cpp:177-184) are not modelled. `ReadMazeLines` starts from the lines already read.
- `readSolutionFile` (maze.cpp:215-225) is not modelled. It wraps stream extraction of a `Stack`.
- The sample maze files `res/*.maze` and `res/*.soln` are not part of this model. `RoundTrip.SolveThenValidate` and `RoundTrip.SolutionVerdict` stand for the tests on those files (maze.cpp:299-315, 385-422).
- search.h is not part of this model. It declares an unrelated search-engine exercise and has no bodies.
- The `isEmpty` test at maze.cpp:60-63 is not modelled as a separate branch. It is unreachable: `peek` at maze.cpp:56 fails first on an empty stack, and the model reports that failure as `Empty`.
- Errors: `error(...)` raises an exception. The model returns a `Verdict` or a `LoadError` naming which error occurred. It keeps the offending character, but not the message text.
- Stanford containers: `Grid`, `Set`, `Stack`, `Queue` and `Vector` are sequences and sets. Of their behaviour the model keeps only the ascending iteration order of `Set` and the failure of `peek` and of `lines[0]` on an empty container.
- `Loc` coordinates are unbounded integers, whereas `GridLocation` holds C++ `int`s. The offsets at maze.cpp:26-29 could overflow only at the edge of the `int` range, far beyond any grid.
- A Dafny `char` stands for one byte of a `std::string` (maze.cpp:194, 198). Line lengths are counted in those units, with no encoding.
- MazeFile.ReadMazeLines: when readMazeFile raises an error, the caller's `maze` has already been resized and partly filled (maze.cpp:191, 200-204). The model returns only `Failed(error)` and does not describe that partial grid.
- Memory: the memory and time cost of copying whole paths into the queue is not modelled.
- Solver.SolveMaze: the contract does not say which shortest path wins a tie. The body enqueues in ascending order (`InOrder`, proved by `Moves.InOrderListsSet`), but the contract states only that the path is a shortest solution.

## Findings

| source | as written | input that shows it | evidently intended | confidence | as-written member | corrected member |
|---|---|---|---|---|---|---|
| maze.cpp:64 | the loop bound re-reads the shrinking stack, so only the pairs from index n/2 upwards are checked | open 1x5 maze, path (3,3),(0,1),(0,2),(0,3),(0,4) is accepted | every consecutive pair is checked, as the doc comment at maze.cpp:43-48 says | not executed | Validation.UncheckedLowerHalfExample | Validation.IntendedAcceptsExactlySolutions |
| maze.cpp:82-88 | the start test compares the popped middle cell p[n/2] with the entry, and only for even n | open 1x2 maze, its only solution (0,0),(0,1) is rejected; `RoundTrip.SolutionVerdict` shows every shortest solution is rejected when R + C is odd, and `RoundTrip.SimpleRouteVerdict` with `Routes.RouteLengthParity` shows the same for every route without repeated cells | the bottom cell of the path is compared with the entry | not executed | Validation.EvenSolutionRejectedExample | Validation.IntendedAcceptsExactlySolutions |
| maze.cpp:66-69 | the loop breaks once one cell is left, so a one-cell path is never checked against the entry | open 1x2 maze, the path (0,1) holding only the exit is accepted | a one-cell path is accepted only when its cell is both entry and exit | not executed | Validation.LoneExitExample | Validation.IntendedAcceptsExactlySolutions |
