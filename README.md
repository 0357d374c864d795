# Nurikabe deduction engine

A model of the solver in `solver.js`. It is a constraint-propagation engine
for Nurikabe: numbered islands of DOT cells, one connected wall of BLACK
cells, and no 2-by-2 block all BLACK. The HTML board element and the
rendering around it are not modelled. The solver keeps a square grid of
stored cell values:

- WHITE (0) means undecided;
- BLACK (1) is wall;
- DOT (2) is island.

A separate clue grid is fixed. A clue cell always reads as DOT.

Each pass does three things:

- it splits the board into streams (4-connected BLACK regions) and islands (4-connected DOT regions found from a clue);
- it runs five rules on that one snapshot and concatenates their proposed updates;
- it writes the updates in list order.

Passes repeat until one proposes nothing. Before the first pass, every
neighbour of a clue-1 island's clue cell is made BLACK.

Modules follow the source's layers:

- `Grid`: coordinates, the row-major code and the three cell enumerators.
- `Board`: the `Puzzle` class. It holds the clue grid `task`, the mutable `board` array and `TypeOf`.
- `Regions`: the flood fill and the row-major scan that extracts streams and islands.
- `Exits`: the undecided cells next to a component.
- `ExitRules`: ComponentExit and CoverIsland.
- `Corner`: the 2-by-2 rule.
- `Unreachable`: the bounded searches of the reachability rule.
- `BetweenIslands`: the separator rule.
- `Fixpoint`: one pass, the in-order write of its updates, and the loop.
- `Solver`: seeding and the whole run.

What is proved:

- Each loop is proved against a specification predicate:
  - the extraction yields maximal connected regions;
  - each rule emits exactly the updates its predicate characterises;
  - a search stamps exactly the cells reachable within its budget.
- A pass's updates are the six rule outputs concatenated in the source's order (`Fixpoint.RuleOrder`).
- Every update of a pass targets a WHITE cell with a non-WHITE value.
- Each step's new board is its pass's updates written in list order over the old board, and no other cell changes.
- A non-empty pass therefore strictly shrinks the set of WHITE cells. This gives termination and monotonicity.
- The fixpoint loop never changes a cell that was decided when it started. Seeding, which runs before the loop, may store BLACK over a DOT next to a clue-1 cell.
- The loop returns a ghost trace: the board after each pass, each pass's updates, and the fact that each update decides a cell still WHITE before its pass.
- The loop ends on an extraction where no rule fires. Its consequences are proved: complete islands are sealed, no 2-by-2 block with three BLACK cells and one WHITE cell remains, and so on.
- The loop leaves an already converged board unchanged.

The model follows the code on these points:

- The rules' updates are concatenated in a fixed order and written one by one. When two rules disagree about a cell, the later one's value is what the cell ends with (`Fixpoint.Applied`, `Fixpoint.BetweenWins`).
- Seeding uses the islands of the extraction taken before the loop. In each clue-1 island it walls in the root, the clue cell at which the row-major scan found the island. The contracts accept any clue cell of the island as its root; that it is the first in row-major order is not stated. Another clue-1 cell of the same island is not walled in.
- The reachability rule uses one search per island cell, each with a fresh id.
- A cell is marked when it is dequeued, and the search stops expanding at distance 0. A negative budget (an over-full island) bounds nothing, and the model proves the rule for any budget sign.

## Model

| member | source | states |
|---|---|---|
| Grid.Encode | solver.js:62-64 | the code of a valid cell lies in 0 .. size*size - 1 |
| Grid.Decode | solver.js:66-68 | an in-range code decodes to a valid cell |
| Grid.DecodeEncode | solver.js:62-68 | decoding the code of a valid cell gives the cell back |
| Grid.EncodeDecode | solver.js:62-68 | encoding the decoding of an in-range code gives the code back |
| Grid.DecodeInjective | solver.js:66-68 | distinct in-range codes decode to distinct cells |
| Grid.EncodeInjective | solver.js:62-64 | distinct valid cells have distinct codes, so deduplicating codes deduplicates cells |
| Grid.ValidCellsOnBoard | solver.js:50-52 | a cell is valid exactly when it lies in the size-by-size grid the full board iterator walks |
| Grid.BoardCells | solver.js:70-76 | the board iterator yields exactly the cells with both coordinates below size - margin |
| Grid.Neighbors | solver.js:78-86 | the neighbour iterator yields exactly the in-grid 4-neighbours, at most four |
| Grid.LocalWindow | solver.js:88-96 | the local iterator yields exactly the in-grid cells of the k-by-k block |
| Grid.QuadWindow | solver.js:88-96 | a 2-by-2 block inside the grid enumerates its four cells row by row |
| Board.Puzzle.TypeOf | solver.js:54-60 | a clue cell reads DOT, any other cell its stored value; the result is one of the three values, and reads BLACK exactly when BLACK is stored |
| Board.Puzzle.WhiteCells | solver.js:54-60 | the set of undecided cells: exactly the in-grid cells reading WHITE |
| Board.Puzzle.constructor | solver.js:3-5 | a puzzle built over a square clue grid and cell grid of the three values, with no clue stored BLACK, is valid |
| Regions.FloodFill | solver.js:104-123 | the BFS marks and returns a maximal connected same-typed region starting at its root, without repetition; the visited set grows by exactly those cells and stays closed |
| Regions.MarkCell | solver.js:107 | marking a cell adds exactly that cell to the visited set |
| Regions.PushNeighbors | solver.js:114-119 | every unvisited same-typed neighbour is marked and queued, the fill stays distinct and connected, and a push enlarges the visited set |
| Regions.PushOne | solver.js:115-118 | one neighbour of the dequeued cell is marked and queued exactly when it is unvisited and of the same type, and the push invariant (fresh, distinct, connected fill) is kept |
| Regions.FillStep | solver.js:109-120 | one dequeue keeps the fill invariant, the visited set only grows within the grid, and either it grows or the queue shrinks |
| Regions.FillClosed | solver.js:104-123 | once every same-typed neighbour of a filled cell is marked, the region is closed under same-typed adjacency |
| Regions.ScanCell | solver.js:125-135 | one cell of the scan keeps its invariant: the components found are disjoint regions of the right kind and the visited set is exactly their cells; the visited set only grows, and a cell that starts a component (stored BLACK, or a clue) ends visited |
| Regions.ComponentTypes | solver.js:26-38 | every stream cell reads BLACK and every island cell reads DOT |
| Regions.ComponentFields | solver.js:12-40 | on an extraction a stream has required size -1, never its size, and type BLACK; an island has its root's clue as required size and type DOT; each has at least its root, which reads its type |
| Regions.GetStreamsAndIslands | solver.js:98-138 | the result is an extraction: maximal connected regions of the right type, pairwise disjoint, covering every BLACK cell and every clue cell |
| Exits.GetExits | solver.js:140-151 | the exits are exactly the WHITE cells adjacent to a component cell, listed without repetition; their number is the size of the exit set |
| ExitRules.TheExit | solver.js:161-164 | a component with one exit has that cell as its whole exit set |
| ExitRules.ForcedExitsMembers | solver.js:156-168 | at most one update per component; an update is emitted exactly when it stores a component's type into that component's only exit while its size differs from its required size |
| ExitRules.ComponentExit | solver.js:156-168 | the result is the component-by-component list ForcedExits |
| ExitRules.CoverIsland | solver.js:170-181 | an update is emitted exactly when it is BLACK on an exit of a complete island |
| Corner.QuadCount | solver.js:183-204 | for a WHITE cell of a block, three BLACK cells in that block is equivalent to the cell being forced |
| Corner.ForcedUnique | solver.js:183-204 | a block forces at most one cell |
| Corner.ScanWindow | solver.js:186-196 | the count is the number of BLACK cells of the block, and the remembered cell is the block's last WHITE cell in window order, or (-1, -1) exactly when it has none |
| Corner.ScanCell | solver.js:190-195 | one cell of the block keeps the running BLACK count and the last WHITE cell seen |
| Corner.WindowFires | solver.js:198-200 | the window's test fires exactly when the block forces a cell, and the remembered cell is the forced one |
| Corner.CoverCorner | solver.js:183-204 | an update is emitted exactly when it is DOT on the only WHITE cell of a 2-by-2 block whose other three cells read BLACK |
| Unreachable.ReachesStep | solver.js:220-224 | a walk extends by one non-BLACK neighbour at the cost of one step of budget |
| Unreachable.ReachesMono | solver.js:214-216 | a larger non-negative budget reaches no less, and all negative budgets reach the same cells |
| Unreachable.BfsStep | solver.js:211-225 | one iteration of the queue loop keeps the search invariant: soundness, FIFO distance order, closure and the start mark |
| Unreachable.BfsComplete | solver.js:209-226 | when the queue is empty, every cell reachable within the budget is marked |
| Unreachable.SearchSound | solver.js:209-226 | from any state meeting the invariant, the search marks exactly the cells reachable within the budget |
| Unreachable.SearchReaches | solver.js:209-226 | the search from a cell marks exactly the cells reachable from it within its distance |
| Unreachable.Successor | solver.js:211-225 | each iteration shrinks the pair (unmarked cells, queued entries of marked cells), so the loop terminates |
| Unreachable.Expand | solver.js:220-224 | the entries queued are the neighbours neither stamped with this id nor BLACK, each with one less distance |
| Unreachable.Fresh | solver.js:221 | a neighbour is queueable exactly when it is not stamped with this id and is not BLACK |
| Unreachable.Stamp | solver.js:214 | stamping marks one cell with the id and changes no other entry |
| Unreachable.Visit | solver.js:212-225 | one iteration stamps the head's cell, queues its open unstamped neighbours unless its distance is 0, and leaves the search's outcome unchanged |
| Unreachable.Flood | solver.js:209-226 | the search stamps with its id exactly the cells reachable within dist steps, and every other entry keeps its value |
| Unreachable.FloodFrom | solver.js:232 | one search adds exactly the cells reachable from its cell within dist to the touched set, and leaves every entry below the next id |
| Unreachable.FloodIsland | solver.js:230-234 | the searches from one island's cells add exactly the cells some cell reaches within the island's budget to the touched set |
| Unreachable.IslandsReachMember | solver.js:229-235 | a cell is in the accumulated reach set exactly when some cell of some island reaches it within that island's budget |
| Unreachable.Untouched | solver.js:237-241 | BLACK is emitted exactly for the WHITE cells no search stamped |
| Unreachable.CoverUnreachables | solver.js:206-244 | an update is emitted exactly when it is BLACK on a WHITE cell that no cell of any island reaches within its island's remaining budget |
| BetweenIslands.Between | solver.js:251-259 | the cells between two cells at distance 2 are exactly the cells adjacent to both |
| BetweenIslands.BetweenInGrid | solver.js:251-259 | the cells between two grid cells lie in the grid |
| BetweenIslands.CellPair | solver.js:271-279 | for two cells at distance 2, BLACK is emitted on exactly the between cells not already BLACK |
| BetweenIslands.IslandPair | solver.js:269-280 | the hits of every cell of one island against every cell of the other |
| BetweenIslands.PairsFrom | solver.js:265-282 | the inner loop over y > x adds the hits of the pairs (x, y), so the updates are exactly those of all pairs before (x, n) in lexicographic order |
| BetweenIslands.CoverBetweenIslands | solver.js:246-285 | an update is emitted exactly when it is BLACK on a non-BLACK cell between cells of two different islands at distance 2 |
| BetweenIslands.BetweenTargetsWhite | solver.js:246-285 | on an extraction every cell this rule blackens reads WHITE, since a DOT cell there would belong to both islands |
| BetweenIslands.DistanceTwo | solver.js:247-249 | the distance is symmetric, and it is 2 exactly for two cells two apart in a row or column or diagonal neighbours |
| Fixpoint.AppliedLast | solver.js:340-342 | after in-order writing, a cell holds the value of the last update targeting it |
| Fixpoint.AppliedCell | solver.js:340-342 | an untargeted cell keeps its value, and when every update targeting a cell is non-WHITE the cell ends non-WHITE |
| Fixpoint.AppliedConcat | solver.js:327-342 | writing one list and then another equals writing the second over what the first left |
| Fixpoint.AppliedAgreed | solver.js:340-342 | when every update targeting a cell writes the same value and one exists, the cell ends with that value |
| Fixpoint.Write | solver.js:341 | one write changes the targeted cell to the update's value and no other cell |
| Fixpoint.ApplyUpdates | solver.js:340-342 | every cell ends with its last writer's value and other cells keep theirs |
| Fixpoint.FiresTargetsWhite | solver.js:326-331 | every update any rule emits on an extraction targets a WHITE in-grid cell with BLACK or DOT (a WHITE cell is never a clue) |
| Fixpoint.Pass | solver.js:324-332 | one pass returns an extraction and its updates: the six rule outputs concatenated in the source's order, which are exactly the updates some rule fires |
| Fixpoint.PassSections | solver.js:326-332 | the concatenated rule outputs split at their running lengths into the six rule sections |
| Fixpoint.SectionsFire | solver.js:326-332 | updates in rule order are exactly the updates some rule fires |
| Fixpoint.BetweenWins | solver.js:326-342 | a cell the separation rule targets ends BLACK, whatever an earlier rule of the same pass proposed for it |
| Fixpoint.LaterListWins | solver.js:340-342 | a cell a later list targets, always with the same value, ends with that value whatever an earlier list wrote |
| Fixpoint.PassDecides | solver.js:326-342 | every update of a pass decides a cell that is WHITE and no clue on the board it was computed on |
| Fixpoint.PassWritable | solver.js:333-342 | every update of a pass may be written and replaces a WHITE cell by a non-WHITE value |
| Fixpoint.Step | solver.js:323-343 | the returned updates are the rule outputs on the old board in rule order, each deciding a WHITE cell, and the new board is them written in order over the old one; an empty pass leaves a quiescent extraction; a non-empty one shows the board was not converged and strictly shrinks the WHITE cells |
| Fixpoint.Commit | solver.js:340-342 | writing a non-empty pass leaves every cell with its last writer's value, strictly shrinks the set of WHITE cells and changes no decided cell |
| Fixpoint.NotConverged | solver.js:333-335 | a board on which some rule fires is not at the fixpoint |
| Fixpoint.TraceExtend | solver.js:323-343 | a trace grows by a non-empty pass that decides cells of its last board |
| Fixpoint.TraceKeepsDecided | solver.js:323-343 | along a trace a cell decided on the first board (a clue, or not WHITE) keeps its value to every later board |
| Fixpoint.ApplyStrategies | solver.js:321-348 | the loop terminates on an extraction where no rule fires; its trace runs from the entry board to the final one, each pass writing in order updates that decide WHITE cells of the board before it; it changes only cells that were WHITE on entry, and leaves a converged board unchanged with an empty trace |
| Fixpoint.SettledExits | solver.js:156-168 | at the fixpoint no stream and no island short of its size has exactly one exit |
| Fixpoint.SettledIslandsSealed | solver.js:170-181 | at the fixpoint a complete island has no exit |
| Fixpoint.SettledNoCorner | solver.js:183-204 | at the fixpoint no 2-by-2 block has three BLACK cells and one WHITE |
| Fixpoint.SettledReachable | solver.js:206-244 | at the fixpoint every WHITE cell is reachable from some island within its budget |
| Fixpoint.SettledSeparated | solver.js:246-285 | at the fixpoint every cell between two islands' cells at distance 2 reads BLACK |
| Solver.SeedIsland | solver.js:351-355 | every neighbour of the clue cell becomes BLACK and nothing else changes |
| Solver.Seed | solver.js:350-356 | a cell ends BLACK exactly when it neighbours the root of a clue-1 island; all others keep their values |
| Solver.WallsAroundOnes | solver.js:350-356 | every neighbour of a clue-1 island's clue cell is among the seeding's walls |
| Solver.Prepare | solver.js:350-356 | the first extraction (solver.js:154) is taken on the starting board, and the seeded board is it with BLACK on exactly the seed targets |
| Solver.Settle | solver.js:321-348 | the fixpoint loop keeps every wall BLACK, returns the loop's trace, changes no cell decided on entry, and leaves a converged board unchanged with an empty trace |
| Solver.Solve | solver.js:350-358 | one extraction (solver.js:154), then seeding, then the loop: the trace starts at the seeded board and ends at the final one, every cell decided on the seeded board keeps its value, and the run ends on an extraction where no rule fires, with every seeded wall still BLACK |

## Left out

- The DOM code is not modelled: the board element, `ColorCell`, `ColorStreams` and the drawing calls (solver.js:8-9, 288-318, 345-347). It is presentation only.
- The console log of each pass (solver.js:338) and the click listener that reruns the loop (solver.js:360-362) are not modelled. They are I/O.
- The shared globals `board`, `size` and `task` (solver.js:3-5) are not modelled as globals. They come in as the fields of `Board.Puzzle`; the game object supplying them is not part of this model.
- Solver.Seed: requires that no clue touches the clue cell of a clue-1 island. The source would store BLACK over such a neighbouring clue, which the board invariant (no clue cell stored BLACK) excludes. A well-posed puzzle never has two adjacent clues.
- Solver.Solve: requires that no clue touches a clue-1 cell. This is the condition Seed needs, stated over the clue grid.
- Fixpoint.ApplyStrategies: the trace states each pass's updates as a list that decides WHITE cells of the board before it; that they are exactly the rules' output on that board is stated one pass at a time, by `Fixpoint.Step`, because the rule predicates read the live board rather than a stored copy.
- Solver.Settle: has the same trace gap as `Fixpoint.ApplyStrategies`: the passes of its trace are not stated to be the rules' output on the board before each pass.
- Solver.Solve: has the same trace gap, so a run that decided every WHITE cell in one arbitrary pass would meet its contract as well. It also does not state the converged-board clause, because its entry board is the seeded one, which has no name in the method's old state.
- Fixpoint.ApplyStrategies: idempotence is stated only as "a converged board is left unchanged". Rerunning `Solver.Solve` on its own output reseeds from a fresh extraction, and that rerun is not proved to be a no-op.
- The bound of size*size passes is not stated as a count. It follows from the loop's measure, the set of WHITE cells, which loses at least one cell per non-empty pass.
- Malformed input is not rejected: a non-square grid, an island with no clue or with two clues. The source does not validate either. The board invariant `Board.Puzzle.Valid` is a precondition instead.
- Concrete example boards are not restated as lemmas. The general rule contracts cover them.
- The source spells the reachability rule `CoverUnreacables`; here it is `Unreachable.CoverUnreachables`.
