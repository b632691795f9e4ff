# Hoppers: a verified model of the breadth-first puzzle solver

The repository solves three puzzles with one generic breadth-first solver:

- **Clock**: turn a clock hand one hour at a time until it reaches the goal hour.
- **Strings**: change one letter of a word one alphabet step at a time until it is the goal word.
- **Hoppers**: frogs on a board jump over green frogs, and the jumped-over frog leaves the board. The goal is a board with no green frog left.

Each puzzle is a `Configuration`: it has a goal test (`isSolution`), a list of successor configurations (`getNeighbors`), and `equals`/`hashCode`. The `Solver` runs a breadth-first search from a start configuration. Its predecessor `HashMap` doubles as the visited set. It counts every configuration generated and reads the path to the solution back out of the predecessor map. The interactive `HoppersModel` keeps the board on display and a list of clicked cells. It offers a two-click jump, a solve and a hint that plays one move of a shortest solution.

The model is organised as follows:

- `common.dfy` (module `Common`): the nullable value as `Option`, board coordinates, Java's 32-bit `int`, and `Map.get`.
- `clock.dfy`, `strings.dfy`, `hoppers.dfy`: one module per puzzle configuration.
  - Each configuration is an immutable datatype.
  - Each source loop is a method proved equal to a specification function.
  - The private constructors are functions and methods that build the successor configuration.
- `configuration.dfy` (module `Configuration`): the `Configuration` interface. Its only three implementations are the three puzzles, so it is a closed union with one case per puzzle. `Neighbors` is the set of configurations `getNeighbors` lists.
  - `Space` is a finite set of configurations closed under moves: every hand position, every word of the same length, or every board reachable by jumps. It bounds the search, which in the source simply runs until the queue is empty.
- `search_tree.dfy` and `search.dfy` (modules `SearchTree` and `Search`): the breadth-first search invariant, stated for any configuration type and neighbour function. The ghost state is each key's level and the order in which the keys were enqueued.
  - Every key's level is its least number of moves from the start.
  - The first solution dequeued is a nearest one.
  - An exhausted queue means that no reachable configuration is a solution.
- `solver.dfy` (module `Solver`): the search loop of the `Solver` constructor, the `constructPath` loop, and class `Solver` with the three query methods.
- `hoppers_model.dfy` (module `HoppersModel`): class `HoppersModel` with `select`, `solve` and `hint`. The texts the source sends to its observers become `Message` values returned to the caller.

## Model

| member | source | states |
|---|---|---|
| Clock.NeighborsShape | project2-2-hoppers-luo/src/puzzles/clock/ClockConfig.java:54-69 | Exactly two neighbours. Each keeps the clock size and the goal. The hand moves to the values of the source's three branches: 1 goes to `hours` and 2, `hours` goes to `hours - 1` and 1, and any other value goes one back and one forward with 32-bit wrap-around. |
| Clock.NeighborsAreCyclic | project2-2-hoppers-luo/src/puzzles/clock/ClockConfig.java:54-69 | On a clock of at least two hours with the hand on the face, the neighbours are the cyclic predecessor and successor of the hand, so the hand never leaves the face. |
| Clock.SolutionIsGoal | project2-2-hoppers-luo/src/puzzles/clock/ClockConfig.java:45-47 | Solved exactly when the configuration `equals` the goal clock `(hours, end, end)`. |
| Clock.EqualsConsistent | project2-2-hoppers-luo/src/puzzles/clock/ClockConfig.java:77-91 | For clocks that share size and goal, `equals` is structural equality, and equal clocks have equal `hashCode`. |
| Clock.SpaceClosed | project2-2-hoppers-luo/src/puzzles/clock/ClockConfig.java:34-38 | The copy constructor keeps size and goal, so all clocks with the same size and goal form a finite set closed under moves. |
| Strings.ReplaceAt | project2-2-hoppers-luo/src/puzzles/strings/StringsConfig.java:34-40 | The private constructor yields the word with character `ch` at index `i` and the same goal. |
| Strings.GetNeighbors | project2-2-hoppers-luo/src/puzzles/strings/StringsConfig.java:57-75 | The loop returns exactly the specification list `Neighbors`: two replacements per index, in index order. |
| Strings.AlternativesDiffer | project2-2-hoppers-luo/src/puzzles/strings/StringsConfig.java:62-72 | Both replacement characters differ from the character they replace, including under 16-bit `char` wrap-around. |
| Strings.NeighborsUpToAt | project2-2-hoppers-luo/src/puzzles/strings/StringsConfig.java:61-73 | Positions `2i` and `2i+1` of the list hold the first and second replacement at index `i`. |
| Strings.NeighborsCount | project2-2-hoppers-luo/src/puzzles/strings/StringsConfig.java:57-75 | A word of length `n` has exactly `2n` neighbours. |
| Strings.NeighborDiffersAtOneIndex | project2-2-hoppers-luo/src/puzzles/strings/StringsConfig.java:57-75 | Neighbour `k` keeps the length and the goal. It differs from the word exactly at index `k / 2`, where it holds the replacement the branch chooses, so no word is its own neighbour. |
| Strings.NeighborsStayLetters | project2-2-hoppers-luo/src/puzzles/strings/StringsConfig.java:62-67 | The 'A' to 'Z' and 'Z' to 'A' wrap keeps an upper-case word upper-case. |
| Strings.SolutionIsGoal | project2-2-hoppers-luo/src/puzzles/strings/StringsConfig.java:47-49 | Solved exactly when the configuration `equals` the goal configuration `(end, end)`. |
| Strings.EqualsConsistent | project2-2-hoppers-luo/src/puzzles/strings/StringsConfig.java:83-97 | For words sharing the goal, `equals` is structural equality, and equal words have equal `hashCode` for any `String.hashCode`. |
| Strings.SpaceClosed | project2-2-hoppers-luo/src/puzzles/strings/StringsConfig.java:57-75 | All words of one length with one goal form a finite set closed under moves. |
| Hoppers.FrogsExact | project2-2-hoppers-luo/src/puzzles/hoppers/model/HoppersConfig.java:76-83 | The frog list built by the row-major scan holds exactly the 'R' and 'G' cells, in strictly increasing row-major order. |
| Hoppers.ScanFrogs | project2-2-hoppers-luo/src/puzzles/hoppers/model/HoppersConfig.java:76-83 | The nested scan returns the specification frog list `Frogs` of the board. |
| Hoppers.InsideBounds | project2-2-hoppers-luo/src/puzzles/hoppers/model/HoppersConfig.java:115-120 | True exactly when `0 <= row < rows` and `0 <= column < columns`. |
| Hoppers.InsideOnGrid | project2-2-hoppers-luo/src/puzzles/hoppers/model/HoppersConfig.java:115-120 | On a well-formed board, `insideBounds` is exactly "the cell exists", so the board reads it guards are safe. |
| Hoppers.BuildMoves | project2-2-hoppers-luo/src/puzzles/hoppers/model/HoppersConfig.java:127-140 | The eight `put`s build the jump table `MakeMove`. |
| Hoppers.MakeMoveTable | project2-2-hoppers-luo/src/puzzles/hoppers/model/HoppersConfig.java:127-140 | The table has eight distinct landing cells, one per offset (four diagonal at distance 2, four straight at distance 4). The cell jumped over is always the exact midpoint. |
| Hoppers.MidpointInside | project2-2-hoppers-luo/src/puzzles/hoppers/model/HoppersConfig.java:236-237 | When the frog and its landing cell are on the board, so is the jumped-over cell, so `greenFrog(coordinates.get(coord))` never reads off the board. |
| Hoppers.ValidJump | project2-2-hoppers-luo/src/puzzles/hoppers/model/HoppersConfig.java:104-109 | As written, `validJump` throws exactly when `jumped` is non-null and on the board but `move` is off the board. |
| Hoppers.ValidJumpAgrees | project2-2-hoppers-luo/src/puzzles/hoppers/model/HoppersConfig.java:104-109 | Whenever the as-written `validJump` returns, it returns the corrected verdict `LegalJump`. |
| Hoppers.ValidJumpThrowsOffEdge | project2-2-hoppers-luo/src/puzzles/hoppers/model/HoppersConfig.java:104-109 | A concrete well-formed one-row board on which `validJump` reads past the end of the row, while the corrected check says no. |
| Hoppers.LegalJumpIsCanJump | project2-2-hoppers-luo/src/puzzles/hoppers/model/HoppersConfig.java:104-109 | For a landing cell and the midpoint `makeMove` gives for it, the corrected `validJump` is exactly the test `getNeighbors` applies at line 237. |
| Hoppers.JumpEffect | project2-2-hoppers-luo/src/puzzles/hoppers/model/HoppersConfig.java:65-84 | The private constructor keeps the dimensions and a well-formed frog list. The jumped-over cell and the origin become empty, the landing cell holds the mover's symbol, and no other cell changes. |
| Hoppers.MakeJump | project2-2-hoppers-luo/src/puzzles/hoppers/model/HoppersConfig.java:65-96 | `makeJump` copies the board, writes the three cells in the source's order and rescans the frogs. The result is the specification state `Jump`. |
| Hoppers.JumpCounts | project2-2-hoppers-luo/src/puzzles/hoppers/model/HoppersConfig.java:73-75 | A legal jump of a frog removes exactly one green frog and no red frog. |
| Hoppers.SolvedIffNoGreens | project2-2-hoppers-luo/src/puzzles/hoppers/model/HoppersConfig.java:214-223 | The goal "no cell holds 'G'" is exactly a green count of zero. |
| Hoppers.IsSolution | project2-2-hoppers-luo/src/puzzles/hoppers/model/HoppersConfig.java:214-223 | The scan with early return answers true exactly when no cell holds a green frog. |
| Hoppers.FrogNeighbors | project2-2-hoppers-luo/src/puzzles/hoppers/model/HoppersConfig.java:233-240 | For one frog, the loop over the jump table lists one state per legal landing cell and no other. The states listed are exactly the frog's jumps, and there are exactly as many as legal landing cells. |
| Hoppers.GetNeighbors | project2-2-hoppers-luo/src/puzzles/hoppers/model/HoppersConfig.java:230-243 | The listed states are exactly `Neighbors` (every legal jump of every listed frog), and the list length is the number of (frog, legal landing cell) pairs. |
| Hoppers.NeighborsSound | project2-2-hoppers-luo/src/puzzles/hoppers/model/HoppersConfig.java:230-243 | Every neighbour comes from a legal jump of a listed frog. Each is well formed with the same dimensions, has one green frog fewer and has as many red frogs. |
| Hoppers.NeighborsComplete | project2-2-hoppers-luo/src/puzzles/hoppers/model/HoppersConfig.java:230-243 | Every legal jump of every listed frog is a neighbour. |
| Hoppers.SelectedJumpIsNeighbor | project2-2-hoppers-luo/src/puzzles/hoppers/model/HoppersConfig.java:94-109 | A jump of a frog to a landing cell that passes the corrected `validJump` is one of the moves `getNeighbors` offers. |
| Hoppers.EqualsIsEquality | project2-2-hoppers-luo/src/puzzles/hoppers/model/HoppersConfig.java:202-207 | For well-formed boards of equal width, `equals` (deep board equality) is structural equality, since the frog list is derived from the board. |
| Hoppers.HashCode | project2-2-hoppers-luo/src/puzzles/hoppers/model/HoppersConfig.java:188-194 | The loop returns the 32-bit wrapping sum of the frogs' coordinate hash codes. |
| Hoppers.HashConsistent | project2-2-hoppers-luo/src/puzzles/hoppers/model/HoppersConfig.java:188-207 | Boards that are `equals` have equal `hashCode`. |
| Hoppers.ReachClosed | project2-2-hoppers-luo/src/puzzles/hoppers/model/HoppersConfig.java:230-243 | The boards reachable by jumps form a finite set (each jump removes a green frog) of well-formed boards of the same dimensions, closed under moves. |
| Configuration.GetNeighbors | project2-2-hoppers-luo/src/puzzles/common/solver/Solver.java:30 | The dispatch of `getNeighbors` lists exactly the configuration's neighbours, and the list length is the puzzle's neighbour count. |
| Configuration.CheckSolution | project2-2-hoppers-luo/src/puzzles/common/solver/Solver.java:25 | The dispatch of `isSolution` answers the puzzle's goal test. |
| Configuration.SpaceClosed | project2-2-hoppers-luo/src/puzzles/common/solver/Solver.java:22-38 | Every start lies in a finite set of well-formed configurations closed under moves, so the search terminates. |
| Configuration.SpaceEqualityIsIdentity | project2-2-hoppers-luo/src/puzzles/common/solver/Solver.java:33-34 | Within one search space, Java `equals` is value equality, and `equals` configurations have equal `hashCode`, for any `String.hashCode` and `Coordinates.hashCode`. So a map keyed by value models the predecessor `HashMap`. |
| SearchTree.ChainIsPath | project2-2-hoppers-luo/src/puzzles/common/solver/Solver.java:33-34 | Following predecessor links from any key reaches the start. The chain is a walk of `depth[x]` moves, each entry the predecessor of the next. |
| SearchTree.CoreExtend | project2-2-hoppers-luo/src/puzzles/common/solver/Solver.java:33-35 | Inserting an unvisited neighbour with the current configuration as predecessor, and enqueueing it, keeps the tree rooted, the key list in enqueue order without repetition, and levels non-decreasing. |
| SearchTree.OrderFits | project2-2-hoppers-luo/src/puzzles/common/solver/Solver.java:80 | There are as many keys as configurations ever enqueued, and no more than the search space holds. |
| SearchTree.EnqueuedOnce | project2-2-hoppers-luo/src/puzzles/common/solver/Solver.java:33-35 | No configuration is enqueued twice. |
| Search.FrontierInit | project2-2-hoppers-luo/src/puzzles/common/solver/Solver.java:18-20 | The queue holding only the start, mapped to itself, satisfies the search invariant. |
| Search.ExpandAll | project2-2-hoppers-luo/src/puzzles/common/solver/Solver.java:30-37 | The neighbour loop counts every listed neighbour. The old queue stays in front, and the old predecessor links are kept. The entries appended behind the queue are exactly the neighbours that were no key, each linked to the dequeued configuration. Afterwards every neighbour of the dequeued configuration is a key at most one level below it. |
| Search.KeysAtShortestDistance | project2-2-hoppers-luo/src/puzzles/common/solver/Solver.java:17-39 | No walk from the start reaches a key in fewer moves than the key's level. |
| Search.ExhaustedSearch | project2-2-hoppers-luo/src/puzzles/common/solver/Solver.java:22 | When the queue runs empty, every configuration reachable from the start is a key and none is a solution. |
| Search.NearestSolution | project2-2-hoppers-luo/src/puzzles/common/solver/Solver.java:25-28 | The first solution dequeued is a nearest one: no walk reaches a solution in fewer moves than its level. |
| Search.ShortestSolutionPath | project2-2-hoppers-luo/src/puzzles/common/solver/Solver.java:25-28 | The predecessor chain to the dequeued solution is a walk from the start to it, as short as any walk from the start to any solution. |
| Solver.Expand | project2-2-hoppers-luo/src/puzzles/common/solver/Solver.java:29-37 | Expanding a dequeued non-solution keeps the search invariant and adds its neighbour count to `total`. The old queue stays in front and old links are kept. Exactly the unvisited neighbours are appended, each linked to it. |
| Solver.Step | project2-2-hoppers-luo/src/puzzles/common/solver/Solver.java:24-37 | One iteration tests the front of the queue. A solution stops the search with every field as it was. Otherwise the front is dequeued and its unvisited neighbours, linked to it, are enqueued behind the rest of the queue. Old links are kept, its neighbour count is added to `total`, and the invariant holds. |
| Solver.BreadthFirst | project2-2-hoppers-luo/src/puzzles/common/solver/Solver.java:17-39 | The constructor's search ends with the search invariant and either a dequeued solution or an empty queue. `total` is one plus the neighbour counts of all expanded configurations. |
| Solver.SearchedChain | project2-2-hoppers-luo/src/puzzles/common/solver/Solver.java:55-66 | After the search, the chain to any key is a walk from the start through the search space, one entry per level. |
| Solver.TracePath | project2-2-hoppers-luo/src/puzzles/common/solver/Solver.java:56-65 | The loop returns the predecessor chain to `endNode` from `startNode` on, or the empty list when `endNode` is null or not a key. |
| Solver.Solver.constructor | project2-2-hoppers-luo/src/puzzles/common/solver/Solver.java:17-39 | The new solver holds the outcome of the search from `start`. |
| Solver.Solver.GetSolution | project2-2-hoppers-luo/src/puzzles/common/solver/Solver.java:45-47 | The result is a solution at the least number of moves of all reachable solutions, or null exactly when no reachable configuration is a solution. |
| Solver.Solver.GetTotal | project2-2-hoppers-luo/src/puzzles/common/solver/Solver.java:72-74 | Never below the number of distinct configurations. |
| Solver.Solver.GetUnique | project2-2-hoppers-luo/src/puzzles/common/solver/Solver.java:80 | The number of configurations ever enqueued, at most `total`. |
| Solver.Solver.ConstructPath | project2-2-hoppers-luo/src/puzzles/common/solver/Solver.java:55-66 | The path from `startNode` to `endNode` along predecessor links, or empty when `endNode` is null or unvisited. |
| HoppersModel.HoppersModel.constructor | project2-2-hoppers-luo/src/puzzles/hoppers/model/HoppersModel.java:193-196 | The model shows the given board with nothing selected. |
| HoppersModel.HoppersModel.Select | project2-2-hoppers-luo/src/puzzles/hoppers/model/HoppersModel.java:85-120 | Every case of `select` with its message and new state. An off-board first cell throws and leaves the click recorded. A second cell jumps exactly when the jump is legal, and clears the selection either way. A first cell stays selected only on a frog. The board changes exactly on a jump, and a frog's jump is a solver move that costs one green frog. |
| HoppersModel.HoppersModel.Solve | project2-2-hoppers-luo/src/puzzles/hoppers/model/HoppersModel.java:183-186 | The path is empty exactly when no sequence of moves from the board reaches a solution. Otherwise it is a shortest such sequence, starting at the board. |
| HoppersModel.HoppersModel.Hint | project2-2-hoppers-luo/src/puzzles/hoppers/model/HoppersModel.java:138-157 | "No Solution!" exactly when no solution is reachable, and "Already solved!" exactly when the board has no green frog; both leave the board. "Next Step!" moves the board to a neighbour from which a solution is strictly closer than from the old board. The selection is left as it was. |
| HoppersModel.SolvedPath | project2-2-hoppers-luo/src/puzzles/hoppers/model/HoppersModel.java:183-186 | The chain to the solution found is a shortest solution walk from the start, and an empty path means that no walk reaches a solution. |
| HoppersModel.JumpChanges | project2-2-hoppers-luo/src/puzzles/hoppers/model/HoppersModel.java:95-97 | A legal jump gives a well-formed board of the same dimensions that differs from the old one. For a frog, it is a neighbour with one green frog fewer. |
| HoppersModel.NextOnPath | project2-2-hoppers-luo/src/puzzles/hoppers/model/HoppersModel.java:144-147 | The second entry of a shortest solution path is a neighbouring board, and the rest of the path is a strictly shorter solution walk from it. |

## Left out

- The file-reading constructor of `HoppersConfig` (HoppersConfig.java:31-55) and `HoppersModel`'s `load`, `reset` and file constructor are file I/O.
  - A board is given as a value instead.
  - `Hoppers.Valid` states what a well-formed file yields: a rectangular grid and the frog list in row-major order.
- The observers and `alertObservers` are not modelled. Each message is returned as a `Message` value, without its text formatting.
- Not modelled: `toString`, the getters (`getRow`, `getColumn`, `getBoard`, `getCurrentFile`), the drivers `Clock.java`, `Strings.java` and `Hoppers.java`, the GUI and the PTUI.
- Concrete hash values are not modelled. `Coordinates.hashCode` and `String.hashCode` are parameters.
  - The predecessor `HashMap` is a map keyed by value.
  - That needs `equals` and `hashCode` to agree on one search space, which `Configuration.SpaceEqualityIsIdentity`, `Clock.EqualsConsistent`, `Strings.EqualsConsistent` and `Hoppers.HashConsistent` state.
- `puzzles.common.Coordinates` and the `Configuration` interface file are not part of this model. Coordinates are the `Coord` datatype, and the interface is the closed union of its three implementations.
- The solver's search runs over local variables in `Solver.BreadthFirst`, and the constructor stores the outcome in the fields. The `LinkedList` queue is a sequence.
- Hoppers.FrogNeighbors: the order in which `HashMap.keySet` yields the landing cells is unspecified. The contract states the set of states listed and their number, not their order.
- Hoppers.GetNeighbors: the contract states the listed set and the list length, not the order within one frog's jumps, for the same reason.
- Solver.Solver.GetTotal: `total` is an unbounded count. Java `int` overflow after 2^31 generated configurations is not modelled.
- Solver.Solver.ConstructPath: the source's loop stops on reference identity (`currNode != startNode`). The model stops on value equality and requires `startNode` to lie on the chain to `endNode`. This changes the result for callers in three cases:
  - A `startNode` off the chain makes the source loop forever at the start, which is its own predecessor. The precondition excludes this case.
  - A `startNode` equal to the start but a different object also makes the source loop forever. The model returns the path.
  - An `endNode` built separately and equal to the start (the drivers at Clock.java:22 and Strings.java:21 do this) makes the source return two entries, the start and then `endNode`. The model returns the start alone.
  - `solve` always passes the very object the search started from, where identity and value equality agree.
- HoppersModel.HoppersModel.Select: it follows the corrected `validJump` (see Findings). The as-written method throws for a landing cell off the board whose midpoint is on the board. It then leaves both clicks selected, which the model does not capture.
- HoppersModel.HoppersModel.Select: Java `int` coordinates are unbounded integers. Only the frog's jump is promised to be a solver move.
  - After a hint, the pending selection may name a cell that no longer holds a frog.
  - The source then still "jumps" from that cell, and the model does the same.
- HoppersModel.HoppersModel.Hint: `path.contains` uses `equals`, that is, board equality. It is modelled as value membership, which agrees on boards of one search (`Hoppers.EqualsIsEquality`).

## Findings

| source | as written | input that shows it | evidently intended | confidence | as-written member | corrected member |
|---|---|---|---|---|---|---|
| project2-2-hoppers-luo/src/puzzles/hoppers/model/HoppersConfig.java:104-109 | `validJump` checks only that `jumped` is on the board, then calls `emptySpace(move)`, which indexes the board at `move` without a bounds check | the one-row board `R . G`: select (0, 0) and then (0, 4). The midpoint (0, 2) is on the board and (0, 4) is not, so the board read throws. The throw skips `removeAll` (HoppersModel.java:102, 107), so both clicks stay in `selected`. While the first cell holds a frog, every later click grows the list, and the size-2 jump branch is never reached again | a landing cell off the board is simply not a valid jump, as in the `insideBounds(coord)` test of `getNeighbors` (line 237) | not executed; high | Hoppers.ValidJump, Hoppers.ValidJumpThrowsOffEdge | Hoppers.LegalJump, Hoppers.LegalJumpIsCanJump |
