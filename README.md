# Pegushi gym environments: a verified model

This project models the two environment families of the `pegushi_gym`
package in Dafny and proves properties of the model.

**The fixed maze environment (`maze.py`).**
- An agent walks through a rectangular maze from a start cell to a goal cell, one action per step.
- A layout is a height-by-width array indexed `[y][x]`.
- Bit 0 of a cell opens the passage east, bit 1 the passage north. South and west are read from the neighbouring cell.
- The model covers:
  - the constructor's argument checks;
  - random layout generation by Kruskal's algorithm, including `renumber_tree`;
  - `reset`, `step` and `teleport`;
  - the move predicates;
  - Dijkstra's shortest-path search and the solution path and length;
  - the ANSI text rendering.
- The random source is a parameter:
  - the edge permutation is given as `order`;
  - the raw integer draws behind the goal and start choices are given as `draws`.

**The generic grid world (`grid/generic`).**
- **`core.py` and `grids.py`:** outcomes, thing types, the four directions, and a grid of cells with one boundary cell outside it.
- **`cells.py`:** cells keep an inventory plus an agent slot, a portable-object slot and a movable-object slot. A cell asks the things it holds in turn (a chain of responsibility) until one answers DONE.
- **`objects.py`:** objects live in a container, which is a cell or the agent carrying them.
- **`agent.py`:** the agent waits, moves, gets, drops and pushes, chosen by an action number.
- **`environment.py`:** counts steps, ends an episode at a step limit, and keeps one renderer per render mode.

The behaviours objects implement are a parameter of the model, the `Behaviors` record:
- the library's base objects are `GridWorld.Defaults`;
- an application's subclasses are any other value.

The world state an application supplies to the environment is likewise a type parameter. Its answers `execute`, `is_terminal` and `create_renderer` are passed in.

Layout of the Dafny project:

| file | module | models |
|---|---|---|
| wrappers.dfy | Wrappers | Option and Result |
| maze_layout.dfy | MazeLayout | layout encoding, moves, walks and connectivity |
| maze_render.dfy | MazeRender | `_render_ansi` and a reference description of the picture |
| maze_kruskal.dfy | MazeKruskal | `_generate_random_maze_kruskal` on arrays, with its forest invariant |
| maze_solution.dfy | MazeSolution | the invariants and step lemmas of the Dijkstra search |
| maze_env.dfy | Maze | the class `FixedMaze` (`FixedMazeEnvironment`) |
| grid_core.dfy | GridCore | `core.py` |
| grid_grids.dfy | Grids | `grids.py` |
| grid_chain.dfy | GridChain | the reward-threading chain behind `_call_objects` |
| grid_behaviors.dfy | GridBehaviors | the agent's action table |
| grid_world.dfy | GridWorld | `objects.py`, `cells.py` and `agent.py` as classes `Object`, `Cell`, `Agent` |
| grid_environment.dfy | GridEnvironment | `environment.py` as class `GridEnvironment` |

Where the code is broken (undefined names, misspellings, a malformed generator, a truncated method), the model does what the code evidently means. A comment at the member says so.

The grid library as written cannot run. Among other things:
- its modules import from `pegushi_gum`;
- `cells.py` keys its handler table with the undefined `ThingType`;
- `agent.py` asserts on the undefined `Agent._BEHAVIOR_NAMES`.

## Model

Paths are relative to the repository root.

| member | source | states |
|---|---|---|
| MazeLayout.NextStatesAreMoves | src/python/packages/pegushi_gym/envs/maze.py:343-353 | the successors the search uses are exactly the targets of the legal actions 0..3 of `step` |
| MazeLayout.MovesStayInBounds | src/python/packages/pegushi_gym/envs/maze.py:381-391 | in a layout with no passage off the grid, every legal move stays on the grid |
| MazeLayout.MovesAreReversible | src/python/packages/pegushi_gym/envs/maze.py:381-391 | a passage is two-way: a legal move is undone by the opposite action, which is also legal |
| MazeLayout.NextStatesSymmetric | src/python/packages/pegushi_gym/envs/maze.py:343-353 | q is a successor of p exactly when p is a successor of q |
| MazeLayout.ReversedWalk | src/python/packages/pegushi_gym/envs/maze.py:328-336 | a walk read backwards is a walk; this is how the reversed predecessor chain becomes a path |
| MazeLayout.ConcatWalk | src/python/packages/pegushi_gym/envs/maze.py:343-353 | walks sharing an end join into a walk between the outer ends |
| MazeLayout.ConnectedReflexive | src/python/packages/pegushi_gym/envs/maze.py:343-353 | every cell of the grid reaches itself |
| MazeLayout.NextStatesAtDistanceOne | src/python/packages/pegushi_gym/envs/maze.py:343-353 | every successor of a cell is one unit move away from it |
| MazeLayout.WalkCoversDistance | src/python/packages/pegushi_gym/envs/maze.py:343-353 | a walk has at least as many moves as the unit-move distance between its ends |
| MazeLayout.WalkDistances | src/python/packages/pegushi_gym/envs/maze.py:343-353 | the part of a walk up to its i-th cell has at least i moves' worth of distance, and so has the part after it |
| MazeLayout.StepByStepIsWalk | src/python/packages/pegushi_gym/envs/maze.py:343-353 | a sequence checked move by move from its first cell is a walk |
| MazeLayout.ConnectedSymmetric | src/python/packages/pegushi_gym/envs/maze.py:343-353 | reachability is symmetric |
| MazeLayout.ConnectedTransitive | src/python/packages/pegushi_gym/envs/maze.py:343-353 | reachability is transitive |
| MazeLayout.WidenedWalk | src/python/packages/pegushi_gym/envs/maze.py:499 | opening more passages keeps every walk |
| MazeLayout.WidenedConnected | src/python/packages/pegushi_gym/envs/maze.py:499 | opening more passages keeps every connection |
| MazeRender.RenderMatchesPicture | src/python/packages/pegushi_gym/envs/maze.py:408-427 | the text `_render_ansi` joins equals the picture described cell by cell: north walls, cell contents, east walls, left and bottom borders, rows from the top down (an empty maze gets a leading line break) |
| MazeRender.LinesShape | src/python/packages/pegushi_gym/envs/maze.py:417-427 | every line of the picture has 2*width+1 characters, no line break, and starts with the border '*' |
| MazeRender.ContentGlyphs | src/python/packages/pegushi_gym/envs/maze.py:273-276 | a cell shows '#' for the agent only, '$' for the goal only, '!' for both, ' ' otherwise |
| MazeRender.UpperRowChars | src/python/packages/pegushi_gym/envs/maze.py:419 | the north-wall row built from `_walls2` is the matching line of the picture |
| MazeRender.LowerRowChars | src/python/packages/pegushi_gym/envs/maze.py:409-422 | the content row built from `_walls1` and `wall1_index` is the matching line of the picture |
| MazeRender.BottomRowChars | src/python/packages/pegushi_gym/envs/maze.py:426 | the last row is a border of 2*width+1 stars |
| MazeRender.BlockIsTwoLines | src/python/packages/pegushi_gym/envs/maze.py:417-423 | each `walls(y)` block is two consecutive lines of the picture |
| MazeRender.RowsFrom | src/python/packages/pegushi_gym/envs/maze.py:425-427 | the blocks from row k on, joined by line breaks, are lines 2k onwards of the picture |
| MazeRender.SampleRendering | src/python/tests/pegushi_gym/envs/maze_tests.py:225-233 | the three-by-four test maze with the agent at (0,0) and the goal at (3,2) renders as the seven lines the test expects |
| MazeKruskal.PosOfCell | src/python/packages/pegushi_gym/envs/maze.py:486 | cell number y*width+x decodes back to (x, y) |
| MazeKruskal.DecodeEdgeValid | src/python/packages/pegushi_gym/envs/maze.py:478-493 | every edge number below 2wh-w-h decodes to a passage inside the maze and encodes back to itself |
| MazeKruskal.EncodeEdgeValid | src/python/packages/pegushi_gym/envs/maze.py:478-493 | every passage inside the maze has an edge number in range that decodes to it |
| MazeKruskal.DecodeEdgeInjective | src/python/packages/pegushi_gym/envs/maze.py:483-493 | distinct edge numbers name distinct passages |
| MazeKruskal.EdgeEnds | src/python/packages/pegushi_gym/envs/maze.py:485-493 | the cells i and j of an edge are a cell and its east (flag 1) or north (flag 2) neighbour |
| MazeKruskal.CellBelowInverse | src/python/packages/pegushi_gym/envs/maze.py:461-464 | every cell number below w*h is a cell of the maze and re-encodes to itself |
| MazeKruskal.SetBitBits | src/python/packages/pegushi_gym/envs/maze.py:499 | `\|= flag` sets exactly the east bit (flag 1) or the north bit (flag 2) and keeps values in 0..3 |
| MazeKruskal.ForestEntry | src/python/packages/pegushi_gym/envs/maze.py:466-473 | each listed cell carries its tree's label, and `next_cell` points to its successor (-1 at the end) |
| MazeKruskal.InListIsLabelled | src/python/packages/pegushi_gym/envs/maze.py:466-473 | a cell is in the list of tree t exactly when it is labelled t |
| MazeKruskal.MergeHeads | src/python/packages/pegushi_gym/envs/maze.py:447-449 | after the splice, `first_cell` heads the merged lists and the old tree's list is empty |
| MazeKruskal.MergeLinks | src/python/packages/pegushi_gym/envs/maze.py:441-447 | after the splice, `next_cell` threads each merged list and all labels agree |
| MazeKruskal.MergeDistinct | src/python/packages/pegushi_gym/envs/maze.py:435-449 | no cell is in two lists after a merge |
| MazeKruskal.MergeCovers | src/python/packages/pegushi_gym/envs/maze.py:435-449 | every cell is still in the list of its tree after a merge |
| MazeKruskal.MergePreservesForest | src/python/packages/pegushi_gym/envs/maze.py:435-449 | relabelling tree `old` into `new` and splicing its list in front keeps the forest well formed |
| MazeKruskal.RenumberTree | src/python/packages/pegushi_gym/envs/maze.py:435-449 | `renumber_tree` on the arrays: labels become `Relabelled`, `first_cell[new]` takes the old head, `first_cell[old]` becomes -1, the old tail links to the former head of `new`, and the forest stays well formed |
| MazeKruskal.OpenedEdge | src/python/packages/pegushi_gym/envs/maze.py:499 | opening a passage opens that passage and changes no other |
| MazeKruskal.OpenedLayout | src/python/packages/pegushi_gym/envs/maze.py:499 | opening an in-maze passage keeps values in range and the border closed, and only widens the layout |
| MazeKruskal.OpenEdgesGrow | src/python/packages/pegushi_gym/envs/maze.py:497-500 | opening a closed passage adds exactly its edge number to the set of open passages |
| MazeKruskal.OpenEdgeConnects | src/python/packages/pegushi_gym/envs/maze.py:485-499 | the two cells an open passage joins are connected |
| MazeKruskal.InitialForest | src/python/packages/pegushi_gym/envs/maze.py:461-473 | the initial arrays make every cell a tree of its own, with a one-cell list |
| MazeKruskal.InitialOpenEdges | src/python/packages/pegushi_gym/envs/maze.py:476 | the zeroed layout opens no passage |
| MazeKruskal.InitialLinked | src/python/packages/pegushi_gym/envs/maze.py:464-476 | at the start every cell reaches the cell its tree is named after (itself) |
| MazeKruskal.InitialInvariant | src/python/packages/pegushi_gym/envs/maze.py:461-481 | before the first edge the loop invariant holds: w*h trees, no open passage |
| MazeKruskal.InitialTrees | src/python/packages/pegushi_gym/envs/maze.py:461-473 | the initial arrays form w*h one-cell trees, each named after its own cell, all of them counted |
| MazeKruskal.InitialLayout | src/python/packages/pegushi_gym/envs/maze.py:476 | the zeroed layout is closed, opens no passage and links every cell to itself |
| MazeKruskal.RelabelKeepsSame | src/python/packages/pegushi_gym/envs/maze.py:441-444 | cells that shared a tree still share one after a relabelling |
| MazeKruskal.MergeOpenJoins | src/python/packages/pegushi_gym/envs/maze.py:495-499 | after a merge, every open passage still joins cells of one tree |
| MazeKruskal.MergeLinked | src/python/packages/pegushi_gym/envs/maze.py:495-499 | after a merge, every cell still reaches, through open passages, the cell its tree is named after |
| MazeKruskal.MergeRoots | src/python/packages/pegushi_gym/envs/maze.py:495-500 | a merge removes exactly the larger tree from the trees in use |
| MazeKruskal.MergeProcessed | src/python/packages/pegushi_gym/envs/maze.py:482-498 | after the merge every edge processed so far joins cells of one tree |
| MazeKruskal.MergeKeepsInvariant | src/python/packages/pegushi_gym/envs/maze.py:495-500 | the merge branch keeps the loop invariant with one tree fewer |
| MazeKruskal.MergeKeepsTrees | src/python/packages/pegushi_gym/envs/maze.py:435-449 | `renumber_tree(max, min)` retires the larger label and keeps the forest, with one tree fewer counted |
| MazeKruskal.MergeKeepsLayout | src/python/packages/pegushi_gym/envs/maze.py:497-499 | opening the passage between two different trees keeps the layout closed, inside the merged tree and connected, with one more open passage |
| MazeKruskal.SkipKeepsInvariant | src/python/packages/pegushi_gym/envs/maze.py:495-497 | an edge inside one tree is skipped and the invariant holds one edge on |
| MazeKruskal.AllEdgesSame | src/python/packages/pegushi_gym/envs/maze.py:451-456 | when every passage joins cells of one tree, all cells carry one label |
| MazeKruskal.RowSame | src/python/packages/pegushi_gym/envs/maze.py:451-456 | east passages carry the label along a row |
| MazeKruskal.ColumnSame | src/python/packages/pegushi_gym/envs/maze.py:451-456 | north passages carry the label up the first column |
| MazeKruskal.SingleTree | src/python/packages/pegushi_gym/envs/maze.py:451-456 | with one label everywhere, every cell reaches every other |
| MazeKruskal.CellReachesLabel | src/python/packages/pegushi_gym/envs/maze.py:451-456 | with one label everywhere, every cell reaches the cell that label names |
| MazeKruskal.OnlyRoot | src/python/packages/pegushi_gym/envs/maze.py:500-502 | with one tree counted, it is the only tree in use |
| MazeKruskal.OneTreeLeft | src/python/packages/pegushi_gym/envs/maze.py:500-502 | at the early exit every cell carries the one remaining label |
| MazeKruskal.AllProcessed | src/python/packages/pegushi_gym/envs/maze.py:481-482 | once the whole permutation is processed, every passage of the maze joins cells of one tree |
| MazeKruskal.FinalInvariant | src/python/packages/pegushi_gym/envs/maze.py:482-504 | at loop exit exactly w*h-1 passages are open and every cell reaches every other: the result is a spanning tree |
| MazeKruskal.OpenPassage | src/python/packages/pegushi_gym/envs/maze.py:499 | `layout[y, x] \|= flag` on the array changes the layout as `Opened` says |
| MazeKruskal.DecodeNeighbor | src/python/packages/pegushi_gym/envs/maze.py:483-493 | the loop body's arithmetic computes the passage `DecodeEdge` names and its two cell numbers |
| MazeKruskal.MergeTrees | src/python/packages/pegushi_gym/envs/maze.py:497-500 | the merge on the arrays keeps the invariant, with one tree fewer and the larger label retired |
| MazeKruskal.ProcessEdge | src/python/packages/pegushi_gym/envs/maze.py:482-500 | one edge of the permutation keeps the invariant. It merges exactly when the labels of its two cells differed, and the tree count then drops by one |
| MazeKruskal.GenerateKruskal | src/python/packages/pegushi_gym/envs/maze.py:434-504 | for any edge permutation, the result is a width-by-height layout with values in 0..3, no passage off the grid, exactly w*h-1 open passages, and every cell reachable from every other |
| MazeKruskal.NewForest | src/python/packages/pegushi_gym/envs/maze.py:464-473 | `tree_for_cell` and `first_cell` start as 0..n-1 and `next_cell` as all -1, in three new arrays |
| MazeKruskal.NewGrid | src/python/packages/pegushi_gym/envs/maze.py:476 | the layout starts as a new height-by-width array of zeros |
| MazeKruskal.RunKruskal | src/python/packages/pegushi_gym/envs/maze.py:482-502 | the loop over the permutation, stopping once one tree is left, ends with a spanning tree: w*h-1 open passages, all cells connected, border closed |
| MazeKruskal.GenerateRandomMaze | src/python/packages/pegushi_gym/envs/maze.py:429-432 | "kruskal" builds a connected maze of the requested size; any other name is an "Unknown algorithm" error |
| MazeSolution.LeastIndex | src/python/packages/pegushi_gym/envs/maze.py:366 | `heappop` takes an entry no other entry precedes in tuple order |
| MazeSolution.RemoveAt | src/python/packages/pegushi_gym/envs/maze.py:366 | popping removes exactly that one entry from the queue's multiset |
| MazeSolution.NotOwnNeighbour | src/python/packages/pegushi_gym/envs/maze.py:343-353 | no cell is its own successor |
| MazeSolution.ChainWalk | src/python/packages/pegushi_gym/envs/maze.py:328-336 | following `prior` back from a reached cell gives a walk from the start of length distance+1 |
| MazeSolution.ShortestIsUnique | src/python/packages/pegushi_gym/envs/maze.py:338-340 | the shortest length between two cells is determined by the cells |
| MazeSolution.ExtendBackwards | src/python/packages/pegushi_gym/envs/maze.py:332-334 | appending a predecessor keeps the reversed path a walk |
| MazeSolution.InitialSettled | src/python/packages/pegushi_gym/envs/maze.py:357-364 | the starting queue, distances and empty visited set satisfy the search invariant |
| MazeSolution.PopVisited | src/python/packages/pegushi_gym/envs/maze.py:366-367 | popping an entry of a visited cell keeps the invariant |
| MazeSolution.PopFresh | src/python/packages/pegushi_gym/envs/maze.py:366-372 | the least entry of an unvisited cell carries that cell's distance (the source's assert) and its expansion can start |
| MazeSolution.RelaxUpdate | src/python/packages/pegushi_gym/envs/maze.py:373-376 | lowering a neighbour's distance, recording its predecessor and pushing the entry keeps the expansion invariant |
| MazeSolution.RelaxBase | src/python/packages/pegushi_gym/envs/maze.py:373-376 | lowering a neighbour's distance keeps every heap entry an upper bound and every predecessor one step closer to the start |
| MazeSolution.RelaxQueue | src/python/packages/pegushi_gym/envs/maze.py:373-376 | after a push, every queue entry bounds its cell's distance and every open cell is queued at its distance |
| MazeSolution.RelaxPriors | src/python/packages/pegushi_gym/envs/maze.py:373-376 | after a relaxation, every recorded predecessor is one move away, one step closer, and already visited or current |
| MazeSolution.RelaxVisited | src/python/packages/pegushi_gym/envs/maze.py:373-377 | a relaxation never lowers a visited cell, so visited cells stay relaxed |
| MazeSolution.RelaxKeep | src/python/packages/pegushi_gym/envs/maze.py:373 | a neighbour already close enough is left alone and the invariant holds |
| MazeSolution.FinishExpand | src/python/packages/pegushi_gym/envs/maze.py:377 | after all neighbours, the current cell joins the visited set and the search invariant holds |
| MazeSolution.LeavesGrid | src/python/packages/pegushi_gym/envs/maze.py:372-374 | a successor off the grid only arises in a layout with a passage off the grid |
| MazeSolution.WalkThroughVisited | src/python/packages/pegushi_gym/envs/maze.py:365-377 | along a walk from the start through visited cells, each cell's distance is at most its position on the walk |
| MazeSolution.GoalReached | src/python/packages/pegushi_gym/envs/maze.py:369-370 | when the goal is popped, its distance is the length of a shortest walk and the predecessors lead back to the start |
| MazeSolution.AllVisited | src/python/packages/pegushi_gym/envs/maze.py:365 | once the queue is empty, every cell reachable from the start has been visited |
| MazeSolution.Exhausted | src/python/packages/pegushi_gym/envs/maze.py:379 | an empty queue without the goal means the goal is unreachable |
| Maze.DrawCell | src/python/packages/pegushi_gym/envs/maze.py:249-250 | `randint(0, w), randint(0, h)` yields a cell on the grid |
| Maze.MoveStaysInGrid | src/python/packages/pegushi_gym/envs/maze.py:289-300 | in a layout closed at its border, a step never takes the agent off the grid |
| Maze.MoveUndone | src/python/packages/pegushi_gym/envs/maze.py:292-294 | a step through an open passage is undone by the opposite action |
| Maze.MoveConnects | src/python/packages/pegushi_gym/envs/maze.py:292-294 | a step keeps the agent in the part of the maze connected to where it stood |
| Maze.PathMatchesLength | src/python/packages/pegushi_gym/envs/maze.py:328-340 | the reported path has exactly one cell more than the reported length |
| Maze.SampleClosed | src/python/tests/pegushi_gym/envs/maze_tests.py:13-15 | the test suite's three-by-four maze has no passage through its border |
| Maze.SampleSteps | src/python/tests/pegushi_gym/envs/maze_tests.py:85-223 | in the test maze each move the step tests make lands where they expect, and `step(1), step(1), step(0)` from (0,0) reaches (2,1) |
| Maze.SampleNeighbours | src/python/tests/pegushi_gym/envs/maze_tests.py:248-257 | in the test maze the successors of the cells around the solution are the ones listed, in the order north, east, south, west |
| Maze.SamplePathStepByStep | src/python/tests/pegushi_gym/envs/maze_tests.py:248-252 | each cell of the expected solution is a successor of the one before |
| Maze.SamplePathIsWalk | src/python/tests/pegushi_gym/envs/maze_tests.py:248-252 | the expected solution is a walk from (0,0) to (3,2) |
| Maze.SamplePathIsShortest | src/python/tests/pegushi_gym/envs/maze_tests.py:248-257 | the expected solution is a walk of five moves and no walk from (0,0) to (3,2) is shorter |
| Maze.SampleWalkIsShort | src/python/tests/pegushi_gym/envs/maze_tests.py:248-252 | each move of a five-move walk from (0,0) to (3,2) comes one unit closer to (3,2) |
| Maze.SampleFirstMove | src/python/tests/pegushi_gym/envs/maze_tests.py:248-252 | such a walk first goes east to (1,0) |
| Maze.SampleMiddleMoves | src/python/tests/pegushi_gym/envs/maze_tests.py:248-252 | such a walk then goes through (2,0) and (2,1) |
| Maze.SampleLastMoves | src/python/tests/pegushi_gym/envs/maze_tests.py:248-252 | such a walk then reaches (2,2) |
| Maze.SamplePathIsUnique | src/python/tests/pegushi_gym/envs/maze_tests.py:248-252 | the expected solution is the only walk of five moves from (0,0) to (3,2) |
| Maze.SolveSample | src/python/tests/pegushi_gym/envs/maze_tests.py:248-257 | on the test maze from (0,0) to (3,2) the solution length is 5 and the solution path is the one the test expects |
| Maze.FixedMaze.constructor | src/python/packages/pegushi_gym/envs/maze.py:252-262 | the fields are set from the settled arguments and `reset` puts the agent at the start with the clock at 0 |
| Maze.FixedMaze.Create | src/python/packages/pegushi_gym/envs/maze.py:226-280 | each argument error is raised in the source's order (rng without seed, not 2-D, width, height, unknown algorithm), and no other error arises except while drawing, which only happens when no goal is given or it equals the start. The goal is kept or drawn on the grid. The start is redrawn until it differs from the goal. A generated layout is a connected maze of the requested size |
| Maze.FixedMaze.Reset | src/python/packages/pegushi_gym/envs/maze.py:284-287 | the agent is at the start, the clock at 0, and the start is returned |
| Maze.FixedMaze.Step | src/python/packages/pegushi_gym/envs/maze.py:289-300 | the clock advances. A legal action moves the agent one cell; reaching the goal pays the goal reward and ends the episode; otherwise a step pays the step reward. A wall pays the hit-wall reward and leaves the agent in place. A non-goal step is done once the clock reaches `max_steps` |
| Maze.ActionAt | src/python/packages/pegushi_gym/envs/maze.py:268-271 | an index selects an entry of the four action lists exactly when it is in -4..3, and it selects the entry its value names modulo 4 |
| Maze.FixedMaze.StepAny | src/python/packages/pegushi_gym/envs/maze.py:289-300 | on any integer action the clock advances; -4..-1 act as 0..3 with the rewards and the end of episode of `Step`, and any other action is an IndexError that leaves the agent where it stood |
| Maze.FixedMaze.Teleport | src/python/packages/pegushi_gym/envs/maze.py:324-326 | the agent is placed at (x, y), with the clock unchanged |
| Maze.FixedMaze.Render | src/python/packages/pegushi_gym/envs/maze.py:302-308 | "ansi" gives `_render_ansi`'s text, "human" the window, and any other mode an unknown-mode error |
| Maze.FixedMaze.ComputeSolution | src/python/packages/pegushi_gym/envs/maze.py:342-379 | the distance returned is the length of a shortest walk from start to goal, and the predecessors lead every reached cell back to the start. "Could not find a solution" is raised only when the goal is unreachable |
| Maze.FixedMaze.ComputeSolutionPath | src/python/packages/pegushi_gym/envs/maze.py:328-336 | the path is a shortest walk from start to goal. In a closed layout a path is returned exactly when the goal is reachable |
| Maze.FixedMaze.ComputeSolutionLength | src/python/packages/pegushi_gym/envs/maze.py:338-340 | the length is that of a shortest walk. In a closed layout it is returned exactly when the goal is reachable |
| GridCore.OutcomeCodes | src/python/packages/pegushi_gym/envs/grid/generic/core.py:11-13 | NOT_DONE is 0 and DONE is 1, and distinct outcomes have distinct codes |
| GridCore.OppositeIsInvolution | src/python/packages/pegushi_gym/envs/grid/generic/core.py:44-53 | the opposite of the opposite is the direction itself, and no direction is its own opposite |
| GridCore.OppositeNegatesDelta | src/python/packages/pegushi_gym/envs/grid/generic/core.py:44-53 | the opposite direction steps by the negated (dx, dy) |
| GridCore.UnitStep | src/python/packages/pegushi_gym/envs/grid/generic/core.py:45-48 | every direction moves one unit along exactly one axis |
| GridCore.CoordinatesRoundTrip | src/python/packages/pegushi_gym/envs/grid/generic/core.py:38-39 | stepping one way and then the opposite way returns to the start |
| GridCore.AllDirections | src/python/packages/pegushi_gym/envs/grid/generic/core.py:50 | `ALL` lists each of the four directions exactly once |
| Grids.HeadingAgrees | src/python/packages/pegushi_gym/envs/grid/generic/grids.py:7-29 | grids.py's own direction class steps and finds the next cell exactly as core.py's does |
| Grids.NextCellLooksBack | src/python/packages/pegushi_gym/envs/grid/generic/core.py:35-42 | looking back the opposite way from the next cell's coordinates finds the starting cell |
| Grids.OutsideIsBoundary | src/python/packages/pegushi_gym/envs/grid/generic/grids.py:82-86 | every coordinate off the grid yields the one boundary cell |
| Grids.ShapeAccessors | src/python/packages/pegushi_gym/envs/grid/generic/grids.py:46-80 | `width`/`max_x` and `height`/`max_y` agree, the minima are 0, and `bounds` is (origin, shape) |
| Grids.GetAsWrittenFailsOnWideGrid | src/python/packages/pegushi_gym/envs/grid/generic/grids.py:82-86 | as written, an in-bounds cell of a one-row, two-column grid raises IndexError |
| Grids.GetAsWrittenTransposes | src/python/packages/pegushi_gym/envs/grid/generic/grids.py:82-86 | as written, a square grid answers the transposed cell |
| Grids.GetTotalInside | src/python/packages/pegushi_gym/envs/grid/generic/grids.py:35-37 | corrected: a grid laid out row by row from a description f(x, y) has h rows of w cells; inside it `get(x, y)` is f(x, y), and every coordinate outside answers the boundary cell |
| GridChain.VisitsMembers | src/python/packages/pegushi_gym/envs/grid/generic/cells.py:117-118 | the things asked are exactly the inventory's members other than the skipped one and the cell's agent |
| GridChain.VisitsStep | src/python/packages/pegushi_gym/envs/grid/generic/cells.py:119-122 | one step of the loop: a member is asked only when it passes the filter |
| GridChain.VisitsIsSubsequence | src/python/packages/pegushi_gym/envs/grid/generic/cells.py:117-118 | members are asked in inventory order |
| GridChain.ChainAppend | src/python/packages/pegushi_gym/envs/grid/generic/cells.py:119-123 | a member at the end is asked only when no earlier one answered DONE, with the reward threaded so far |
| GridChain.ChainStopsAtDone | src/python/packages/pegushi_gym/envs/grid/generic/cells.py:121-122 | after a DONE no later member is asked |
| GridChain.ChainDoneFromMember | src/python/packages/pegushi_gym/envs/grid/generic/cells.py:113-123 | the chain answers DONE exactly when some member answers DONE to the reward threaded to it |
| GridChain.ChainPassThrough | src/python/packages/pegushi_gym/envs/grid/generic/cells.py:115-123 | members that never act leave NOT_DONE with the initial reward |
| GridBehaviors.Zip | src/python/packages/pegushi_gym/envs/grid/generic/agent.py:182 | `dict(zip(...))` has exactly the keys of the paired prefix |
| GridBehaviors.ZipDistinct | src/python/packages/pegushi_gym/envs/grid/generic/agent.py:182 | with distinct names each name maps to the behaviour at its own position |
| GridBehaviors.ActionIndex | src/python/packages/pegushi_gym/envs/grid/generic/agent.py:45-46 | an action number selects an entry exactly when it is in -11..10; negatives count from the end |
| GridBehaviors.TableMatchesNames | src/python/packages/pegushi_gym/envs/grid/generic/agent.py:8-10 | corrected: 11 behaviours, the i-th runs the behaviour the i-th name announces, and names are distinct |
| GridBehaviors.TableAsWrittenMismatch | src/python/packages/pegushi_gym/envs/grid/generic/agent.py:177-180 | as written, action 2 is named MOVE_EAST but runs move_south, and the name map sends MOVE_EAST to move_south |
| GridBehaviors.MapDispatchesByName | src/python/packages/pegushi_gym/envs/grid/generic/agent.py:182 | corrected: looking up any listed name gives the behaviour of that name |
| GridWorld.RemoveFirst | src/python/packages/pegushi_gym/envs/grid/generic/cells.py:111 | `list.remove` takes out one occurrence when present and changes nothing when absent |
| GridWorld.RemoveFirstAppended | src/python/packages/pegushi_gym/envs/grid/generic/cells.py:111 | removing a thing just appended gives back the original inventory |
| GridWorld.RemoveKeepsValid | src/python/packages/pegushi_gym/envs/grid/generic/cells.py:103-111 | `remove` keeps every slot pointing at a thing of the right kind in the inventory |
| GridWorld.RemoveTakesOnlyThat | src/python/packages/pegushi_gym/envs/grid/generic/cells.py:103-111 | removal succeeds exactly when the inventory holds the thing. It then takes one copy out, empties that thing's slots and keeps every other slot |
| GridWorld.PutKeepsValid | src/python/packages/pegushi_gym/envs/grid/generic/cells.py:100-148 | corrected: a refused put changes nothing, and an accepted one keeps the slots valid |
| GridWorld.PutObjectOutcome | src/python/packages/pegushi_gym/envs/grid/generic/cells.py:137-148 | an object is refused exactly when the slot it needs is taken (portable checked first). Otherwise it joins the inventory once and takes its slots |
| GridWorld.PutThenRemoveObject | src/python/packages/pegushi_gym/envs/grid/generic/cells.py:103-148 | putting an object in and removing it again restores the cell |
| GridWorld.PutThenRemoveAgent | src/python/packages/pegushi_gym/envs/grid/generic/cells.py:103-128 | putting an agent in and removing it again restores the cell |
| GridWorld.PutObjectAsWrittenBreaksSlots | src/python/packages/pegushi_gym/envs/grid/generic/cells.py:140-147 | as written, a portable and movable object refused for the movable slot is left in the portable slot without being in the inventory |
| GridWorld.PutObjectAsWrittenAgrees | src/python/packages/pegushi_gym/envs/grid/generic/cells.py:137-148 | where the as-written put succeeds or fails on the portable slot, it agrees with the corrected one |
| GridWorld.DefaultsPassThrough | src/python/packages/pegushi_gym/envs/grid/generic/objects.py:54-62 | a base object never stops a wait, an exit or an entry, and passes the reward on |
| GridWorld.DefaultsTargetPassThrough | src/python/packages/pegushi_gym/envs/grid/generic/objects.py:64-72 | a base object never stops a get or drop; being got, it sets the reward listed for `GET:OBJECT[name]` (default 0.0) |
| GridWorld.DefaultChainsPass | src/python/packages/pegushi_gym/envs/grid/generic/cells.py:60-80 | with base objects, a cell's wait, exit and entry chains answer NOT_DONE with the initial reward |
| GridWorld.DefaultTargetChainsPass | src/python/packages/pegushi_gym/envs/grid/generic/cells.py:88-94 | with base objects, a cell's get and drop chains answer NOT_DONE with the initial reward |
| GridWorld.AtFollowsContainer | src/python/packages/pegushi_gym/envs/grid/generic/objects.py:27-52 | an object's cell and position are those of its container: the cell it lies in, or its holder's cell and position. An object that is nowhere is at no position |
| GridWorld.ObjectsOf | src/python/packages/pegushi_gym/envs/grid/generic/cells.py:52-54 | `objects` holds exactly the inventory's objects |
| GridWorld.PushGuardNeverFires | src/python/packages/pegushi_gym/envs/grid/generic/agent.py:162-165 | as written, the guard is false for every neighbour, so an empty movable slot never answers PUSH:NO_OBJECT |
| GridWorld.PushWithoutObject | src/python/packages/pegushi_gym/envs/grid/generic/agent.py:163-165 | corrected: pushing towards a cell with nothing movable ends the turn with PUSH:NO_OBJECT's reward (default 0.0) |
| GridWorld.WaitIsDone | src/python/packages/pegushi_gym/envs/grid/generic/agent.py:55-59 | waiting always ends the turn; with base objects it pays the WAIT reward (default 0.0) |
| GridWorld.Object.constructor | src/python/packages/pegushi_gym/envs/grid/generic/objects.py:7-13 | the name, container and flags are as given (defaults not portable, not movable, visible) |
| GridWorld.Object.SetContainer | src/python/packages/pegushi_gym/envs/grid/generic/objects.py:79-80 | the container becomes the one given |
| GridWorld.Cell.constructor | src/python/packages/pegushi_gym/envs/grid/generic/cells.py:7-14 | a new cell keeps its coordinates and is empty, with all slots free |
| GridWorld.Cell.CallObjects | src/python/packages/pegushi_gym/envs/grid/generic/cells.py:113-123 | the loop answers what asking the filtered inventory in order answers, threading the reward and stopping at the first DONE |
| GridWorld.Cell.WaitActor | src/python/packages/pegushi_gym/envs/grid/generic/cells.py:60-62 | the answer is the chain of the things' `wait_actor` |
| GridWorld.Cell.Get | src/python/packages/pegushi_gym/envs/grid/generic/cells.py:88-90 | the answer is the chain of the other things' `get`, skipping the target |
| GridWorld.Cell.Drop | src/python/packages/pegushi_gym/envs/grid/generic/cells.py:92-94 | the answer is the chain of the other things' `drop`, skipping the target |
| GridWorld.Cell.Put | src/python/packages/pegushi_gym/envs/grid/generic/cells.py:100-148 | the new contents and the error are those `PutSpec` gives: an agent is added unless here, an object subject to its slots, and a cell is refused. A valid cell stays valid |
| GridWorld.Cell.Remove | src/python/packages/pegushi_gym/envs/grid/generic/cells.py:103-111 | the new contents and the error are those `RemoveSpec` gives. Slots are emptied before the inventory is searched, so they are emptied even when it fails. A valid cell stays valid |
| GridWorld.Cell.EnterActor | src/python/packages/pegushi_gym/envs/grid/generic/cells.py:74-86 | either a thing here answers DONE and nothing moves, or the actor leaves its old cell, joins this one and the call answers DONE with the reward it was given |
| GridWorld.Cell.ExitActor | src/python/packages/pegushi_gym/envs/grid/generic/cells.py:64-72 | either a thing here answers DONE and nothing moves, or the next cell in the direction is entered from the opposite side with the chain's reward |
| GridWorld.Agent.constructor | src/python/packages/pegushi_gym/envs/grid/generic/agent.py:12-16 | the position and cell are as given and the hands are empty |
| GridWorld.Agent.SetCell | src/python/packages/pegushi_gym/envs/grid/generic/agent.py:143-144 | the cell becomes the one given; the inventory is kept |
| GridWorld.Agent.Wait | src/python/packages/pegushi_gym/envs/grid/generic/agent.py:55-59 | DONE, with the cell chain's reward, or WAIT's reward when no thing acted |
| GridWorld.Agent.Move | src/python/packages/pegushi_gym/envs/grid/generic/agent.py:61-75 | the cell's `exit_actor` ran. NOT_DONE pays MOVE:NO_EXIT; DONE without a reward pays the move's own name. Lines 151-159 are the same method |
| GridWorld.Agent.Get | src/python/packages/pegushi_gym/envs/grid/generic/agent.py:77-101 | no object pays GET:NO_OBJECT; a vetoing thing or the target itself ends the turn; a full hand pays GET:FULL. These answers change neither the agent, its cell, the target nor the target's home cell. Otherwise the target leaves its cell and is carried, with the reward the target set |
| GridWorld.Agent.Drop | src/python/packages/pegushi_gym/envs/grid/generic/agent.py:103-123 | empty hands pay DROP:NO_OBJECT and a vetoing thing ends the turn. An occupied portable slot pays DROP:FULL (default None). Otherwise the object is put in the cell and the hands are empty |
| GridWorld.Agent.Push | src/python/packages/pegushi_gym/envs/grid/generic/agent.py:161-175 | nothing movable next door pays PUSH:NO_OBJECT. A refused push pays PUSH:FAILED. Success without a reward pays the push's own name |
| GridWorld.Agent.ExecuteWait | src/python/packages/pegushi_gym/envs/grid/generic/agent.py:55-59 | `wait` gives the answer `Behaved` describes and changes none of the objects an action can reach |
| GridWorld.Agent.ExecuteMove | src/python/packages/pegushi_gym/envs/grid/generic/agent.py:61-75 | `move` gives the answer `Behaved` describes and changes only the agent, its cell and the next cell in the direction |
| GridWorld.Agent.ExecuteGet | src/python/packages/pegushi_gym/envs/grid/generic/agent.py:77-101 | `get` gives the answer `Behaved` describes and changes only the agent, its cell, the portable object and that object's home cell |
| GridWorld.Agent.ExecuteDrop | src/python/packages/pegushi_gym/envs/grid/generic/agent.py:103-123 | `drop` gives the answer `Behaved` describes and changes only the agent, its cell and the held object |
| GridWorld.Agent.ExecutePush | src/python/packages/pegushi_gym/envs/grid/generic/agent.py:161-175 | `push` gives the answer `Behaved` describes and changes none of the objects an action can reach |
| GridWorld.Agent.Execute | src/python/packages/pegushi_gym/envs/grid/generic/agent.py:45-50 | an action outside the table is refused, and the agent, its cell, the portable object, its home, the held object and the four neighbouring cells are all unchanged. Otherwise the behaviour the corrected table lists runs and changes nothing outside its own footprint, and a missing reward is reported as 0.0 |
| GridEnvironment.NoLimitNeverExceeded | src/python/packages/pegushi_gym/envs/grid/generic/environment.py:113-114 | without `max_steps` no step count exceeds the limit |
| GridEnvironment.LimitStaysExceeded | src/python/packages/pegushi_gym/envs/grid/generic/environment.py:113-114 | once the limit is reached, every later count is past it |
| GridEnvironment.LimitReachedOnItsStep | src/python/packages/pegushi_gym/envs/grid/generic/environment.py:65-66 | counting from 0, the limit n is first reached on step n |
| GridEnvironment.RenderReusesRenderer | src/python/packages/pegushi_gym/envs/grid/generic/environment.py:76-82 | once made, a mode's renderer is reused whatever creation would give |
| GridEnvironment.RenderTouchesOnlyItsMode | src/python/packages/pegushi_gym/envs/grid/generic/environment.py:76-82 | a render adds at most its own mode and leaves every other mode's renderer as it was |
| GridEnvironment.CloseThenRenderCreates | src/python/packages/pegushi_gym/envs/grid/generic/environment.py:88-93 | after closing a mode, the next render of it creates a new renderer |
| GridEnvironment.GridEnvironment.constructor | src/python/packages/pegushi_gym/envs/grid/generic/environment.py:42-47 | state and limit as given (no limit by default), tick 0, no renderers |
| GridEnvironment.GridEnvironment.Reset | src/python/packages/pegushi_gym/envs/grid/generic/environment.py:60-63 | the state becomes its reset state; the tick and the renderers are kept |
| GridEnvironment.GridEnvironment.Step | src/python/packages/pegushi_gym/envs/grid/generic/environment.py:65-74 | tick+1. The next state and the reward come from `execute`. Done exactly when terminal or the new tick reaches the limit (lines 109-114) |
| GridEnvironment.GridEnvironment.Render | src/python/packages/pegushi_gym/envs/grid/generic/environment.py:76-82 | a cached renderer is reused; otherwise the created one is returned and cached |
| GridEnvironment.GridEnvironment.CloseRenderer | src/python/packages/pegushi_gym/envs/grid/generic/environment.py:88-93 | the mode's renderer, if any, is handed back for closing and forgotten; other modes are kept |
| GridEnvironment.GridEnvironment.CloseAllRenderers | src/python/packages/pegushi_gym/envs/grid/generic/environment.py:95-98 | every renderer is handed back for closing and the cache is empty |

## Left out

**Maze environment run-time services.**
- I/O and randomness: the numpy random generator, seeding (`seed`, `create_seed`, `np_random`), gym spaces and the pygame/pyglet display (`_render_human`, `SimpleMazeRenderer`, `_FixedMazeEnvironmentDisplay`, `close`) are outside the model. Random outcomes are parameters, and "human" rendering answers an opaque `Window`.

**Maze operations.**
- Maze.FixedMaze.Create:
  - A one-cell maze whose goal and start coincide would redraw the start forever. The model uses a finite list of draws and answers `DrawsExhausted` when they run out.
  - The goal given is tested for truth (`if not goal`), so an empty tuple also draws a goal. Only an absent goal is modelled as drawing.
- Maze.FixedMaze.Step: requires the agent to be on the grid, because numpy would wrap negative indices and raise on large ones.
  - `Step` takes an action 0..3, the size of the action space. `StepAny` takes any integer: -4..-1 index the action lists from their end, and any other value raises IndexError.
- Maze.FixedMaze.Render: requires every cell value in 0..3, the values Kruskal's algorithm produces. A layout passed in is not checked. `_walls2` is indexed by the raw cell value, so -4..-1 would pick entries from its end and any other value would raise IndexError; neither is modelled.
- Maze.FixedMaze.Render: a layout with no rows has width 0 here, while a numpy array of shape (0, w) keeps w. For such a layout the source's bottom border is 2w+1 stars and the model's is one star.
- Maze.FixedMaze.ComputeSolution: a successor off the grid, which only a layout with a passage through its border produces, is reported as `OutOfGrid`. numpy's wrapping of negative indices is not modelled.
- MazeKruskal.GenerateKruskal: the source's int32 arrays never hold values near their limits for the maze sizes it can allocate. Integers are unbounded here.
- `generate_random_maze` (the public wrapper that seeds a generator) is left out: its only logic beyond `_generate_random_maze` is seeding, which is about randomness.

**Grid world entities left out.**
- Actors other than agents, so `_put_actor` and `_remove_actor`: the library defines no actor class.
- `Agent.add`: its body is cut off mid-statement.
- `Cell.actors` is left out: it filters on the undefined `ThingTypes.ACTORS`.
- The unused `_remove_agent`, `_remove_cell` and `_remove_object` helpers: `remove` does not call them, and `_remove_object` is cut off mid-statement.
- `WallCell` and `LimboCell`: they add nothing to `Cell`. The cell's back-reference to its grid is not modelled.
- `renderers.py` and `states.py` are not part of this model. The world state is a type parameter, and what its methods answer is passed in.
- `save_state` and `restore_state`: pickling is I/O.
- `close` is left out: it only calls into the renderers and the state.
- `_before_action` and `_after_action` are extension hooks. Their library behaviour is modelled inside `Step`: the action is passed unchanged, and the time limit is added to `done`.

**Grid world behaviour stated differently from the source.**
- GridWorld.Cell.CallObjects: as written, the cell calls the base `Object` functions explicitly, so an application's overrides would be ignored. The model dispatches through the `Behaviors` parameter, which is what a chain of responsibility evidently means.
- GridWorld.Agent.Push: `Cell.push` is a stub declared with six parameters (`sef, env, state, initial_reward, actor, target`), and agent.py:168 calls it with seven, so the call raises TypeError before its answer is unpacked. The model takes the cell's answer as the parameter `cellPush`.
- GridWorld.Agent.Push: the neighbour is taken from the agent's own `x`, `y`, which `_move` never updates. This is modelled as written.
- GridWorld.Agent.Execute: the behaviour table is the corrected one (see Findings).
- GridEnvironment.GridEnvironment.Step: the observation returned is the next state itself. The source returns `next_state.visible()` and an empty info dictionary, and `visible` belongs to `states.py`, which is not part of this model.
- GridEnvironment.GridEnvironment.Step: `terminal` is what `is_terminal` answers. As written it is asked of the state before the step, because `self._state` still holds it.

**Grid world representation limits.**
- Grids.Grid.Get: an empty numpy array keeps its width in its shape; a `seq<seq<C>>` with no rows has width 0.
- GridEnvironment.GridEnvironment.Reset: `reset` is declared as a property, so reading it already resets the state. The model is the method it is evidently meant to be. The tick is not reset, as written.

## Findings

| source | as written | input that shows it | evidently intended | confidence | as-written member | corrected member |
|---|---|---|---|---|---|---|
| src/python/packages/pegushi_gym/envs/grid/generic/grids.py:84 | `self._cells[coordinates]` indexes the array with x as the row, although the grid keeps rows along y | a grid of one row and two columns, `grid[1, 0]`: in bounds, but row 1 does not exist (IndexError); on a square grid `grid[1, 0]` is the cell at row 1, column 0 | `self._cells[y, x]`, the cell at row y, column x | not executed | Grids.GetAsWrittenTransposes | Grids.GetTotalInside |
| src/python/packages/pegushi_gym/envs/grid/generic/agent.py:177-180 | `_BEHAVIOR` lists move_south before move_east, while `BEHAVIOR_NAMES` lists MOVE_EAST before MOVE_SOUTH | action 2, named MOVE_EAST, runs move_south, and `_BEHAVIOR_MAP['MOVE_EAST']` is move_south | behaviours in the order of their names | not executed | GridBehaviors.TableAsWrittenMismatch | GridBehaviors.MapDispatchesByName |
| src/python/packages/pegushi_gym/envs/grid/generic/cells.py:140-147 | `_put_object` takes the portable slot before checking the movable slot | a portable, movable object put into a cell whose movable slot is taken: ValueError, yet the object stays in the portable slot without being in the inventory | check both slots before changing anything | not executed | GridWorld.PutObjectAsWrittenBreaksSlots | GridWorld.PutKeepsValid |
| src/python/packages/pegushi_gym/envs/grid/generic/agent.py:163 | `if not (next_cell or next_cell.moveable_object)` is false for every cell, since a cell object is always true | pushing towards a cell with an empty movable slot skips the PUSH:NO_OBJECT answer and pushes `None` | `if not next_cell.movable_object` | not executed | GridWorld.PushGuardNeverFires | GridWorld.PushWithoutObject |
