# Intelligent snake agent, modelled in Dafny

The repository plays Snake. It has three parts, and the model follows all three:

- **The greedy solver** (`base/`, `solver/`). A board of typed cells is surrounded by a
  wall. A snake moves one cell per step. A path solver finds shortest paths by
  breadth-first search. It finds long paths by zig-zagging a shortest path wider. A
  greedy solver first simulates eating the food on a copy of the game, then checks that
  the copied snake can still reach its own tail. Otherwise it follows its tail or
  survives one more step.
- **The stand-alone agents** (`agent.py`). A snake over `(x, y)` tuples steers by A*
  or by breadth-first search toward the food.
- **The screen tracker** (`scanner/`):
  - the C header `superSnake_v2.h` keeps the game state: a 15 x 17 board, a queue of
    body cells and a max-heap of blue-ratio candidates. It detects the snake's move
    from the heap and advances the state;
  - the Python helpers turn a screenshot into per-cell colour ratios through an
    integral image, and read the score digits by template matching.

Modules, one per source file:

| module | file | models |
|---|---|---|
| `Directions` | `direc.dfy` | `base/direc.py` |
| `Points` | `point.dfy` | `base/point.py` |
| `Positions` | `pos.dfy` | the `Pos` operations used by the solver |
| `Board` | `map.dfy` | `base/map.py`: the pure `Grid` value and the `Map` class that holds it |
| `Snakes` | `snake.dfy` | `base/snake.py`: the pure `World` step and the `Snake` class |
| `SolverBase` | `solver_base.dfy` | `solver/base.py` |
| `PathSolving` | `path_solver.dfy` | `solver/path.py` |
| `Greedy` | `greedy.dfy` | `solver/greedy.py` |
| `Agents` | `agent.dfy` | `agent.py` |
| `Coords` | `coords.dfy` | coordinates and move masks of `scanner/superSnake_v2.h` |
| `MaxHeaps` | `heap.dfy` | the array max-heap of `scanner/superSnake_v2.h` |
| `Tracker` | `tracker.dfy` | the game-state functions of `scanner/superSnake_v2.h` |
| `BlockRatios` | `integral.dfy` | `ratio_blocks`, `ratio_blocks_v2`, `press_random_wasd` of `scanner/superVisor.py` |
| `ReadScore` | `read_score.dfy` | `scanner/superReadScore.py` |
| `Common` | `common.dfy` | shared helpers |

Python exceptions become a `Fail(...)` or `Failure(...)` result that names the
exception. Where the source mutates an object, the model is a class whose methods
`modify` it. Each such method is tied to a pure function of the old state, and the
lemmas are proved about that function. Where the source loops, the model loops, with
invariants.

The model follows the code's actual behaviour in these places:

- `coord_in_board` joins its four bounds with `||`, so it accepts every coordinate
  (`Coords.CoordInBoard`, `Coords.CoordInBoardVacuous`).
- In `calculate_next_state_in_place`, the test for eating the apple reads the new head's
  cell after it has already been written `HEAD`, so the apple branch never fires. The
  model writes this out: `NextStateInPlace` never grows the snake and never changes the
  score.
- `Map.copy` and `Snake.copy` refer to attributes the classes never define. They are
  modelled as the copy they evidently mean: same cells, same snake, and for `Map.copy`
  no food.
- `is_safe` also accepts `FOOD` cells. Any `FOOD` cell is inside and not a wall anyway,
  so that disjunct is redundant (`Board.IsSafeIgnoresSnake`).

## Model

| member | source | states |
|---|---|---|
| Directions.OppositeSwaps | base/direc.py:16-20 | opposite swaps UP with DOWN and LEFT with RIGHT |
| Directions.OppositeOfNone | base/direc.py:21-23 | NONE maps to NONE, and so does an argument that is not a key of the table |
| Directions.OppositeInvolution | base/direc.py:14-23 | applying opposite twice gives back the direction |
| Directions.OppositeNoFixedPoint | base/direc.py:16-21 | opposite(d) == d exactly when d is NONE |
| Directions.OppositeKeepsAxis | base/direc.py:16-20 | opposite keeps a horizontal direction horizontal and a vertical one vertical |
| Directions.ValuesDistinct | base/direc.py:4-12 | the five enum values are pairwise distinct |
| Points.SnakeTypesAboveOthers | base/point.py:4-20 | a type is a snake part exactly when it is none of EMPTY, WALL and FOOD, and snake values lie above FOOD, which lies above WALL, which lies above EMPTY |
| Points.ValuesDistinct | base/point.py:4-20 | distinct point types have distinct values |
| Points.Point.constructor | base/point.py:26-27 | a new point is EMPTY |
| Points.Point.SetType | base/point.py:33-37 | a PointType is stored; any other value raises ValueError and leaves the type unchanged |
| Points.SetThenGet | base/point.py:29-37 | the getter returns the last value the setter accepted |
| Positions.Adj | base/snake.py:189 | a move lands at Manhattan distance 1; NONE stays put |
| Positions.DirecTo | solver/path.py:170 | the direction is not NONE exactly when the cells are adjacent, and moving by it reaches the second cell |
| Positions.DirecToAdj | solver/path.py:84-87 | direc_to(p, p.adj(d)) == d for every move d |
| Positions.AllAdj | solver/path.py:88 | one neighbour per listed direction, in the listed order |
| Positions.MovesNeighbours | solver/greedy.py:58 | all_adj over the four moves lists exactly the cells one step away |
| Positions.MovesDirecTo | solver/greedy.py:63 | direc_to from p to its i-th neighbour is the i-th move |
| Positions.AdjOpposite | solver/path.py:145-149 | a step followed by the opposite step returns to the start |
| Positions.AdjInjective | solver/path.py:141-142 | the same move from two cells reaches the same cell exactly when the cells are the same |
| Positions.Insert | solver/path.py:146-147 | deque.insert puts x at index i and shifts the rest |
| Positions.InsertTwice | solver/path.py:146-147 | inserting t at idx and opposite(t) at idx+2 brackets step idx |
| Positions.Detour | solver/path.py:139-149 | the zig-zag's walk is the old walk with the two side cells put between the ends of step idx |
| Board.Grid.RmFood | base/map.py:47-51 | no change without food; otherwise the food cell becomes EMPTY, food is None, and no other cell changes |
| Board.Grid.CreateFood | base/map.py:53-57 | an empty inside cell becomes FOOD and the food; any other position changes nothing; other cells always keep their type |
| Board.ResetGridFacts | base/map.py:59-72 | after a reset the border is WALL, the interior is EMPTY and safe, there is no food, and the board is not full |
| Board.IsSafeIgnoresSnake | base/map.py:95-100 | is_safe holds exactly for inside non-wall cells, snake cells included |
| Board.EmptyIsInsideAndSafe | base/map.py:82-93 | an empty cell is inside and safe |
| Board.FullHasNoEmptyCell | base/map.py:102-109 | a full board has no empty cell, so create_food changes nothing |
| Board.Map.constructor | base/map.py:18-22 | a new map has the given size, capacity (rows-2)*(cols-2) and a reset board |
| Board.Map.Create | base/map.py:12-22 | non-int sizes raise TypeError, sizes below 5 raise ValueError, and otherwise a reset map is made |
| Board.Map.Reset | base/map.py:59-72 | the board becomes the reset board whatever it held before |
| Board.Map.SetPointType | base/map.py:40-42 | writes exactly the one cell, or raises ValueError and writes nothing |
| Board.Map.RmFood | base/map.py:47-51 | the new board is Grid.RmFood of the old one |
| Board.Map.CreateFood | base/map.py:53-57 | the new board is Grid.CreateFood of the old one |
| Board.Map.IsFull | base/map.py:102-109 | true exactly when every interior cell holds a snake part |
| Board.Map.CreateRandFood | base/map.py:111-122 | with food already present, or no empty cell, nothing changes; otherwise an empty cell becomes the food |
| Board.Map.Copy | base/map.py:74-80 | a fresh map with the same size, capacity and cells, and no food |
| Board.SetAtRestore | solver/path.py:56-62 | writing the saved type back restores the board |
| Snakes.OldHeadTypeJoinsSides | base/snake.py:145-170 | the old head gets a body type exactly when both directions are moves and not a reversal; the type joins the opposite of direc with the new direction |
| Snakes.NewHeadTypeFaces | base/snake.py:131-143 | the new head's type exists exactly when the direction is a move, and it faces that direction |
| Snakes.Step | base/snake.py:176-197 | a step keeps the world valid and a non-empty body non-empty, an empty body included |
| Snakes.StepEmptyFails | base/snake.py:187-188 | a move that is not blocked on an empty body raises AttributeError, since the head is None, and changes only the pending direction |
| Snakes.StepsWithoutDirecFail | base/snake.py:187-201 | with no current direction, a live snake's path starting with a move fails with ValueError on its first move |
| Snakes.StepSetsPending | base/snake.py:177-178 | a given direction becomes the pending one; direc is never changed by a step |
| Snakes.StepBlocked | base/snake.py:180-185 | a dead snake, a NONE direction or a reversal changes nothing but the pending direction |
| Snakes.StepWithoutDirecFails | base/snake.py:187-188 | with no current direction, typing the old head raises ValueError |
| Snakes.StepProceeds | base/snake.py:189-197 | the new head is head.adj(next); the snake dies exactly when that cell is unsafe; on food the body grows and the food goes, otherwise the tail is dropped and its cell emptied |
| Snakes.StepRetypesOldHead | base/snake.py:187-188 | the old head's cell gets the joining body type |
| Snakes.StepLeavesNewHeadCell | base/snake.py:189-197 | the cell the head moves into is never written |
| Snakes.DeadSnakeStays | base/snake.py:180-201 | along any path a dead snake's body and board stay as they were |
| Snakes.PaintTypesEachBody | base/snake.py:67-68 | each body cell ends typed with its init type |
| Snakes.ResetWorldFacts | base/snake.py:60-68 | after reset the snake is alive with the given direction, NONE pending and the given bodies; cells off the body come from the reset or the old board |
| Snakes.Snake.constructor | base/snake.py:11-23 | a new snake is the reset world over the given map |
| Snakes.Snake.Reset | base/snake.py:60-68 | the state becomes the reset world |
| Snakes.Snake.SetDead | base/snake.py:94-98 | a bool sets only the dead flag; any other value raises ValueError and changes nothing |
| Snakes.Snake.SetDirecNext | base/snake.py:108-112 | a Direc sets only the pending direction; any other value raises ValueError and changes nothing |
| Snakes.Snake.Head | base/snake.py:121-124 | None exactly when the body is empty, else its first cell |
| Snakes.Snake.Tail | base/snake.py:126-129 | None exactly when the body is empty, else its last cell |
| Snakes.Snake.RmTail | base/snake.py:172-174 | the last body cell is dropped and its cell emptied; nothing else changes |
| Snakes.Snake.Move | base/snake.py:176-197 | the result and the new state are Step of the old state, including the AttributeError of an empty body |
| Snakes.Snake.MovePath | base/snake.py:199-201 | the result and the new state are Steps of the old state along the path, for any body |
| Snakes.Snake.Copy | base/snake.py:76-84 | a fresh snake on a fresh map with the same body, flags and directions, over the board without its food |
| SolverBase.BaseSolver.constructor | solver/base.py:4-6 | the solver holds the given snake and its map |
| SolverBase.BaseSolver.SetSnake | solver/base.py:16-19 | the snake and its map are replaced together |
| SolverBase.BaseSolver.NextDirec | solver/base.py:21-23 | returns the NotImplemented marker |
| PathSolving.ShortestEmptyIff | solver/path.py:77-104 | a shortest-path result is empty exactly when des is unreachable or is the head |
| PathSolving.LongestNotShorter | solver/path.py:113-115 | a longest-path result is empty exactly when its shortest path is, and is at least as long as every shortest safe path to the destination |
| PathSolving.FrontierBound | solver/path.py:77-102 | a safe path from an expanded cell to a cell not yet expanded ends no nearer than the front of the queue |
| PathSolving.ClosedReach | solver/path.py:77-104 | with the queue exhausted, every cell reachable from the head has been seen |
| PathSolving.FoundShortest | solver/path.py:79-80 | when des is dequeued, the built path is a shortest safe path |
| PathSolving.NotFound | solver/path.py:104 | an exhausted queue without des means des is unreachable |
| PathSolving.Shuffle | solver/path.py:89 | the shuffled directions are a permutation of the four moves |
| PathSolving.FirstDirecFirst | solver/path.py:90-93 | the first copy of the head's direction is swapped to the front; without one the order is unchanged |
| PathSolving.LongBound | solver/path.py:128-156 | the path stays shorter than the board's area, so the zig-zag loop ends |
| PathSolving.DetourKeeps | solver/path.py:139-149 | a zig-zag adds two steps, keeps the cells distinct and safe, and keeps the marks equal to the walk's cells |
| PathSolving.PathSolver.constructor | solver/path.py:34-39 | every table cell starts reset |
| PathSolving.PathSolver.SetSnake | solver/base.py:16-19 | the snake and its map are replaced together |
| PathSolving.PathSolver.ResetTable | solver/path.py:160-163 | every table cell is reset |
| PathSolving.PathSolver.IsValid | solver/path.py:174-175 | true exactly when the cell is safe and not visited |
| PathSolving.PathSolver.BuildPath | solver/path.py:165-172 | the parent chain gives a safe path to des of length dist(des) |
| PathSolving.PathSolver.Visit | solver/path.py:96-102 | a valid neighbour gets visited, its parent and its distance, and is queued |
| PathSolving.PathSolver.Expand | solver/path.py:96-102 | expanding a cell keeps the search invariant |
| PathSolving.PathSolver.ExpandNext | solver/path.py:84-102 | the directions are ordered as the source orders them, then each neighbour is visited |
| PathSolving.PathSolver.StartSearch | solver/path.py:70-75 | the table is reset, the head has distance 0, and the queue holds the head |
| PathSolving.PathSolver.ShortestPathTo | solver/path.py:65-104 | the board is unchanged and the result is a shortest safe path to des, or empty when there is none |
| PathSolving.PathSolver.MarkPath | solver/path.py:117-124 | exactly the cells of the path are marked visited |
| PathSolving.PathSolver.TryExtend | solver/path.py:130-149 | a zig-zag adds two steps at the same index; otherwise the path is unchanged |
| PathSolving.PathSolver.LongestPathTo | solver/path.py:106-158 | the board is unchanged; empty exactly when the shortest path is; otherwise a safe path to des over distinct cells, longer than the shortest by an even number of steps |
| PathSolving.PathSolver.PathTo | solver/path.py:55-63 | des is treated as EMPTY during the search, and the board afterwards is as before |
| PathSolving.PathSolver.LongestPathToTail | solver/path.py:52-53 | the longest-path promise toward the tail, on the board with the tail's cell taken as EMPTY |
| PathSolving.PathSolver.ShortestPathToFood | solver/path.py:45-50 | the shortest-path promise toward the food, on the board with the food's cell taken as EMPTY; with no food, the promise toward the tail |
| Greedy.SurviveStep | solver/greedy.py:58-63 | each safe neighbour strictly farther from the food than the best so far becomes the new best |
| Greedy.SurvivalDeterministic | solver/greedy.py:55-64 | the survival choice is unique, and it is safe whenever a safe neighbour exists |
| Greedy.GreedySolver.constructor | solver/greedy.py:25-27 | the solver holds the snake and a path solver over it |
| Greedy.GreedySolver.PointPathSolver | solver/greedy.py:34 | the path solver is pointed at the given snake and its map |
| Greedy.GreedySolver.Survive | solver/greedy.py:55-64 | with no safe neighbour the current direction; with a safe one but no food, AttributeError; else the first neighbour farthest from the food |
| Greedy.GreedySolver.FoodPath | solver/greedy.py:34-35 | the food-path promise for the real snake, whose state is unchanged |
| Greedy.GreedySolver.TailPath | solver/greedy.py:43-53 | the tail-path promise for the given snake, whose state is unchanged; the real board is unchanged |
| Greedy.GreedySolver.Simulate | solver/greedy.py:37-47 | the copy's outcome and final state are Steps of its world along the path; a failed walk's error is raised; otherwise a direction results exactly when the copy's map is then full or its tail path is longer than one step, and it is the path's first direction |
| Greedy.GreedySolver.TryFood | solver/greedy.py:31-47 | the copy starts from the real world without its food and follows the food path; an error results exactly when that path is non-empty and the walk fails, and it is the walk's error; a direction results exactly when the path is non-empty, the walk passes and the copy's map is full or its tail path is longer than one step; the real snake is untouched |
| Greedy.GreedySolver.FollowTail | solver/greedy.py:49-64 | the tail path's first direction when that path is longer than one step, else the survival choice (FollowTailSpec) |
| Greedy.GreedySolver.NextDirec | solver/greedy.py:29-64 | the simulated walk's error when the food path is non-empty and the walk fails (a ValueError when the snake has no current direction); the food path's first direction when the walk passes and is safe; else the tail path's first direction when it is longer than one step, else the survival choice; the real snake's state is unchanged |
| Agents.Heuristic | agent.py:105-106 | the Manhattan distance, which is zero exactly when the cells are equal |
| Agents.HeuristicConsistent | agent.py:105-106 | the heuristic changes by at most one per step |
| Agents.Neighbors | agent.py:109-114 | exactly the in-grid cells adjacent to the node |
| Agents.SearchSpecUnique | agent.py:116-214 | two results meeting the search promise agree on existence and on length |
| Agents.BfsFrontier | agent.py:192-212 | every path to the goal is at least as long as the queue front |
| Agents.BfsFound | agent.py:193-197 | a dequeued path ending at the goal is a shortest one |
| Agents.BfsNone | agent.py:214 | an empty queue means no path exists |
| Agents.Bfs | agent.py:188-214 | a shortest path avoiding the body, or None exactly when none exists |
| Agents.BfsExpand | agent.py:199-212 | queueing the neighbours keeps the search invariant |
| Agents.HeapMin | agent.py:130 | heappop takes an entry no greater than any other |
| Agents.AFrontier | agent.py:129-154 | the A* invariant bounds every path by the open entries |
| Agents.APopGoal | agent.py:130-138 | popping the goal gives an optimal g score |
| Agents.APopOptimal | agent.py:129-142 | closing the popped cell keeps every closed g score optimal |
| Agents.AStar | agent.py:116-160 | a shortest path avoiding the body except the goal, or None exactly when none exists |
| Agents.AExpand | agent.py:144-154 | relaxing every neighbour keeps the A* invariant |
| Agents.Relax | agent.py:145-154 | relaxing one neighbour keeps the partial invariant |
| Agents.Reconstruct | agent.py:132-138 | following came_from gives a path from start to goal no longer than g(goal)+1 |
| Agents.StepIsDirection | agent.py:95-98 | the step to an adjacent cell is one of the four directions and leads there |
| Agents.MoveShrink | agent.py:23-32 | a move then a shrink keeps the length, puts the new head in front and keeps the body contiguous |
| Agents.StepNoCollision | agent.py:38-46 | stepping to a free in-grid neighbour does not collide |
| Agents.Snake.constructor | agent.py:15-21 | the body is the centre cell, the direction is RIGHT, the growth is empty |
| Agents.Snake.Move | agent.py:23-27 | an empty body raises IndexError; otherwise the new head is put in front |
| Agents.Snake.Shrink | agent.py:29-32 | the last cell is dropped |
| Agents.Snake.SetDirection | agent.py:34-36 | only the direction changes |
| Agents.Snake.CheckCollision | agent.py:38-46 | IndexError exactly when the body is empty; otherwise true exactly when the head is off-grid or on the body |
| Agents.AStarAgent.constructor | agent.py:81-82 | a fresh agent snake |
| Agents.AStarAgent.Compute | agent.py:84-102 | the first step of a shortest path to the food that avoids the body, or None when no such path has a step; the path's rest is planned |
| Agents.BfsAgent.constructor | agent.py:166-167 | a fresh agent snake |
| Agents.BfsAgent.Compute | agent.py:169-186 | the first step of a shortest path to the food that avoids the body, else the current direction; the path's rest is planned |
| Coords.NeighboursOfCoord | scanner/superSnake_v2.h:245-271 | the four neighbours are one step away, distinct, and undo each other pairwise |
| Coords.CoordInBoardVacuous | scanner/superSnake_v2.h:273-276 | the check accepts every coordinate, even one off the board |
| Coords.MoveIsSingle | scanner/superSnake_v2.h:331-336 | true exactly when the mask is one of the four direction bits |
| Coords.Step | scanner/superSnake_v2.h:394-411 | a single-direction move reaches a cell one step away |
| MaxHeaps.HeapSwap | scanner/superSnake_v2.h:190-194 | the two nodes trade places and nothing else changes |
| MaxHeaps.HeapRootMax | scanner/superSnake_v2.h:215-236 | the root of a heap has the largest key |
| MaxHeaps.SiftUpStep | scanner/superSnake_v2.h:207-212 | one swap up keeps the heap order outside the rising node |
| MaxHeaps.SiftDownStep | scanner/superSnake_v2.h:224-234 | one swap down keeps the heap order outside the sinking node |
| MaxHeaps.BubbleUp | scanner/superSnake_v2.h:201-212 | appending then bubbling gives a heap with the node added |
| MaxHeaps.MoveLastToRoot | scanner/superSnake_v2.h:220-221 | the last node replaces the root, and the prefix is one shorter |
| MaxHeaps.BubbleDown | scanner/superSnake_v2.h:223-234 | bubbling down gives a heap with the same multiset |
| MaxHeaps.MaxHeap.constructor | scanner/superSnake_v2.h:182-188 | an empty heap with the given capacity |
| MaxHeaps.MaxHeap.Grow | scanner/superSnake_v2.h:197-200 | the capacity doubles and the contents are kept |
| MaxHeaps.MaxHeap.Push | scanner/superSnake_v2.h:196-213 | the size grows by one and the node joins the multiset; the capacity doubles exactly when the heap was full |
| MaxHeaps.MaxHeap.Pop | scanner/superSnake_v2.h:215-236 | an empty heap yields None; otherwise the root, whose key is the largest, leaves the multiset and the size drops by one |
| Tracker.CoordsAreEqual | scanner/superSnake_v2.h:278-280 | true exactly when both coordinates are equal |
| Tracker.Match | scanner/superSnake_v2.h:512-531 | zero, or the one direction that leads to the cell and not to the last head; zero exactly when no such direction exists |
| Tracker.DetectSound | scanner/superSnake_v2.h:506-533 | a detected move is single, leads to a candidate and never to the last head |
| Tracker.DetectNone | scanner/superSnake_v2.h:506-533 | nothing is detected exactly when no candidate matches |
| Tracker.DecisionSound | scanner/superSnake_v2.h:494-535 | the returned move is zero once the rear was popped, and otherwise a detected move |
| Tracker.PopLogStep | scanner/superSnake_v2.h:508 | a pop keeps the record of popped nodes, in descending key order |
| Tracker.ClearBoard | scanner/superSnake_v2.h:127-131 | every board cell becomes EMPTY |
| Tracker.Examine | scanner/superSnake_v2.h:507-532 | one pop and its test, with no match before it |
| Tracker.ScanCandidates | scanner/superSnake_v2.h:506-533 | at most score+4 pops, stopping at the first match, with the popped nodes recorded |
| Tracker.GameState.constructor | scanner/superSnake_v2.h:42-53 | a state with a fresh 15 x 17 board and an empty body |
| Tracker.GameState.FlashInitialState | scanner/superSnake_v2.h:117-165 | the move is EAST, the score 0, the apple at (7, 12), the four body cells laid out, and the state consistent |
| Tracker.GameState.PossibleMoves | scanner/superSnake_v2.h:286-329 | each direction bit is set exactly when its neighbour is empty or the apple, or is the rear |
| Tracker.GameState.NextStateInPlace | scanner/superSnake_v2.h:378-436 | the body shifts by one toward the move, the board is updated, score and apple stay, and the next move is cleared |
| Tracker.GameState.NextKeepsConsistent | scanner/superSnake_v2.h:383-432 | a move that neither bites nor eats keeps the board consistent with the body |
| Tracker.GameState.DuplicateInto | scanner/superSnake_v2.h:338-376 | the target gets the move, score, apple and every board cell, and the body is appended to its queue |
| Tracker.GameState.DetermineMove | scanner/superSnake_v2.h:494-535 | pops nodes in descending key order until one matches, score+4 are popped or the heap is empty, keeps the rest in the heap with no key above the last popped one, and returns the decision over the popped nodes |
| BlockRatios.ScanSum | scanner/superVisor.py:129-131 | a cumulative sum's entry is the sum of the prefix |
| BlockRatios.IntegralV2Entry | scanner/superVisor.py:129-131 | each entry of the padded table is the sum of the rectangle above and to the left |
| BlockRatios.IntegralV2IsPrefix | scanner/superVisor.py:125-131 | the two cumulative sums give the padded prefix-sum table of the binary mask |
| BlockRatios.InclusionExclusion | scanner/superVisor.py:146-151 | four table lookups give a rectangle's sum |
| BlockRatios.CountFromTable | scanner/superVisor.py:96-101 | the block sum counts the pixels over the threshold |
| BlockRatios.BlocksTile | scanner/superVisor.py:137-142 | every pixel lies in exactly one block |
| BlockRatios.FillRatioBounds | scanner/superVisor.py:153 | a ratio is between 0 and 1; it is 0 exactly when no pixel is lit and 1 exactly when all are |
| BlockRatios.MasksAgree | scanner/superVisor.py:83 | on a pure 0/255 mask the two thresholds light the same pixels |
| BlockRatios.MasksDiffer | scanner/superVisor.py:125 | a 128 pixel is lit by the v2 binarisation but not by the v1 division |
| BlockRatios.Div255Threshold | scanner/superVisor.py:83 | integer division by 255 is the threshold at 255 |
| BlockRatios.RatioV2 | scanner/superVisor.py:146-153 | the v2 ratio of a block is its fill ratio |
| BlockRatios.RatioV1 | scanner/superVisor.py:96-103 | the v1 ratio of a block is its fill ratio at 255 |
| BlockRatios.StoreBlock | scanner/superVisor.py:146-153 | one block's ratio is written and nothing else |
| BlockRatios.StoreRow | scanner/superVisor.py:140-153 | one row of blocks is written |
| BlockRatios.RatioBlocksV2 | scanner/superVisor.py:107-155 | every entry is its block's fill ratio in the colour's mask |
| BlockRatios.RatioBlocksColour | scanner/superVisor.py:82-103 | one colour's entries are its blocks' fill ratios at 255 |
| BlockRatios.ColourRow | scanner/superVisor.py:89-103 | one row of one colour is written |
| BlockRatios.RatioBlocks | scanner/superVisor.py:74-105 | every entry is its block's fill ratio at 255 |
| BlockRatios.Others | scanner/superVisor.py:174 | exactly the keys other than the last one |
| BlockRatios.PressRandomWasd | scanner/superVisor.py:170-179 | the key pressed is one of WASD and differs from the last one |
| BlockRatios.PressRandomWasdChoices | scanner/superVisor.py:171-175 | there are three choices after a key, four otherwise, and each can be picked |
| ReadScore.CropIsWindow | scanner/superReadScore.py:61-68 | a slice padded with zeros is the window at that offset |
| ReadScore.WindowPastEdge | scanner/superReadScore.py:62-63 | a slot past the right edge is all zeros |
| ReadScore.WindowColumns | scanner/superReadScore.py:64-68 | columns inside the mask are copied and the rest are zero |
| ReadScore.SplitSlots | scanner/superReadScore.py:56-70 | three slots, each the window at its start column |
| ReadScore.MismatchesDiffer | scanner/superReadScore.py:109-110 | the bitwise_xor count is the number of differing pixels |
| ReadScore.BitXorZero | scanner/superReadScore.py:109 | a pixel xor is non-zero exactly when the pixels differ |
| ReadScore.FirstFewest | scanner/superReadScore.py:105-114 | the template chosen has the fewest mismatches, strictly fewer than every earlier template |
| ReadScore.ScoreOrder | scanner/superReadScore.py:111-112 | a higher score means fewer mismatches, and scores lie in [0, 1] |
| ReadScore.BelowThreshold | scanner/superReadScore.py:95 | frac < 0.02 exactly when 50 times the count is below the size |
| ReadScore.BestDigit | scanner/superReadScore.py:101-114 | None exactly when there are no templates, else the first one with the fewest mismatches |
| ReadScore.ClassifyEmpty | scanner/superReadScore.py:92-125 | when no template is named empty, a slot is read as empty exactly when under 2% of its pixels are lit, and otherwise as one template's name |
| ReadScore.Recognize | scanner/superReadScore.py:89-125 | one name per slot: empty, or the best template |
| ReadScore.StripEmptiesSpec | scanner/superReadScore.py:127-129 | stripping removes exactly the leading empties |
| ReadScore.StripLeadingEmpties | scanner/superReadScore.py:127-129 | the loop's result is the stripped sequence |
| ReadScore.DigitsOnly | scanner/superReadScore.py:139 | every name kept is a digit string |
| ReadScore.DigitsOnlyKeeps | scanner/superReadScore.py:139 | a string of digits is kept whole |
| ReadScore.ReadValueSpells | scanner/superReadScore.py:131-140 | when every name is empty or a digit string, the value is the number the digit names spell |
| ReadScore.Capture | scanner/superReadScore.py:72-140 | the value read is ReadValue of the stripped recognition |
| ReadScore.CaptureSpells | scanner/superReadScore.py:86-140 | with digit-named templates, capture reads the number the recognised digits spell |

## Left out

- Screen capture, key presses, windows and printing (mss, cv2 windows, pyautogui,
  pygame, `print`) are I/O. The image, the template set and the choices are parameters.
- `agent.py`'s `draw` and the perceptions dictionary are left out. The agents take the
  food and the grid size as parameters instead.
- `ratio_blocks_v3`, `run_loop` and the top-level scripts are not part of this model;
  they only wire the modelled helpers to I/O.
- Randomness (`random.choice`, `random.shuffle`, `random.randint`, `np.random`) becomes
  a choice parameter. `Shuffle` and `PressRandomWasd` prove every outcome is one the
  source allows.
- The random-initialisation branch of `Snake.reset` (base/snake.py:33-58) is left out.
  It reads `columns` and `rows` that the class does not define. Only the explicit
  assignment is modelled.
- `base/pos.py` is not part of this model. `Positions` states what the solver relies
  on: `adj`, `direc_to`, `all_adj` and the Manhattan distance. The order of `all_adj`'s
  neighbours is taken to be `MOVES == [UP, DOWN, LEFT, RIGHT]`; step 5 of `next_direc`
  and the breadth-first search visit neighbours in that order.
- The property getters of `solver/base.py`, `base/map.py` and `base/snake.py` are plain
  field reads in the model.
- BlockRatios.RatioBlocksV2: float32 and float division are exact rationals (`real`).
  The uint32 wrap-around of the integral image is left out, because a sum of at most
  h*w values of 1 cannot reach it.
- BlockRatios.RatioBlocks: the image must cover the grid, and block sizes must be
  positive (`requires`). The source would raise IndexError or divide by zero for those
  inputs.
- ReadScore.Capture: a slot shape that differs from a template's shape is a
  precondition. The source signals it through a cv2 error.
- ReadScore.Capture: the slots must be non-empty (`|mask| * dw > 0`). With a zero-size
  slot the source raises ZeroDivisionError computing the lit fraction
  (scanner/superReadScore.py:92). The fixed screen region (18 rows) and digit width (13)
  meet this at both call sites (scanner/superReadScore.py:145, scanner/superSnake.py:124).
- ReadScore.Capture: `int(...)` is modelled only for digit names. Signs, whitespace and
  underscores are left out, and `isdigit` is ASCII only.
- ReadScore.Capture: template loading from disk is left out; the templates are a
  parameter.
- PathSolving.PathSolver.ShortestPathTo: `sys.maxsize` is taken as a bound on the board
  area (`numRows * numCols < MAXSIZE`).
- Agents.AStar: `heapq`'s list is modelled as a multiset of entries. The entry popped
  is the least one in Python's tuple order on (f, (x, y)), as `heappop` picks it.
- Tracker and MaxHeaps: malloc, realloc and free, their failure paths, and
  `free_state_queue` are left out. The body queue is a sequence.
- MaxHeaps.MaxHeap.Push: `capacity * 2` overflow is left out. The `double` keys are
  `real`.
- MaxHeaps.MaxHeap.Pop: the `exit` on underflow becomes a None result.
- MaxHeaps.MaxHeap.constructor: the capacity must be at least 1. `heap_create`
  (scanner/superSnake_v2.h:182-188) accepts 0, but a push then reallocates to zero
  bytes and writes past it, which is undefined behaviour; the only caller passes 64.
- Candidate building is left out. `build_logic_blue_ratios` and `mul_ratio_matrices`
  only fill the heap from the colour ratios, and the last head is a parameter of
  `DetermineMove`.
- Tracker.GameState.NextStateInPlace: the `fprintf` branch for an invalid move is a
  precondition (`MoveIsSingle`). Neighbours must be on the board because C would index
  outside the array.
- Tracker.GameState.PossibleMoves: the four neighbours must be on the board, since the
  C would read outside the array.
- Tracker.GameState.DuplicateInto: the target must be a different state, and its body
  is appended to its own queue as the C does.
- Board.Map.Copy: modelled as the intended copy. The source reads undefined attributes
  (base/map.py:74-80).
- Snakes.Snake.constructor: asks for at least as many init types as init bodies, for
  every body cell on the board and for the head inside the walls. The source raises
  IndexError on too few types (base/snake.py:67-68), indexes the board out of range, or
  wraps round on a negative coordinate, and accepts a head on the wall.
- Snakes.Snake.Reset: the same requirements as the constructor, for the same reasons.
- Snakes.Snake.SetDead: reviving (`dead = False`) is modelled only when the head is
  inside the walls. A snake that dies on a wall keeps its head on the wall cell
  (base/snake.py:188-193), and the setter (base/snake.py:94-98) would revive it; the
  model's world cannot hold a live snake with its head on a wall, because its next
  move could index outside the board.
- Snakes.Advance: only reached with a non-empty body; `Step` raises AttributeError
  before it on an empty one.
- PathSolving.PathSolver.ShortestPathTo, PathSolving.PathSolver.LongestPathTo and
  PathSolving.PathSolver.PathTo require a non-empty snake. The source reads a field of
  the head `None` and raises AttributeError.
- PathSolving.PathSolver.LongestPathToTail and PathSolving.PathSolver.ShortestPathToFood
  require a non-empty snake, for the same reason.
- Greedy.GreedySolver.NextDirec requires a non-empty real snake, for the same reason.
- Tracker.GameState.NextStateInPlace: the body must hold at least two cells. With one
  cell the C frees the queue node that is also the front.
- Snakes.Snake.Copy: modelled as the intended copy. The source refers to
  `self.game_map` (base/snake.py:76-84).
