# A* path finding on a square grid

A model of the core of a pygame A* visualiser. The user places a start, an
end and barriers on an n x n grid of nodes, or loads a randomly carved maze,
and the A* search colours the grid as it runs: cells queued for expansion
turn open (green), expanded cells closed (red), and, when the end is
reached, the route back to the start is painted as path (purple) and the end
as end (turquoise).

The project has four modules, one per source file:

- `Nodes` (node.dfy): the `Node` class with its colour and neighbour list,
  the colour setters and queries, `update_neighbors` and `__lt__`. The
  neighbour list is specified by the pure function `OpenNeighbors` on a
  snapshot of the grid's colours.
- `Draw` (draw.dfy): `make_grid`, which builds the grid of fresh nodes, and
  `get_clicked_pos`, which maps a pixel to a cell. Python's floor division
  is written out as `FloorDiv`.
- `MazeGenerator` (maze_generator.dfy): `generate_random_maze` with its
  nested recursive `add_walls`, `load_predefined_maze` and `clear_grid`. The
  carve is specified on the set of cleared cells (`Carve`), and the method
  that updates the 0/1 grid is proved to compute it. The maze it yields is
  proved to be a spanning tree of the even-coordinate cells, for every
  outcome of the random choices.
- `AStar` (astar.dfy): the heuristic `h`, `reconstruct_path` and
  `algorithm`. The search state is a value (`Search`): the queue, its mirror
  set, the predecessor map, the g- and f-scores and the insertion counter.
  The nodes' colours are updated in place. The main theorem is that
  `algorithm` answers true exactly when the end is reachable from the start
  through non-barrier cells, and that the cells painted as path then form a
  route from the end back to the start.

## Model

| member | source | states |
|---|---|---|
| Nodes.Node.constructor | node.py:25-32 | row and column as given, x = row * width, y = col * width, width and grid size stored, colour white, no neighbours |
| Nodes.Node.GetPos | node.py:34-41 | the position is (row, col) |
| Nodes.Node.Reset | node.py:88-90 | the node becomes white, only its colour changes, and none of the five `is_*` queries holds |
| Nodes.Node.MakeStart | node.py:92-94 | the node becomes orange and `is_start` is the only query that holds |
| Nodes.Node.MakeClosed | node.py:96-98 | the node becomes red and `is_closed` is the only query that holds |
| Nodes.Node.MakeOpen | node.py:100-102 | the node becomes green and `is_open` is the only query that holds |
| Nodes.Node.MakeBarrier | node.py:104-106 | the node becomes black and `is_barrier` is the only query that holds |
| Nodes.Node.MakeEnd | node.py:108-110 | the node becomes turquoise and `is_end` is the only query that holds |
| Nodes.Node.MakePath | node.py:112-114 | the node becomes purple and no query holds |
| Nodes.Node.Lt | node.py:140-150 | no node is less than another |
| Nodes.Node.UpdateNeighbors | node.py:120-138 | only the neighbour list changes; it becomes the nodes at `OpenNeighbors` of the colours at call time |
| Nodes.OpenNeighborsExactly | node.py:130-138 | a cell is listed exactly when it is inside the grid, not a barrier and 4-adjacent; no cell is listed twice; at most four |
| Nodes.OpenNeighborsInOrder | node.py:130-138 | the list is the cells below, above, right and left, in that order, with the impassable ones dropped |
| Nodes.OpenNeighborsIgnoreOwnColor | node.py:130-138 | recolouring the node itself does not change its list |
| Draw.FloorDiv | draw.py:17 | Python's `//`: the quotient rounded toward minus infinity, for either sign of the divisor |
| Draw.MakeGrid | draw.py:16-23 | rows x rows fresh nodes, the node at (i, j) with coordinates (i, j), cell width `width // rows`, grid size rows, white, no neighbours; negative rows give an empty grid |
| Draw.GapPositive | draw.py:17 | cells have a positive width exactly when rows <= width |
| Draw.ClickRoundTrip | draw.py:75-79 | a click anywhere in the square a node occupies gives that node's (row, col) |
| Draw.ClickInRange | draw.py:75-79 | the clicked cell is on the grid exactly when both pixel components lie in [0, rows * gap) |
| MazeGenerator.GenerateRandomMaze | maze_generator.py:15-31 | the origin drawn from the `randint` ranges is inside; the result is a rows x cols 0/1 grid whose passages form a spanning tree of the even cells: all even cells cleared, no odd/odd cell cleared, every other passage between two cleared even cells, all connected to the origin, 2E - 1 passages |
| MazeGenerator.AddWalls | maze_generator.py:17-25 | the grid after trying the four jumps from (x, y) is the rendering of `Carve` from there |
| MazeGenerator.TryDirection | maze_generator.py:20-25 | one loop turn yields the rendering of `TryJump`: dig on when the landing cell is inside and a wall, else no change |
| MazeGenerator.Dig | maze_generator.py:22-25 | clearing the landing and middle cells and recursing yields the rendering of the carve from the landing cell |
| MazeGenerator.CarveStep | maze_generator.py:18-25 | unfolding lemma the `AddWalls` loop uses: the carve from turn k is the carve from turn k + 1 after trying jump k |
| MazeGenerator.TryJumpCases | maze_generator.py:21-25 | unfolding lemma `TryDirection` uses: trying a jump either carves on from an uncleared landing cell inside the maze or changes nothing |
| MazeGenerator.CarveWithin | maze_generator.py:22-25 | carving never clears a cell outside the maze |
| MazeGenerator.CarveKeepsPassages | maze_generator.py:23-24 | carving keeps every cleared odd cell between two cleared even cells |
| MazeGenerator.CarveKeepsCount | maze_generator.py:23-24 | carving keeps the cleared count at twice the cleared even cells less one |
| MazeGenerator.CarveKeepsConnected | maze_generator.py:23-25 | carving keeps every cleared cell connected to the origin |
| MazeGenerator.CarveCoversLattice | maze_generator.py:17-29 | the carve from the origin clears every even cell of the maze |
| MazeGenerator.SpanningTree | maze_generator.py:17-29 | the cleared cells contain the origin and every even cell, lie inside, are passages between even cells, are connected, and number 2E - 1 |
| MazeGenerator.CarvedMaze | maze_generator.py:15-31 | the rendered carve meets every promise of a spanning maze |
| MazeGenerator.LoadPredefinedMaze | maze_generator.py:44-48 | the new colours are `Loaded` of the old: a node under a wall becomes a barrier, every other keeps its colour |
| MazeGenerator.ClearGrid | maze_generator.py:60-62 | every node of every row becomes white and nothing else changes |
| MazeGenerator.LoadedBarriers | maze_generator.py:44-48 | a cell is a barrier after loading exactly when it is a wall or was a barrier; a non-wall keeps its colour |
| MazeGenerator.LoadIdempotent | maze_generator.py:44-48 | loading the same maze twice is loading it once |
| MazeGenerator.ClearIdempotent | maze_generator.py:60-62 | clearing twice is clearing once, and a cleared cell answers no `is_*` query |
| MazeGenerator.LoadedMazePassable | main.py:71-76 | clearing and then loading a generated square maze leaves exactly the maze's passages passable for the search |
| AStar.HSymmetricZero | astar.py:16-18 | the Manhattan distance is symmetric and zero exactly between equal points |
| AStar.HConsistent | astar.py:16-18 | one step to an adjacent cell changes the distance to any goal by exactly one |
| AStar.Plus | astar.py:75 | adding to a finite score adds to its value; infinity stays infinity |
| AStar.InfScores | astar.py:54 | every cell of the grid, and nothing else, is scored infinity |
| AStar.MinIndex | astar.py:66 | the index of an entry no other entry precedes in (f, count) order |
| AStar.NoTies | astar.py:82-83 | with distinct counters any two entries are ordered by (f, count) alone |
| AStar.MinUnique | astar.py:66 | with distinct counters the least entry is unique, so `Node.__lt__` is never consulted |
| AStar.Pop | astar.py:66-67 | the queue becomes the old queue without entry m, the others in their order; its cell leaves the mirror set; nothing else changes |
| AStar.Relax | astar.py:74-85 | no score rises, and the neighbour's score ends no higher than the route through `cur` |
| AStar.InitialKeeps | astar.py:50-59 | the initial state (start alone queued, g 0 at start, infinity elsewhere) satisfies the search invariant |
| AStar.PopKeeps | astar.py:66-67 | taking an entry keeps the invariant; its cell is inside and reached |
| AStar.RelaxKeeps | astar.py:74-85 | relaxing the edge to a neighbour reaches it and keeps the invariant |
| AStar.RelaxMeasure | astar.py:74-85 | a relaxation never increases the termination measure |
| AStar.JoinedExactly | astar.py:74-85 | after the neighbour loop every queued cell is reached and was queued before or joined during the loop, every newly reached cell joined, and the expanded cell did not |
| AStar.ExpandKeeps | astar.py:74-85 | the neighbour loop keeps the invariant, reaches every neighbour and makes progress |
| AStar.Expand | astar.py:74-85 | the search state is `Relaxed`, and the colours are the old ones with the cells that joined painted open |
| AStar.ReachedReachable | astar.py:78 | every reached cell is reachable from the start |
| AStar.Exhausted | astar.py:61-92 | with the queue empty, every reachable cell was expanded and the end is unreachable |
| AStar.AncestorsBelow | astar.py:32-33 | every predecessor of a cell is reached and scored strictly lower |
| AStar.AncestorsRoute | astar.py:32-35 | a reached cell and its predecessors form a route back to the start |
| AStar.ReconstructPath | astar.py:20-35 | every predecessor of the cell, start included, is painted as path, one frame each, in order |
| AStar.Paint | node.py:88-114 | one `make_*` or `reset` call: the cell takes the colour and every other cell keeps its own |
| AStar.Visit | astar.py:66-90 | one turn that does not reach the end: the state is relaxed from the popped cell, the joined cells painted open, the cell closed unless it is the start |
| AStar.CloseKeeps | astar.py:66-90 | such a turn keeps the invariant and the colouring, with the cell expanded, and the measure does not grow |
| AStar.ShadedExpanded | astar.py:85-90 | a cell newly shown closed is an expanded cell other than the start |
| AStar.Run | astar.py:61-90 | the loop stops when the least entry is the end's or the queue is empty; the invariant holds, one frame per expansion |
| AStar.ShowRoute | astar.py:69-71 | the end's predecessors are painted as path and the end as end, one frame per predecessor; no new closed cell |
| AStar.FoundColors | astar.py:69-71 | after painting the route every change is still on a reached cell |
| AStar.FoundRoute | astar.py:69-72 | a reached end and its predecessors form a route, so the end is reachable |
| AStar.Found | astar.py:69-72 | the end is reachable, the painted path is a route, every change is on a reachable cell |
| AStar.Unfound | astar.py:61-92 | the end is unreachable, the expanded cells are exactly the reachable ones, every reachable cell but the start shows closed |
| AStar.Algorithm | astar.py:37-92 | true exactly when the end is reachable; then the painted path is a route from end to start; the end is never expanded; only reachable cells change colour; newly closed cells are expanded cells other than the start; with no route every reachable cell but the start is closed and the start keeps its colour |

## Left out

- Draw.MakeGrid: requires rows != 0; the source raises ZeroDivisionError at draw.py:17.
- Draw.GetClickedPos: requires a non-zero cell width; the source raises ZeroDivisionError at draw.py:75-78. It has no contract of its own; `ClickRoundTrip` and `ClickInRange` state what it computes.
- MazeGenerator.GenerateRandomMaze: requires rows, cols >= 1; for smaller sizes `random.randint` raises ValueError at maze_generator.py:27.
- MazeGenerator.GenerateRandomMaze: the random draws are inputs: kx and ky for the two `randint` calls, and `shuffle(p)` for the order `random.shuffle` leaves at cell p. The properties hold for every choice; the distribution is not modelled.
- MazeGenerator.GenerateRandomMaze: the grid that the nested `add_walls` updates through its closure is passed in and returned as a value.
- MazeGenerator.GenerateRandomMaze: Python's recursion-depth limit, which a large maze can exceed, is not modelled.
- MazeGenerator.LoadPredefinedMaze: requires the maze to fit inside the grid; the source raises IndexError at maze_generator.py:46 otherwise.
- AStar.ReconstructPath: requires a predecessor map whose scores strictly decrease toward the start, so the parents are acyclic. The source would loop forever on a cycle; `algorithm` only ever builds such maps.
- AStar.Algorithm: the pygame event polling and `pygame.quit()` at astar.py:62-64 are left out.
- AStar.Algorithm: the `draw` callback is a ghost trace of frames. A frame names the cell expanded or painted, not the picture, so it does not record that the source draws before it paints the expanded cell closed (astar.py:87-90).
- AStar.Algorithm: the `PriorityQueue` is a sequence of (f, count, cell) entries with `MinIndex` taking the least; heap order is not modelled.
- AStar.Algorithm: the dictionaries keyed by node identity are maps keyed by position, which the grid makes one-to-one.
- AStar.Algorithm: `float("inf")` is the `Infinite` score.
- AStar.Algorithm: optimality of the route found is not claimed; only that it is a route and that one is found exactly when the end is reachable.
- AStar.Algorithm: requires every neighbour list to be fresh for the current colours, as main.py:60-62 ensures before the call.
- AStar.H: has no contract of its own; `HSymmetricZero` and `HConsistent` state its properties.
- Node.draw, draw_grid and draw: rendering to the window is not modelled.
- The main event loop in main.py is not modelled; `LoadedMazePassable` states what its R key does to the grid.
