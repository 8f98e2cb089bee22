# Grid A* path-finding visualiser, modelled in Dafny

This project models two small pygame programs that share one path-finding engine.

- `astar.py` is a free-drawing editor. Its grid is 100 by 100. Cells are linked in eight directions, and the user draws walls with the mouse.
- `chalisgaon_pygame_astar.py` is a road-map viewer. Its grid is 400 by 400 and starts as all walls. The corridors of a road graph are carved into it, and cells are linked in four directions.

Both programs then run the same `aStar` on the grid from a start cell to an end cell. `aStar` uses:
- a `PriorityQueue` of `(f, count, cell)` tuples;
- a mirror set `open_set_hash`;
- the `g_score`, `f_score` and `came_from` dictionaries.

When `aStar` takes the end off the queue, `backtrack` paints the chain of parents as the path. The search also repaints cells as it goes: open when queued, closed when expanded.

The modules follow the programs' structure:

| file | module | models |
|---|---|---|
| `cells.dfy` | `Cells` | the colour tags, cell positions, the two adjacency rules, `h`, `get_click_pos` |
| `neighbors.dfy` | `Neighbors` | the list `update_neighbors` computes, as a function of the colours, and its properties |
| `grid.dfy` | `Grids` | the grid of cells (class `Grid`): `make_grid`, the colour setters, `update_neighbors` and the loop over all cells |
| `queue.dfy` | `PriorityQueues` | the priority queue as a sequence of entries; `get` removes the entry first in `(f, count)` order |
| `chains.dfy` | `Chains` | the parent chain `backtrack` follows, walks along neighbour lists, the sum of the g scores |
| `search.dfy` | `Search` | the locals of `aStar` (`Frontier`), `backtrack`, one pass of the neighbour loop, the neighbour loop, taking from the queue, closing |
| `astar.dfy` | `GridAStar` | the main loop and `aStar` itself, and the space key (recompute all lists, then search) |
| `roads.dfy` | `RoadMap` | `draw_line_between` and the all-walls / nodes / edges setup of the road-map program |
| `clicks.dfy` | `Clicks` | the left and right mouse clicks of both programs, as transitions on `start`, `end` and the colours |

Modelling choices:
- A cell is identified by its position `Pos(row, col)`.
- Each Python `Cell` has two mutable fields, `color` and `neighbors`. The class `Grids.Grid` holds both as maps keyed by position, and its methods update them in place.
- One model covers both programs. `Adjacency` selects between them: `EightWay` is `astar.py` and `FourWay` is the road-map program.
- A score of `float("inf")` is an absent key of `gScore` or `fScore`.
- The `draw` callback only redraws the window, so it is left out.
- The road graph's node positions (`grid_positions`) and its edge list are inputs.

What is proved, in outline:
- The main loop of `aStar` keeps the invariant `Search.Searching`:
  - the mirror set equals the set of queued cells, and each cell is queued at most once, so `remove` never fails;
  - counts rise along the queue, so no two entries tie and cells are never compared;
  - `g[start] = 0`, and the start never gets a parent;
  - every parent lists its child as a neighbour and has a lower g score than it (exactly one lower at the moment the parent is set), and `f = g + h`;
  - every cell has the colour the search gives it.
- The loop terminates. Each turn either scores a new cell, or lowers twice the sum of the g scores plus the queue length.
- `aStar` returns True only after taking the end off the queue. Then `backtrack` has painted as path every cell of the parent chain before the end, the start included; the chain read forwards is a walk along the neighbour lists from the start to the end, and the end is painted as the end.
- `aStar` returns False only with an empty queue. Then the scored cells are closed under the neighbour lists, so no walk from the start reaches the end. All of them except the start are painted closed.
- Under the space key, the lists have just been recomputed. A walk along them is then exactly a route of adjacent, non-wall cells (`GridAStar.OpenRoute`). So success yields such a route, and failure means no such route exists.

## Model

| member | source | states |
|---|---|---|
| Cells.H | astar.py:99-102 | `h` is zero exactly when the two positions coincide, and at least the distance along either axis |
| Cells.HSymmetric | astar.py:99-102 | `h(a, b) == h(b, a)` |
| Cells.HTriangle | astar.py:99-102 | `h` satisfies the triangle inequality |
| Cells.AdjacentSymmetric | astar.py:73-93 | both adjacency rules are symmetric |
| Cells.HConsistentFourWay | chalisgaon_pygame_astar.py:94-97 | for a four-way step from p to q, `h(p, goal) <= 1 + h(q, goal)` (consistency) |
| Cells.HOverestimatesDiagonalStep | astar.py:88-93 | a diagonal neighbour, one step away, has `h == 2`, so `h` is not admissible for eight-way steps |
| Cells.ClickPos | astar.py:180-186 | the first pixel coordinate picks the row band and the second the column band of width `width // rows`; floor division by zero (rows 0, or fewer pixels than rows) gives None |
| Cells.ClickInsideWindow | astar.py:180-186 | when the number of rows divides the window width, every click inside the window lands on a grid cell |
| Cells.ClicksLandOnGrid | astar.py:188-189 | with WIDTH 800 and 100 rows, and with the road-map program's 400 rows (`ROWS = 400` at chalisgaon_pygame_astar.py line 201), every click inside the window lands on the grid |
| Neighbors.KeepSound | astar.py:73-93 | the probes keep only in-bounds, non-wall cells at probed positions, no more than there are probes |
| Neighbors.KeepComplete | astar.py:73-93 | every probed position that is in bounds and not a wall is kept |
| Neighbors.KeepDistinct | astar.py:73-93 | when no position is probed twice, no cell is kept twice |
| Neighbors.KeepAppend | astar.py:87-93 | probing the orthogonal then the diagonal positions keeps the orthogonal finds followed by the diagonal finds |
| Neighbors.CandidatesAdjacent | astar.py:75-93 | the probed positions are exactly those one step away under the rule, each probed once |
| Neighbors.NeighborsOf | astar.py:73-93 | reference definition: the list `update_neighbors` stores for a cell, the filter applied to the probed positions in source order; its properties are the `Neighbors.Neighbors*` rows |
| Neighbors.NeighborsSound | astar.py:73-93 | a listed neighbour is in bounds, not a wall, and one step away (Chebyshev 1 for eight-way, Manhattan 1 for four-way) |
| Neighbors.NeighborsComplete | chalisgaon_pygame_astar.py:74-87 | every in-bounds, non-wall cell one step away is listed |
| Neighbors.NeighborsOrdered | astar.py:73-93 | at most 4 (four-way) or 8 (eight-way) neighbours, none twice; the eight-way list is the four-way list (down, up, left, right) followed by the diagonal finds |
| Neighbors.HConsistentOnNeighbors | chalisgaon_pygame_astar.py:74-97 | along every listed four-way step, `h(p, goal) <= 1 + h(q, goal)` |
| Grids.Grid.constructor | astar.py:155-163 | `make_grid(rows, ·)` with rows > 0: a rows-by-rows grid whose cells are all empty with empty neighbour lists |
| Grids.Grid.SetColor | astar.py:49-68 | a colour setter changes that one cell's colour and nothing else |
| Grids.Grid.UpdateNeighbors | astar.py:73-93 | the cell's list becomes exactly the list of in-bounds non-wall cells one step away, in probe order; other lists are unchanged |
| Grids.Grid.ProbeOrthogonal | chalisgaon_pygame_astar.py:74-87 | the four probes down, up, left and right append exactly the passing cells, in that order |
| Grids.Grid.ProbeDiagonals | astar.py:87-93 | the loop over `dirs` appends the passing diagonal cells in the order (-1,-1), (-1,1), (1,-1), (1,1) |
| Grids.Grid.UpdateAllNeighbors | astar.py:228-231 | after the loop over every cell, every list matches the current colours |
| PriorityQueues.MinIndex | astar.py:127 | `get` takes an entry that comes strictly before every other in `(f, count)` order, so no tie ever reaches the cell |
| PriorityQueues.Remove | astar.py:127 | the queue after `get` is the old one without that entry, the others in their order |
| PriorityQueues.RemoveKeeps | astar.py:127-128 | removing an entry keeps counts rising and cells unique, and removes exactly its cell from the queued cells |
| PriorityQueues.PutKeeps | astar.py:142-145 | putting an entry with a fresh count for an unqueued cell keeps counts rising and cells unique, and adds its cell |
| Chains.Ancestors | astar.py:104-108 | reference definition: the cells `backtrack` visits from c, parent first, until a cell has no parent; terminates because g falls along the chain |
| Chains.Lineage | astar.py:104-108 | the parent chain read forwards ends at the cell it starts from |
| Chains.AncestorsAreLineage | astar.py:104-108 | the cells `backtrack` paints from c are the chain before c, all with lower g scores than c |
| Chains.LineageWalk | astar.py:135-139 | the chain read forwards starts at the one cell without a parent and is a walk along the neighbour lists |
| Chains.LineageFacts | astar.py:104-108 | the chain is a walk from the root to c through scored cells, and its cells before c are exactly the ones `backtrack` paints |
| Chains.ClosedSetTrapsWalks | astar.py:122-152 | a walk starting in a set closed under the neighbour lists stays in it |
| Search.Backtrack | astar.py:104-108 | every ancestor of the cell on the `came_from` chain, the start included, is painted as path; nothing else changes |
| Search.Improves | astar.py:136-138 | reference definition of the test `temp_g_score < g_score[neighbor]`, with an unscored neighbour standing for infinity |
| Search.Pushes | astar.py:138-142 | reference definition of the branch that queues: the neighbour improves and is not in `open_set_hash` |
| Search.Improve | astar.py:136-141 | the improved neighbour's g score is its parent's plus one; the queue, mirror set and counter are unchanged |
| Search.Push | astar.py:142-145 | the counter rises by one, and the entry `(f, count, cell)` with the new count is appended and its cell added to the mirror set |
| Search.ImproveScores | astar.py:135-141 | an improvement never touches the start, keeps the score invariant (a parent lists its child as a neighbour and has a lower g score, f = g + h) and only lowers scores |
| Search.ImprovePays | astar.py:138-140 | lowering an existing score lowers the sum of the g scores |
| Search.ImproveParents | astar.py:138-140 | after an improvement, every parent still has a lower g score than its child |
| Search.PushKeeps | astar.py:142-145 | queueing a scored, unqueued cell other than the start keeps the queue invariant (mirror set equals queued cells, each once, counts rise) and the score invariant |
| Search.Relaxed | astar.py:135-146 | a pass of the neighbour loop keeps every score key, and scores the neighbour whenever it improves |
| Search.RelaxKeeps | astar.py:135-146 | one pass keeps the search invariant, scores the neighbour, only lowers scores, pays for what it queues, and raises the counter by the number of entries put |
| Search.PushCaseKeeps | astar.py:142-146 | the branch that queues the neighbour keeps the search invariant with the neighbour painted open |
| Search.QueuedCaseKeeps | astar.py:137-142 | the branch where the neighbour is already queued keeps the search invariant without repainting |
| Search.RelaxSetsParent | astar.py:136-141 | a pass changes at most the neighbour's score; when it does, the neighbour's parent becomes current and its g score is current's plus one |
| Search.Relax | chalisgaon_pygame_astar.py:130-141 | one pass, imperatively: the new state is `Relaxed`, and the neighbour is painted open exactly when it is queued |
| Search.RelaxAll | astar.py:135-146 | the loop over a list of neighbours keeps the expanded cell scored |
| Search.RelaxAllKeeps | astar.py:135-146 | relaxing all neighbours keeps the search invariant, leaves the expanded cell off the queue, only lowers scores and pays for what it queues |
| Search.RelaxAllScores | astar.py:135-146 | after the neighbour loop every listed neighbour is scored and no score was removed |
| Search.Expand | astar.py:135-146 | the loop over `current.neighbors`, imperatively: the state and colours are those of relaxing every listed neighbour in list order |
| Search.Pop | astar.py:127-128 | `get` and `remove` shorten the queue by one and leave scores, parents and counter unchanged |
| Search.PopKeeps | astar.py:127-128 | the cell taken is in the mirror set (so `remove` does not fail) and scored; afterwards the queue and score invariants hold and, unless it is the end, the search invariant holds with it as the cell being expanded |
| Search.PopQueue | chalisgaon_pygame_astar.py:122-123 | taking an entry keeps the queue invariant |
| Search.PopPainted | astar.py:127-128 | the cell taken from the queue keeps the colour the search gives it while it is expanded: open, or its own colour if it is the start |
| Search.CloseKeeps | astar.py:149-150 | `set_close` on the expanded cell, except the start, restores the search invariant with no cell being expanded |
| Search.ClosePainted | astar.py:149-150 | after `set_close` every colour is the one the search gives it: closed for the expanded cell unless it is the start |
| Search.Init | astar.py:111-120 | the queue holds the single entry `(0, 0, start)`, the mirror set `{start}`, g is 0 at start only, no parents, counter 0; the entry's priority equals `f_score[start]` only when start is the end |
| Search.InitKeeps | astar.py:111-120 | the initial state satisfies the search invariant |
| Search.ExhaustedTrapsWalks | astar.py:122-152 | with the queue empty, the end is unscored, the scored cells are closed under the lists, every walk from the start stays among them, and all scored cells but the start are painted closed |
| Search.TraceFacts | astar.py:130-132 | with the end scored, its parent chain is a walk from the start to the end through scored cells, and its cells before the end are the ones `backtrack` paints |
| Search.TraceColors | astar.py:130-133 | after `backtrack` and `set_end`, the end is painted end and the chain before it path; unscored cells keep their colour; other scored cells are open or closed |
| Search.Progress | astar.py:122-150 | each turn of the main loop scores a new cell or lowers twice the score sum plus the queue length |
| GridAStar.Visit | astar.py:135-150 | the neighbour loop then `set_close`: the search invariant is restored, scores only drop, and the expanded cell is closed unless it is the start, which keeps its colour |
| GridAStar.FoundEnd | astar.py:130-133 | `backtrack` then `set_end`: the traced chain is a walk from the start to the end through scored cells, painted path but for the end; other scored cells are open or closed, unscored cells keep their colour |
| GridAStar.Turn | astar.py:127-150 | a turn of the loop ends the search exactly when the entry taken is the end (`TakesEnd`, both directions); otherwise the search invariant holds and the loop's measure drops |
| GridAStar.Run | astar.py:122-152 | the `while` loop ends; it reports success exactly when the end got a score, with the traced path; on failure the queue is empty |
| GridAStar.AStar | astar.py:110-152 | on success a walk from the start to the end, painted as path; on failure the cells scored from the start are closed under the lists, no walk from the start reaches the end, and all of them but the start are painted closed; cells never scored keep their colour |
| GridAStar.WalksAreRoutes | astar.py:228-231 | with lists just recomputed, a walk from an in-bounds cell is exactly a route of in-bounds, adjacent, non-wall cells |
| GridAStar.SearchRoutes | astar.py:228-232 | the search outcome read as routes: success gives a route from the start to the end; failure rules out every route from the start to the end |
| GridAStar.SpaceKey | astar.py:228-232 | the space key: recompute every list, then search; success yields a route from the start to the end over the walls at that moment, failure means none exists |
| RoadMap.DrawLineBetween | chalisgaon_pygame_astar.py:183-197 | exactly the in-bounds cells of column c1 between rows r1 and r2, and of row r2 between columns c1 and c2, become empty (including when r1 = r2 or c1 = c2); nothing else changes |
| RoadMap.ResetAlongColumn | chalisgaon_pygame_astar.py:187-191 | the row-wise loop resets exactly the in-bounds cells of column c between r1 and r2 |
| RoadMap.ResetAlongRow | chalisgaon_pygame_astar.py:193-197 | the column-wise loop resets exactly the in-bounds cells of row r between c1 and c2 |
| RoadMap.Span | chalisgaon_pygame_astar.py:188-189 | `range(r1, r2 + row_step, row_step)` runs from r1 to r2 in unit steps without leaving the interval |
| RoadMap.CorridorIsRoute | chalisgaon_pygame_astar.py:183-197 | the cells the two loops visit, in order, form a four-way route from the first position to the second, every cell on the L-line |
| RoadMap.OnSomeEdgeSnoc | chalisgaon_pygame_astar.py:219-221 | one more edge carves exactly its own corridor, if both ends are mapped |
| RoadMap.FillWalls | chalisgaon_pygame_astar.py:204-207 | step 1 makes every cell a wall |
| RoadMap.ResetNodes | chalisgaon_pygame_astar.py:213-216 | step 3 makes exactly the in-bounds node positions empty |
| RoadMap.BuildRoadGrid | chalisgaon_pygame_astar.py:204-221 | after the setup a cell is empty exactly when it is a node position or on the corridor of an edge with both ends mapped, and a wall otherwise |
| RoadMap.RoadsJoinEnds | chalisgaon_pygame_astar.py:218-221 | after the setup, each mapped edge with both ends on the grid joins them by a four-way route of non-wall cells |
| Clicks.LeftClick | chalisgaon_pygame_astar.py:233-242 | a left click changes only the clicked cell; start is designated before end; a newly designated cell is painted start or end; in the road-map program a wall is never designated; in the free-drawing program a click with both ends set paints a wall, never on an end |
| Clicks.RightClick | astar.py:216-225 | right-clicking the start or the end forgets it and keeps its colour; any other cell is reset to empty |
| Clicks.ClicksKeepMarked | chalisgaon_pygame_astar.py:233-253 | between searches, clicks keep every designated cell painted start or end, so no click makes a designated cell a wall |

## Left out

- Everything pygame does is left out: the window, `draw`, `draw_grid`, `Cell.draw`, the pixel fields `x`, `y` and `width`, and the event loop with `pygame.event.get()` and `pygame.quit()`. The `draw` callback passed to `aStar` and `backtrack` only redraws, so the model has no counterpart for it.
- The `K_z` restart is left out. It rebuilds the grid with `make_grid` (or calls `main` again), which the constructor and `BuildRoadGrid` already model.
- `chalisgaon_astar.py` is not part of this model. It uses osmnx, matplotlib, networkx's `astar_path` and a floating-point heuristic.
- `road_graph.py` is not part of this model. It does the osmnx loading and the floating-point projection. Its output `grid_positions` and the edge list of the graph are inputs to `BuildRoadGrid`.
- Clicks.LeftClick: one function covers both programs. Its cited lines are the road-map program's; the free-drawing program's version is `astar.py:203-214`.
- Clicks.LeftClick: the Python code dispatches on the mouse-button state and indexes `grid[row][col]`. Here the clicked position is a parameter, and `Cells.ClicksLandOnGrid` shows that it is on the grid.
- GridAStar.SpaceKey: the guard `start and end` of the key handler is a precondition here. The start and the end are given as positions.
- GridAStar.AStar: path optimality is not proved.
  - For the eight-way program it does not hold: `h` overestimates a diagonal step (`Cells.HOverestimatesDiagonalStep`).
  - For the four-way program it is not proved either. A queued cell whose score improves keeps its old, higher priority in the queue (`astar.py:142`), so the queue order is not the order of current f scores that the usual proof needs.
- GridAStar.AStar: the returned path and the set of scored cells are ghost outputs that describe the state; the Python function returns only the boolean.
- Python's `PriorityQueue` is a binary heap. The model keeps the entries in insertion order and picks the one first in `(f, count)` order. The entry taken is the same, because no two entries share a `(f, count)` key.

Where the code and its usual description differ, the model follows the code:
- `backtrack` paints the start as path as well. The start is the last cell reached through `came_from`, and it is painted before the loop ends.
- The queue never holds two entries for one cell. A cell whose score improves while queued is not queued again (`astar.py:142`): it keeps its first entry, with the old priority.
- The start's entry has priority 0, not `f_score[start]`.
- The end cell is painted open while it waits in the queue, and `set_end` repaints it at the end. Right-clicking the start or the end forgets the selection but leaves the colour. In the road-map program, right-clicking a wall resets it to empty.
