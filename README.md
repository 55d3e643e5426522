# Maze generator — a Dafny model

This project models `MazeGenerator` from `app.py`. The class:

- carves a perfect maze into a grid by randomised depth-first search;
- opens an entrance at (1, 0);
- opens a random choice of boundary exits;
- finds a path from the entrance to every exit with A*.

## The grid

The grid is `(2 * height + 1) x (2 * width + 1)` cells, each a wall or open. It is addressed as `maze[row, col]`.

- **Rooms** sit at odd row and odd column.
- **Passages** have exactly one odd coordinate.
- **Junctions** are the cells with two even coordinates. They always stay walls.

## Files

- `grid.dfy` (module `Grid`): positions, cells, walks over open cells, shortest walks, and the Manhattan heuristic with its consistency and admissibility.
- `carving.dfy` (module `Carving`): rooms, passages, the move set of `_dfs`, and the shape the carving keeps, stated over values. It proves:
  - every room is reached;
  - every room is reachable through the carved passages.
- `search.dfy` (module `Search`): the parts of `_astar` that do not touch the maze object:
  - the heap pop;
  - the invariants over `came_from`, `cost_so_far` and the frontier;
  - the relaxation loop;
  - the path reconstruction;
  - the proof that the cost of the popped goal is optimal.
- `maze.dfy` (module `Maze`): the class `MazeGenerator`. It has the source's fields:
  - `maze` is an `array2` written in place;
  - `visited`, `exits` and `paths` are reassigned by the methods;
  - ghost fields record the carved passages and the carving tree.

## Randomness

`random.shuffle` and `random.sample` are parameters:

- `shuffle(x, y)` is the order that `random.shuffle` leaves the four moves in when room (x, y) is carved. Each room is carved exactly once, so this is as general as a stream of shuffles.
- `sample(pool, k)` is the positions that `random.sample` draws: any k distinct positions of the pool.

## What is proved

- **Carving.** After `generate_maze`:
  - the open cells are exactly the rooms, the carved passages, the entrance and the drawn exits;
  - every carved passage joins two rooms;
  - there is one carved passage fewer than rooms, so rooms and passages form a tree;
  - the wall junctions (two even coordinates) stay walls;
  - every open cell is reachable from the entrance;
  - the only open boundary cells are the entrance and the drawn exits;
  - the exits are distinct perimeter cells, `min(num_exits, 2 * width + 2 * height)` of them, each reachable from the entrance.
- **Exit draw.** `_generate_exits` draws `min(num_exits, |candidates|)` distinct candidates. When fewer than `num_exits` can be drawn, every candidate becomes an exit.
- **`_astar`.**
  - It returns no path exactly when the goal cannot be reached over open cells.
  - Otherwise it returns a shortest walk that repeats no cell.
  - The search terminates, although it has no closed set and may re-open cells.
- **`find_all_paths`.** It keeps a shortest path for exactly the reachable exits, in exit order.

The entrance (1, 0) is itself an exit candidate: its inward room (1, 1) is always open. So an exit may be drawn on the entrance. `ExitCandidates` states this.

## Model

| member | source | states |
|---|---|---|
| Maze.MazeGenerator.constructor | app.py:15-31 | the grid is (2h+1) x (2w+1) and all wall; nothing visited or carved; no exits or paths; start is (1, 0). This is exactly the fresh state `GenerateMaze` starts from |
| Maze.MazeGenerator.GenerateMaze | app.py:33-44 | fails exactly when there are no rooms or `num_exits` is negative, and then leaves `exits` as it was. With no rooms, only (1, 1) is marked visited and the grid is untouched. Otherwise:<br>• the visited rooms are all the rooms, and all are open;<br>• a grid cell is open iff it is a room, a carved passage, the entrance or a drawn exit;<br>• every carved passage joins two rooms, and there is one fewer of them than rooms;<br>• junction cells stay walls;<br>• every open cell is reachable from the entrance;<br>• a boundary cell is open iff it is the entrance or a drawn exit;<br>• on success, the exits are distinct perimeter cells, `min(num_exits, 2w + 2h)` of them, each reachable from the entrance |
| Maze.MazeGenerator.Connected | app.py:33-44 | from the carving's shape, the entrance and the exits: all rooms open, every open cell reachable from the entrance, boundary open iff entrance or exit, junctions walls, and every exit on the perimeter and reachable |
| Maze.OpenCellsReachable | app.py:33-44 | every cell that is a room, a carved passage, the entrance or an exit next to a visited room is reachable from the entrance |
| Maze.EntranceReaches | app.py:37-38 | a walk over open cells runs from the entrance through room (1, 1) to every visited room |
| Maze.MazeGenerator.Dfs | app.py:46-61 | keeps the carving invariant: open cells are exactly the visited rooms and carved passages. It visits the room and counts one passage per newly visited room beyond it. Every room it newly visits ends with all four moves tried |
| Maze.MazeGenerator.EnterRoom | app.py:48-49 | room (x, y) is added to `visited`, numbered, and opened; the carving shape is kept |
| Maze.MazeGenerator.TryMove | app.py:55-61 | a move that stays inside the outer ring onto an unvisited room carves the passage and recurses. Afterwards the move's target room, if any, is visited, and the counts stay in step |
| Maze.MazeGenerator.OpenPassage | app.py:60 | opens the one new passage between the two rooms and records the parent; the shape is kept with the child pending |
| Carving.Between | app.py:60 | the cell (y + dy // 2, x + dx // 2) is the passage joining the two rooms and lies next to both |
| Maze.MazeGenerator.CarvedInside | app.py:46-61 | while carving, every open cell lies strictly inside the outer ring and has an odd coordinate |
| Carving.ShuffleCloses | app.py:52-55 | trying every move of a shuffle tries all four moves |
| Carving.AllRoomsReached | app.py:46-61 | a set of rooms holding (1, 1) and closed under moves holds every room, so the carving reaches the whole maze |
| Carving.RoomReachable | app.py:46-61 | every visited room has a walk from room (1, 1) over carved passages, following the parent tree |
| Carving.EnterKeepsShape | app.py:48-49 | entering the pending room keeps rooms numbered, passages joining visited rooms, and the parent tree |
| Carving.CarveKeepsShape | app.py:60-61 | opening the passage to an unvisited neighbour keeps the shape, and that passage was not open before |
| Maze.MazeGenerator.ExitCandidates | app.py:65-78 | the pool is exactly the side and end cells whose inward room is open, without repeats. With all rooms open, it holds 2w + 2h cells. It contains the entrance whenever room (1, 1) is open |
| Maze.MazeGenerator.SideCandidates | app.py:68-72 | exactly the left and right edge cells at odd rows whose inward cell is open, without repeats; 2h of them when all rooms are open |
| Maze.MazeGenerator.EndCandidates | app.py:74-78 | exactly the top and bottom edge cells at odd columns whose inward cell is open, without repeats; 2w of them when all rooms are open |
| Maze.SlotInward | app.py:65-78 | the cell inward of an edge slot is a room next to it, and the slot is on the perimeter |
| Maze.MazeGenerator.GenerateExits | app.py:63-85 | fails exactly when `num_exits` is negative, changing nothing. Otherwise it draws min(`num_exits`, pool size) distinct candidates (all of them when fewer than asked) and opens exactly those cells. The pool has 2w + 2h cells when every room is open |
| Maze.SelectionCovers | app.py:81 | a draw of n distinct positions out of n takes every position |
| Maze.MazeGenerator.OpenExits | app.py:83-85 | a cell is open afterwards iff it was open before or is an exit |
| Grid.Heuristic | app.py:87-89 | the Manhattan distance is zero exactly between equal positions and one between adjacent ones |
| Grid.HeuristicConsistent | app.py:87-89 | one move changes the heuristic by at most one |
| Grid.HeuristicAdmissible | app.py:87-89 | the heuristic never exceeds the number of moves of a walk to the goal |
| Maze.MazeGenerator.GetNeighbors | app.py:91-104 | the result holds exactly the in-grid open cells one step from the position, each once |
| Maze.MazeGenerator.FindAllPaths | app.py:106-117 | keeps one path per reachable exit, in exit order. Each kept path is a shortest walk from the entrance to its exit, and an exit gets a path iff it is reachable |
| Maze.MazeGenerator.AStar | app.py:119-151 | returns no path iff the goal is unreachable over open cells; otherwise a shortest walk from start to goal |
| Search.PopMin | app.py:127 | removes one least entry under Python's tuple order and returns the rest as the same multiset minus that entry |
| Search.PopKeepsOthers | app.py:126-127 | after the pop, the popped cell is a key; every other key stays waiting or settled; the frontier invariant is kept |
| Search.Expand | app.py:132-139 | relaxing all neighbours keeps the tree and frontier invariants and settles the current cell. It only adds neighbours as new keys, and either changes nothing or makes progress |
| Search.Relax | app.py:133-139 | lowering a neighbour's cost, recording its predecessor and pushing it keeps the tree, frontier and waiting-or-settled invariants |
| Search.MeasureDrops | app.py:126-139 | each pass of the search loop lowers (unknown cells, cost budget, frontier size) lexicographically, so the loop ends |
| Search.ProgressStep | app.py:135-136 | a new key or a lowered cost is progress |
| Search.FrontierWitness | app.py:126-139 | along any walk from start, some cell has a cost no higher than its index and is the walk's end or waits on the heap |
| Search.CostIsOptimal | app.py:126-139 | when the heap is empty or the goal was just popped as the least entry, no walk to the goal is shorter than its cost |
| Search.WalkBack | app.py:141-151 | following `came_from` back from the goal and reversing yields a walk from start to goal without repeats, at most the goal's cost long |
| Search.ReversedWalk | app.py:145-150 | a backward chain with strictly falling costs reverses into a walk without repeats |
| Search.Reversed | app.py:150 | the reversal has the same length and the mirrored elements |

## Left out

- `visualize_maze`, the matplotlib drawing, the logging calls and the example run at the end of `app.py` are not modelled. They are output only.
- The try/except of `generate_maze` logs and re-raises. The model returns `ok = false` instead, with the state the failing step leaves.
- The pseudo-random generator is not modelled. `shuffle` and `sample` are parameters constrained only to be a permutation and a distinct draw.
- The binary-heap layout is not modelled. The frontier is a sequence, and `PopMin` returns the least entry under the same tuple order `heappop` uses.
- The default arguments of `__init__` (`width=10, height=10, num_exits=1`) are not modelled. Dafny has no default parameters, so the constructor takes all three explicitly.
- numpy's float cells are the two values `Wall` and `Open`.
- Python's recursion limit, which large mazes hit in `_dfs`, is not modelled.
- Maze.MazeGenerator.constructor: takes natural `width` and `height`. Negative sizes make numpy reject the shape, and that failure is not modelled.
- Maze.MazeGenerator.GenerateMaze: requires a freshly constructed generator. A second call on the same object is not modelled.
- Maze.MazeGenerator.ExitCandidates: requires at least one row and one column of rooms. `generate_maze` fails in `_dfs` before reaching it otherwise.
- Maze.MazeGenerator.GenerateExits: requires at least one row and one column of rooms, for the same reason.
- Maze.MazeGenerator.GetNeighbors: states the neighbours as a set without repeats, not the order (right, down, left, up) they are listed in.
- Maze.MazeGenerator.AStar: states that the path is a shortest walk, not which of several shortest walks the heap's tie-breaking selects.
- Maze.MazeGenerator.FindAllPaths: the kept paths are stated as shortest walks, not as the particular walk `_astar` returns.
