# A* grid search — a Dafny model of `alg.py`

This project models the A* search in `alg.py` of a small path-finding demo.
An `AStar` object holds an occupancy grid, a start cell and a target cell. Its
`find_path` keeps an open list of search nodes. On each step it settles the
first node of least `f = g + h`. It returns the path to the first settled node
at the target, or `None` once the open list is empty. Each move costs 1 and the
heuristic is the Manhattan distance, also when diagonal moves are on.

The model is split by component:

- `wrappers.dfy` (`Wrappers`): `Option`, for parent links and failed lookups.
- `nodes.dfy` (`Nodes`): cells (`Pos`), the `Node` record with `F() = g + h`, the move table `MOVES` and `MoveSet`, `Manhattan`, and the rectangular `Grid` with its bounds and walkability tests.
- `arena.dfy` (`Arena`): the nodes of one run, kept as a sequence addressed by index.
  - Each node stores its parent's index, which is always smaller than its own.
  - `WfArena` is the run invariant: the start node comes first, and every later node is a walkable child, one move away from its parent.
  - Parent-chain walks (`Chain`, `Root`, `PathTo`) and the route lemmas live here too.
- `frontier.dfy` (`Frontier`): the meaning of the scans the source performs over the open list, as functions:
  - `in` and `next(...)` with positional equality (`FirstMatch`)
  - `min` by `f` (`FirstMin`)
  - `list.remove` (`RemoveFirstMatch`)
  - one pass of the neighbour loop (`TryMove`) and the whole loop (`Expand`)
- `astar.dfy` (`AStarSearch`): the `AStar` class.
  - Its fields are the ones `alg.py` updates in place: `openList`, `closedList`, `path`, and `arena` for the node objects.
  - Its methods are `AddNeighbors`, `SettleNext` (lines 49-52 of `find_path`), `ReconstructPath` (lines 55-59) and `FindPath`.
  - Each method has a `for`/`while` loop or a state change, proved against the functions above.

Node equality in the source is positional: `__eq__` compares `position` only. The model compares `pos` wherever the source uses `==`, `in`, `next` or `remove` on nodes. Python's `min` keeps the first of several equal keys, and `FirstMin` does the same. `list.remove` deletes the first entry at the selected node's *position*, which may be an older duplicate; `RemoveFirstMatch` does the same.

The code departs from textbook A* in several ways, and the model follows the code. The code has:
- no Euclidean heuristic and no √2 step cost;
- no check against the closed list;
- no removal of the old entry when a better one is found, since entries are only appended;
- no explored-trace builder.

## Model

| member | source | states |
|---|---|---|
| Nodes.MoveSet | alg.py:13-23 | with diagonal moves off the move set is exactly the 4 orthogonal unit vectors, with them on all 8 unit vectors; no vector repeats |
| Nodes.UnitStepListed | alg.py:13 | every orthogonal unit step is among the first four entries of MOVES and every unit step is in MOVES |
| Nodes.Manhattan | alg.py:25-26 | the distance is a natural number and is zero exactly when the two cells are equal |
| Nodes.ManhattanSymmetric | alg.py:25-26 | the distance does not depend on the order of its arguments |
| Arena.Root | alg.py:55-57 | walking parent links from a node stops at a parentless node at or before it |
| Arena.Reverse | alg.py:59 | the reversed list has the same length and holds element `k` at position `len - 1 - k` |
| Arena.ChainReachesStart | alg.py:36-46 | in a well-formed arena every parent walk ends at the start node (start cell, g = 0, no parent) and each node's g equals the number of parent links |
| Arena.ReverseChain | alg.py:55-59 | collecting positions along the parent links, appending the start cell and reversing yields the forward route to the node |
| Arena.PathToIsRoute | alg.py:31-38 | the route to any node starts at the start cell, ends at the node, steps by one allowed move, has every cell after the first in bounds and walkable, and has g + 1 cells |
| Arena.ReconstructedRoute | alg.py:54-60 | the list built for a goal node at the target is that goal's route from start to target, of length g + 1 |
| Frontier.FirstMatch | alg.py:41 | the result is the index of the first open entry at the given cell, or none when no entry has that cell |
| Frontier.FirstMin | alg.py:49 | the result indexes an open entry of least f, and every earlier entry has a strictly larger f |
| Frontier.RemoveFirstMatch | alg.py:51 | exactly one entry is removed, the first at the given cell; all others keep their order |
| Frontier.Expand | alg.py:29-42 | expansion only adds nodes to the arena, keeps existing nodes, and leaves every open entry addressing a node |
| Frontier.TryMoveAppendsIff | alg.py:31-42 | a move appends a node iff the new cell is in bounds and walkable and either no open entry has that cell or the new f is below the first such entry's f; otherwise nothing changes |
| Frontier.ExpandOnlyAppends | alg.py:41-42 | the old open list is a prefix of the new one, and the new entries are exactly the new nodes in creation order |
| Frontier.ExpandChildren | alg.py:31-38 | every added node is in bounds, walkable, one move from its parent, has g = parent g + 1, h = Manhattan to the target, and the expanded node as parent |
| Frontier.ExpandPreservesWf | alg.py:29-42 | expanding a node of a well-formed arena keeps it well formed |
| Frontier.DuplicateEntriesCoexist | alg.py:41-42 | when a move appends a node for a cell that already has an open entry, that entry and its node stay in place and the new entry is for the same cell |
| Frontier.RemovalMayKeepSelected | alg.py:49-51 | for every open list where an older entry at the selected node's cell precedes it, `remove` takes that older entry and the selected node stays on the open list, one place forward |
| AStarSearch.AStar.constructor | alg.py:16-23 | a new object holds the grid and endpoints, the move set for the diagonal flag, and empty open list, closed list and path |
| AStarSearch.AStar.AddNeighbors | alg.py:29-42 | the new arena and open list are those of `Expand` over the object's moves, and the run invariant is kept |
| AStarSearch.AStar.SettleNext | alg.py:49-52 | the selected node is the first open entry of least f; the open list loses exactly its first entry at that cell; the closed list gains the selected node |
| AStarSearch.AStar.ReconstructPath | alg.py:55-59 | the path list becomes the reverse of its old contents, the chain positions and the start cell; from an empty list at a target node it is the route to the target, and for the start node it is `[start]` |
| AStarSearch.AStar.FindPath | alg.py:44-62 | a found path starts at the start cell, ends at the target, steps by allowed moves with every cell after the first in bounds and walkable, is the route of the last settled node and has its g + 1 cells; that node is the first settled node at the target, and with no path found no settled node is at the target; "no path" only with an empty open list; start equal to target gives `[start]` |

## Left out

- environment.py is not part of this model: it is the pygame window, event loop, mouse-to-cell mapping, obstacle toggling, drawing and process exit. It only builds a grid and calls `AStar(...).find_path()` once per fresh object.
- AStarSearch.AStar.FindPath: the loop runs for at most `fuel` iterations and reports `OutOfFuel` when they are used up. Since the closed list is never read, settled cells can be re-opened with a larger g, and the loop need not end when the target is unreachable. Termination is therefore not modelled.
- AStarSearch.AStar.FindPath: modelled for one call on a fresh object, the way the caller uses it. A second call would reuse the stale lists.
- AStarSearch.AStar.FindPath: the whole run is not tied to a single reference function. Each step is tied to `FirstMin`, `RemoveFirstMatch` and `Expand` through the contracts of `SettleNext` and `AddNeighbors`.
- Optimality, admissibility and consistency of the heuristic are not proved. In diagonal mode, unit step cost with the Manhattan heuristic is not admissible.
- Ragged grids are excluded by the `Grid` type. The only caller builds a rectangular 10×10 grid (environment.py:24); on a ragged grid the source ignores cells past row 0's width and raises `IndexError` only when it probes a short row past its end. Start and target cells are not checked by the source and are not restricted here.
- Node objects become arena entries addressed by index. A candidate node enters the arena only when it is appended to the open list; the others are never referenced again.
- Python integers are unbounded, so `int` models them exactly. There is no floating point in the code.
