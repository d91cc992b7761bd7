# Maze: a verified model of the game core of main.js

main.js is a small first-person maze game. On load it does five things:

- builds a 24 x 24 grid of cells, each starting with four closed walls;
- carves a maze into the grid with a randomised depth-first search from cell (0, 0);
- turns every closed wall flag into a box-shaped wall mesh;
- places the camera at the centre of cell (0, 0);
- picks as exit the first cell at the largest breadth-first distance from (0, 0).

Every frame, each held movement key proposes a small step. A step is kept only when the moved point is not inside any wall box grown by the camera's radius.

This project models that core in Dafny and proves what it guarantees:

- the carved passages form a spanning tree of the lattice;
- shared walls always agree from both sides;
- the outer boundary stays closed;
- there is one wall box per closed flag, and no other;
- the exit is the first cell, in the search's FIFO enqueue order, at maximum graph distance;
- the collision test is exactly the inflated-box test;
- a camera that starts clear of the walls stays clear.

Modules, in dependency order:

- `Seqs` (seqs.dfy): repeat-free sequences, sortedness, and `Repeat`.
- `Lattice` (lattice.dfy):
  - cells, wall flags and directions;
  - the grid updates `grid[x][z].visited = true` and `walls[dir] = false`;
  - the wall invariants and their preservation;
  - the grid constructor.
- `Reach` (reach.dfy):
  - moves through open walls;
  - balls of radius k, graph distance and reachability;
  - the neighbour list of findFarthestCell;
  - `Enqueue`, how one pass of the search extends its FIFO enqueue list, and `Expand`, the whole FIFO enqueue order from a start cell;
  - the breadth-first-search invariant and its lemmas, and the trace of enqueue lists that ties a run of the loop to `Expand`.
- `Carving` (carving.dfy): what one call of generateMaze achieves, and the spanning-tree theorem for `generateMaze(0, 0)`.
- `Geometry` (geometry.dfy):
  - constants, world coordinates and wall boxes;
  - the order in which the placement loop emits boxes;
  - the collision predicate;
  - key movement as a function.
- `Game` (maze.dfy):
  - the `Maze` class, holding the grid and the wall list that the script mutates;
  - its methods for generation, wall placement, the breadth-first search, collision and movement;
  - `PlaceExit`, which places the exit;
  - `MakeMaze`, which builds the maze and its walls;
  - `SetUp`, the script's load-time sequence.

The generator's random direction order is a parameter `shuffle: Pos -> Perm`. `Perm` is any ordering of the four directions. The generator enters each cell exactly once, so a per-cell ordering covers every run of `sort(() => Math.random() - 0.5)`. That call always returns some permutation of its four elements.

Lengths are exact reals. Grid indices are unbounded integers.

## Model

| member | source | states |
|---|---|---|
| Lattice.Cleared | main.js:76 | the chosen flag is false afterwards and the other three flags are unchanged |
| Lattice.Opposite | main.js:77-80 | the neighbour's flag for a shared wall is a different side, and moving in d then in Opposite(d) returns to the start |
| Lattice.Move | main.js:70-74 | the neighbour in a direction differs from the cell by one step along exactly one axis; top and bottom keep x, left and right keep z |
| Lattice.MarkVisited | main.js:67 | only the cell at p changes, and in it only `visited` becomes true |
| Lattice.ClearWall | main.js:76-80 | only the cell at p changes, and in it only the flag for d is cleared |
| Lattice.OpenBetween | main.js:76-80 | the flag for d of the cell and the opposite flag of its neighbour are both cleared; neither cell's visited flag changes; every other cell is unchanged |
| Lattice.NewGrid | main.js:57-63 | the grid is n x n, and every cell is unvisited with all four walls closed |
| Lattice.PristineFacts | main.js:57-63 | the initial grid is symmetric (neighbours agree on each shared wall) and has a closed boundary; it has no visited cell and no open passage |
| Lattice.MarkVisitedEffect | main.js:67 | marking the current cell keeps symmetry, the closed boundary and "unvisited cells are fully walled"; it adds exactly that cell to the visited set; walls and passages are unchanged |
| Lattice.OpenBetweenEffect | main.js:75-80 | opening the wall to an unvisited neighbour keeps symmetry and the closed boundary, only clears flags, changes no visited flag, and adds exactly one new passage |
| Lattice.OpenBetweenCells | main.js:76-80 | opening clears exactly the two flags of the shared wall, one in each cell, and nothing else |
| Lattice.OpenBetweenSymmetric | main.js:76-80 | clearing both halves of a shared wall keeps every pair of neighbours in agreement |
| Lattice.OpenBetweenPassages | main.js:76-80 | opening a closed shared wall adds its single name to the set of passages |
| Lattice.CellsCount | main.js:57-63 | an n x n grid has n * n cells |
| Reach.Neighbours | main.js:135-139 | at most four neighbours are listed, all inside the grid |
| Reach.NeighboursExact | main.js:135-139 | the listed neighbours are exactly the cells one move through an open wall of the current cell away |
| Reach.Enqueue | main.js:140-145 | handling a list of neighbours in turn keeps the enqueue list as a prefix and appends each neighbour not yet enqueued at its turn |
| Reach.EnqueueMembers | main.js:140-145 | after the enqueue, the list holds exactly the cells it held before and the handled neighbours |
| Reach.EnqueueNext | main.js:140-144 | handling one more neighbour appends it exactly when it is not enqueued yet, and otherwise changes nothing |
| Reach.EnqueueListed | main.js:140-144 | enqueuing grid cells keeps the enqueue list free of repeats and inside the grid |
| Reach.Expand | main.js:131-146 | the FIFO enqueue order from a list: each dequeued cell in turn appends its unseen listed neighbours; the given list stays a prefix |
| Reach.TraceNext | main.js:131-145 | one more pass of the loop, on the head cell, extends the recorded trace of enqueue lists by one FIFO step |
| Reach.TraceExpand | main.js:131-146 | every enqueue list of a trace leads to the same FIFO enqueue order as the first |
| Reach.TracedExpand | main.js:131-146 | once the head has reached the end of the list, the enqueue list of a traced run is the FIFO enqueue order from the start |
| Reach.EnqueueSearch | main.js:140-145 | enqueuing open neighbours of the head cell, one level further out, keeps the search invariant |
| Reach.EnqueueSearchStep | main.js:140-144 | one neighbour, enqueued one level further out unless already enqueued, keeps the search invariant |
| Reach.SearchPass | main.js:131-145 | one pass of the loop keeps the search invariant with the head moved one on |
| Reach.SearchPassOver | main.js:135-145 | the same for any list holding exactly the open neighbours of the head cell |
| Reach.ExpandSearch | main.js:131-146 | from any state that meets the search invariant, running the search to the end gives levels that meet it with the queue empty |
| Reach.ExpandReach | main.js:126-148 | the FIFO enqueue order from s holds exactly the cells reachable from s |
| Reach.ReachTrans | main.js:126-148 | reachability through open walls is transitive |
| Reach.ReachOpens | main.js:75-81 | opening more walls keeps every reachable cell reachable |
| Reach.AtDistUnique | main.js:126-148 | a cell has at most one graph distance |
| Reach.SearchStart | main.js:127-130 | the queue holding only the start cell, at distance 0, satisfies the search invariant |
| Reach.SearchPush | main.js:140-144 | enqueuing an unseen neighbour of the head cell at distance + 1 keeps the search invariant: no repeats, each cell at its graph distance, levels non-decreasing |
| Reach.SearchAdvance | main.js:131-145 | once every neighbour of the head cell is enqueued, the invariant holds with the head moved one on |
| Reach.ListedFits | main.js:131-146 | no more than n * n cells are ever enqueued, so the loop ends |
| Reach.SearchDone | main.js:131-146 | when the queue is empty, the enqueued cells are exactly the cells reachable from the start |
| Reach.SearchBound | main.js:131-146 | when the queue is empty, no reachable cell is farther than the largest level |
| Carving.CarveStart | main.js:67 | marking an unvisited cell begins a carve from it: it is visited, reachable from itself, and no passage is opened |
| Carving.CarveShrinks | main.js:75-81 | the recursive call starts from a cell that was unvisited, so the set of unvisited cells strictly shrinks and the recursion ends |
| Carving.CarveChild | main.js:75-81 | opening the wall to an unvisited neighbour and carving from it extends the carve; the new cells are reachable and outnumber the new passages by one |
| Carving.TriedAll | main.js:69-83 | after all four directions are tried, every in-grid neighbour of the cell is visited |
| Carving.SpanningTree | main.js:57-85 | after generateMaze(0, 0) on the initial grid, every cell is visited and reachable from (0, 0), and exactly n * n - 1 shared walls are open |
| Geometry.CellFlagsExact | main.js:107-114 | one cell emits exactly the flags of its closed sides, each once |
| Geometry.ColumnFlagsExact | main.js:98-115 | the first z cells of a column emit exactly their closed sides, each once |
| Geometry.GridFlagsMembers | main.js:97-116 | the first x columns emit exactly the closed flags whose cell lies in them |
| Geometry.GridFlagsDistinct | main.js:97-116 | no flag is emitted twice |
| Geometry.CellFlags | main.js:107-114 | one cell emits at most four flags, in the order top, bottom, left, right; the definition keeps only its closed sides |
| Geometry.ColumnFlags | main.js:98-115 | a column's flags are its cells' flags in increasing z; the definition has no contract, and ColumnFlagsExact states what it holds |
| Geometry.GridFlags | main.js:97-116 | the grid's flags are its columns' flags in increasing x; the definition has no contract, and GridFlagsMembers and GridFlagsDistinct state what it holds |
| Geometry.OneBoxPerFlag | main.js:97-116 | the wall list holds one box for every closed wall flag of the grid, and no other box |
| Geometry.BoxesAppend | main.js:88-94 | the boxes of two joined flag lists are the two box lists joined |
| Geometry.Centre | main.js:100-101 | the world coordinate `(i - n / 2) * cellSize + cellSize / 2` of a column or row; the definition has no contract, and CentreInside states its bounds |
| Geometry.CentreInside | main.js:100-101 | the whole of every cell lies within the maze's extent of n * cellSize centred on the origin |
| Geometry.WallBox | main.js:107-114 | the box for one side: offset from the cell centre by half a cell plus half the overlap, `full` long and `wallThickness + overlap` thick; the definition has no contract, and WallBoxSpans states its shape |
| Geometry.WallBoxSpans | main.js:104-114 | a wall box covers the midpoint of its side, and its long extent reaches past both ends of that side |
| Geometry.CentreClear | main.js:99-114 | no wall box, for any flag, grown by the camera radius reaches the centre of any cell |
| Geometry.CellCentreClear | main.js:178-187 | a cell centre collides with no list of wall boxes |
| Geometry.StartIsCellCentre | main.js:119-123 | the camera's start position is the centre of cell (0, 0) |
| Geometry.MidpointHits | main.js:107-114 | a box reaches the midpoint between two neighbouring cells exactly when it is the box of their shared wall, from either side |
| Geometry.PassageBlocked | main.js:178-187 | in a symmetric grid, the midpoint between two neighbouring cells collides exactly when their shared wall is closed |
| Geometry.Hits | main.js:180-184 | the per-wall test: the point is strictly inside the box grown by the camera radius, on both x and z |
| Geometry.Collides | main.js:179-186 | some wall of the list is hit; the definitions have no contract, and Game.Maze.CheckCollision is proved against them |
| Geometry.RightOf | main.js:206 | forward crossed with up: perpendicular to forward, of the same length, on its right-hand side |
| Geometry.Proposals | main.js:207-211 | at most four steps, one per held key, in the order w, s, a, d |
| Geometry.Advance | main.js:207-212 | each step in turn is kept only when the moved point does not collide; the definition has no contract, and AdvanceAppend and AdvanceKeepsClear state what it does |
| Geometry.AdvanceAppend | main.js:207-212 | applying the key steps a + b means applying a and then b from where a stopped |
| Geometry.AdvanceKeepsClear | main.js:207-212 | guarded steps never move a clear camera into a wall |
| Game.LevelOfMissing | main.js:127-128 | the recorded distance is -1 exactly for cells not yet enqueued |
| Game.LevelOfAt | main.js:141-143 | each enqueued cell's recorded distance is the level it was enqueued with |
| Game.Best | main.js:133-134 | the position of the running answer among the first upto dequeued cells lies among them |
| Game.BestIsFirstMax | main.js:133-134 | the strict `>` keeps a largest level, and the first one: every earlier level is strictly smaller |
| Game.LeadsNext | main.js:132-134 | dequeuing one more cell keeps the running answer equal to the first maximum of the levels seen so far |
| Game.Farthest | main.js:146-147 | when the search ends, the answer is a cell at the largest graph distance from the start |
| Game.FarthestDetermined | main.js:131-147 | over one enqueue order, two answers that both are the first cell at the largest distance are the same cell at the same distance |
| Game.Maze.constructor | main.js:55-63 | the grid is size x size with every cell unvisited and walled, and the wall list is empty |
| Game.Maze.GenerateMaze | main.js:66-84 | from an unvisited cell, carving visits a set of new cells, all reachable from it, through one fewer newly opened wall; it keeps symmetry and the closed boundary; it leaves no unvisited neighbour of the start cell |
| Game.Maze.BuildMaze | main.js:57-85 | after generateMaze(0, 0) every cell is visited and reachable from (0, 0), exactly size * size - 1 walls are open, the grid is symmetric and the boundary is closed |
| Game.Maze.AddWall | main.js:88-94 | exactly one box with the given centre and extents is appended |
| Game.Maze.PlaceWalls | main.js:97-116 | the wall list gains the boxes of all closed flags, in column, row, top-bottom-left-right order |
| Game.Maze.PlaceCell | main.js:99-114 | one cell appends the boxes of its closed sides in the order top, bottom, left, right |
| Game.Maze.StartDistances | main.js:127-129 | a fresh size x size array, -1 everywhere except 0 at the start |
| Game.Maze.Visit | main.js:140-144 | an unseen neighbour is appended to the queue and the enqueue list at distance + 1, and recorded; a seen one changes nothing |
| Game.Maze.VisitNeighbours | main.js:135-145 | the enqueue list becomes `Enqueue` of the dequeued cell's listed neighbours, so exactly its unseen neighbours are appended, in listing order; each appended cell gets distance + 1; the search invariant holds with the head moved one on |
| Game.Maze.VisitEach | main.js:140-145 | the loop over the listed neighbours leaves the enqueue list equal to `Enqueue` of that list, with one level of distance + 1 per appended cell; queue and recorded distances follow |
| Game.Maze.LevelsStep | main.js:140-144 | one more handled neighbour adds one more level of distance + 1 exactly when it was appended |
| Game.Maze.TakeHead | main.js:132-134 | the dequeued cell is the head of the enqueue list, with its recorded distance; the answer moves to it only on a strictly larger distance, so it stays the first largest so far |
| Game.Maze.ExpandHead | main.js:132-145 | one pass of the while loop keeps every loop invariant of findFarthestCell with the head moved one on: the search invariant, the FIFO trace, the queue, the recorded distances and the running answer |
| Game.Maze.FindFarthestCell | main.js:126-148 | the enqueue order is the FIFO order `Expand(grid, [s], 0)`; the result is in the grid at the largest graph distance from the start, and it is the first cell of that order at that distance; every reachable cell is enqueued exactly once, at its graph distance |
| Game.Maze.PlaceExit | main.js:150-154 | the exit is the cell findFarthestCell(0, 0) returns: the enqueue order is the FIFO order from (0, 0), and the exit is the first cell of that order at the largest graph distance; its position is that cell's centre |
| Game.Maze.CheckCollision | main.js:178-187 | the result is true exactly when some wall box, grown by the camera radius, strictly contains the point in x and z |
| Game.Maze.TryStep | main.js:208 | one key step is kept exactly when the moved point does not collide |
| Game.Maze.MoveCamera | main.js:205-212 | the held keys' steps are tried in the order w, s, a, d, each kept only when clear; a clear start stays clear |
| Game.MakeMaze | main.js:51-116 | a fresh 24 x 24 maze whose cells are all reachable from (0, 0), with 24 * 24 - 1 open walls and one wall box per closed flag |
| Game.SetUp | main.js:51-154 | the 24 x 24 maze is connected with 24 * 24 - 1 open walls, and the wall list is one box per closed flag; the camera start and the exit are cell centres clear of every wall; the exit, placed by PlaceExit, is the first cell of the FIFO enqueue order from (0, 0) at the largest graph distance |

## Left out

- Rendering is not modelled:
  - the scene, renderer, lights, floor, materials and wall height;
  - the y coordinate of the camera and of the walls;
  - Three.js mesh internals, beyond the centre and horizontal extents the collision test reads.
- The beacon and its pulsing glow (main.js:157-169, 199-200) are visual only.
- Background music (main.js:189-194) is I/O.
- Keyboard events (main.js:173-175) are not modelled: the held keys are a `Keys` parameter.
- Camera rotation (main.js:202-203) and the sin/cos heading (main.js:205) are not modelled: the forward vector is a parameter of `Game.Maze.MoveCamera`, since trigonometry on reals is outside the model.
- The exit test and page reload (main.js:214-216) are not modelled: they need a square root and reload the browser page.
- The distribution of `Math.random()` is not modelled: only that each cell's direction order is some permutation.
- Floating-point rounding is not modelled: positions and lengths are exact reals.
- Recursion depth is not modelled: the JavaScript stack limit on generateMaze is outside the model.
- mazeSize is 24 in the source. The `Maze` class takes the size as a parameter, and `Game.MakeMaze` instantiates it with 24.
- Carving.SpanningTree: states connectivity and the edge count n * n - 1. That a connected graph with one edge fewer than its vertices has no cycle is the standard graph-theory fact, and is not proved here.
- Game.Maze.FindFarthestCell: the enqueue order, the levels and the largest distance are ghost results. The method's actual output is the coordinates of the farthest cell. Game.Maze.PlaceExit and Game.SetUp pass the same three on as ghost results.
