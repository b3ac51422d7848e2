# In The Dark level generator: maze solver and cave generator in Dafny

The model covers the two Python files of the level generator.

**MazeSolver.py** checks whether a level is passable.

- `Maze.get_point` reads a flat row-major grid (true = open).
- `Node.__init__` keeps the neighbours of a cell that are not its parent, lie in bounds and are open. It does this with a delete-and-restart loop, then builds one child node per kept neighbour, recursively.
- `Solver.__init__` builds the node tree from `start` and walks it once with `__visit_node`.
  - Each node is marked visited and its position is appended to one shared `__current_path` list.
  - A reference to that same list is recorded each time a node at `end` is reached.
- `find_solution` scans the recorded references.

**main.py**'s `CaveGenerator` builds the level.

- It keeps a flat grid of cells (true = alive) of `w * h` entries.
- It converts between `(x, y)` and flat indices.
- It runs cellular-automaton steps on the interior cells, counting neighbours in the old grid.
- It builds blob maps: markers on cells of a given state, capped by `max_number` and retried until `min_number` is reached.
- It composites the colours: the last blob map marked at a cell wins, otherwise alive cells are black and dead cells are white.

## Layout

- `wrappers.dfy`: `Option`.
- `maze_tree.dfy` (module `MazeTree`): the value-level view of the maze solver.
  - The grid, `get_point` and the neighbour rule (`Keep`).
  - The exploration tree as a function `Build` with a fuel bound. `Build(...) == Some(t)` means the recursive `Node` construction finishes within `fuel` levels and yields `t`.
  - The pre-order listing and the count of nodes at a position.
- `maze_walks.dfy` (module `MazeWalks`): walks through open cells and how the tree relates to them.
  - `BranchPaths` lists the root-to-node path of every node at a position.
  - Each such path is proved to be a walk through open cells that never steps straight back.
  - Conversely, every such walk from the root is the path to some node (`WalkInTree`), and any walk can be cut down to one that never steps straight back (`DropBacktracks`).
  - So a maze position is reachable from the root iff a node of the tree is at it (`ReachableIffOccurs`).
- `maze_solver.dfy` (module `MazeSolver`): the objects.
  - `Node` is a class with a mutable `visited` field. Its children are other `Node` objects, and a ghost `tree` ties each node to `Build`.
  - The cleaning loop is a method over the candidate list.
  - `Solver` keeps the shared path as a `PositionList` object, and `solutionPaths` is a sequence of references to it. The aliasing of the Python lists is therefore explicit.
  - `VisitNode` is proved to append the pre-order listing of the subtree and to record one reference per node at `end`.
  - `FindSolution` is proved to return what the scan as written returns.
- `corrected_search.dfy` (module `CorrectedSearch`): the search as its docstrings describe it.
  - Each solution is the path to its own node (`BranchPaths`).
  - The shortest one is chosen (`ShortestIndex`). It is proved to be a walk from `start` to `end` no longer than any walk through open cells, and there is none exactly when the maze has no such walk.
  - It also holds the concrete corridor that separates the two versions.
- `cave.dfy` (module `Cave`): `CaveGenerator` as a class with fields `cave`, `blobs` and `blobColours`.
  - Every random draw is a boolean coin passed in (`coins`, `passes`).
  - Each loop of the source is a method proved against a specification function: `Step`, `PassMap`, `Retry`, `BlobMap` and `TopColour`.

## Model

| member | source | states |
|---|---|---|
| MazeTree.GetPoint | MazeSolver.py:8-16 | for an in-bounds point the state read is entry y*w+x of the data; a negative index reads from the end, as Python does |
| MazeTree.IndexInRange | MazeSolver.py:8-16 | in a grid holding at least w*h cells, an in-bounds point reads index y*w+x, which is a valid index |
| MazeTree.Keep | MazeSolver.py:27-57 | the kept neighbours are exactly the candidates (`Candidates`, the up, right, down, left list) that are not the parent, are in bounds and are open, never more than the candidates |
| MazeTree.KeepDelete | MazeSolver.py:38-57 | deleting one inadmissible entry leaves the kept list unchanged |
| MazeTree.KeepAllAdmissible | MazeSolver.py:35-37 | a pass that deletes nothing means the list is its own kept list |
| MazeTree.SentinelExcludesNothing | MazeSolver.py:72 | the root's parent (-1, -1) is never a candidate of an in-bounds cell, so the root keeps the same neighbours as with any other non-candidate parent |
| MazeTree.Build | MazeSolver.py:23-60 | a construction that finishes within the depth bound needs at least one level and yields a node at the requested position |
| MazeTree.BuildAll | MazeSolver.py:60 | building the children of a node, when it finishes, gives one child per kept neighbour position |
| MazeTree.BuildAllAt | MazeSolver.py:60 | the children are built iff every kept neighbour builds, and child k is the node built for neighbour k |
| MazeTree.BuildShape | MazeSolver.py:23-60 | a built node sits at its position and has one child per kept neighbour, built with this node as parent |
| MazeTree.BuildFuelMonotone | MazeSolver.py:60 | more recursion depth never changes a construction that finished |
| MazeTree.BuildExplores | MazeSolver.py:23-60 | every built tree follows the neighbour rule at every node |
| MazeTree.ChildIsAdmissible | MazeSolver.py:39-60 | a child is 4-adjacent to its node, in bounds, open and not the node's parent |
| MazeTree.OccurrencesInPreOrder | MazeSolver.py:78-89 | the number of nodes at e equals the number of times e appears in the pre-order listing |
| MazeTree.NoOccurrenceIffUnlisted | MazeSolver.py:84-85 | no node is at e iff e is absent from the listing; a root at e counts |
| MazeSolver.PositionList.constructor | MazeSolver.py:73 | the shared current-path list starts empty; every solution recorded later is a reference to this one object |
| MazeSolver.CleanNeighbours | MazeSolver.py:27-57 | the delete-and-restart loop ends with exactly the admissible candidates in their original order; get_point is only called on in-bounds points |
| MazeSolver.Node.constructor | MazeSolver.py:23-60 | the new node and all its descendants are fresh and unvisited, and its tree is the one Build gives |
| MazeSolver.LastBelowSentinel | MazeSolver.py:99-103 | the scan keeps the last index whose length is below 99999999999, and none if there is no such index |
| MazeSolver.Solver.constructor | MazeSolver.py:67-76 | after construction the shared path is the pre-order listing of the tree, every node is visited, and one reference is recorded per node at end |
| MazeSolver.Solver.VisitNode | MazeSolver.py:78-89 | appends the subtree's pre-order listing to the shared path, records the shared list once per subtree node at end, and visits the whole subtree |
| MazeSolver.Solver.VisitAdjacentNodes | MazeSolver.py:87-89 | visiting the children in order appends their listings in order |
| MazeSolver.Solver.FindSolution | MazeSolver.py:91-105 | None iff nothing was recorded, iff end is not on the path, and never when start == end; otherwise the entry LastBelowSentinel picks, which is the shared list itself; TypeError when no index is picked; under Valid, None iff the maze has no walk through open cells from start to end |
| MazeWalks.BranchPathsCount | MazeSolver.py:84-85 | per-branch copies give as many solutions as the shared list records |
| MazeWalks.BranchPathsAreWalks | MazeSolver.py:27-60 | every per-branch path (`BranchPaths`, the root-to-node path of each node at e) extends its prefix, ends at e, moves to 4-adjacent open in-bounds cells and never steps straight back |
| MazeWalks.CandidatesAreAdjacent | MazeSolver.py:27-32 | the four candidate positions are exactly the cells 4-adjacent to the node |
| MazeWalks.DropBacktracks | MazeSolver.py:27-60 | every walk through open cells can be cut down to one with the same ends, no longer, that never steps straight back |
| MazeWalks.WalkInTree | MazeSolver.py:27-60 | an open walk from a node that never steps straight back and does not start towards the parent is, after the prefix, the path to some node of the subtree at the walk's end |
| MazeWalks.TreeHasEveryWalk | MazeSolver.py:60-72 | from the root, whose parent (-1, -1) is off the grid, every open walk that never steps straight back is one of the per-branch paths |
| MazeWalks.ReachableIffOccurs | MazeSolver.py:72-89 | on the explored tree, some walk through open cells joins the root to e iff some node of the tree is at e |
| MazeWalks.ShortestBranchIsShortestWalk | MazeSolver.py:91-105 | a shortest per-branch path to e is a walk to e no longer than any walk through open cells from the root to e |
| MazeWalks.WalkLength | MazeSolver.py:27-32 | a 4-connected walk is at least as long as the Manhattan distance between its ends |
| CorrectedSearch.ShortestIndex | MazeSolver.py:91-105 | the index of a shortest entry, the first one on ties; None iff the list is empty |
| CorrectedSearch.FindShortestSolution | MazeSolver.py:91-105 | None iff no node is at end; otherwise a per-branch path to end that no other per-branch path is shorter than; on the tree explored in the maze, None iff the maze has no walk through open cells from the root to end, and otherwise a walk to end no longer than any such walk |
| CorrectedSearch.CorrectedSolutionsAreWalks | MazeSolver.py:67-89 | every corrected solution starts at start, ends at end, walks through open cells and has at least Manhattan(start, end) + 1 positions |
| CorrectedSearch.CorridorExplored | MazeSolver.py:23-60 | on an open 3x1 row the tree from (0, 0) is the chain (0, 0), (1, 0), (2, 0) |
| CorrectedSearch.SharedPathOvershoots | MazeSolver.py:73-105 | as written, from (0, 0) to (1, 0) on that row the returned path is [(0, 0), (1, 0), (2, 0)], which does not end at end |
| CorrectedSearch.BranchPathStopsAtEnd | MazeSolver.py:91-105 | the corrected search on the same row returns [(0, 0), (1, 0)] |
| Cave.CellIndex | main.py:27-35 | for a positive width and a column in 0..w-1, the index of (x, y) lies in row y, between y*w and y*w+w-1 |
| Cave.CellPosition | main.py:37-44 | the (x, y) returned satisfies y*w + x == index, with x in 0..w-1 for a positive width and in w+1..0 for a negative one |
| Cave.PixelColour | main.py:46-57 | the colour is opaque, and it is black exactly for an alive cell and white exactly for a dead one |
| Cave.FloorModRange | main.py:44 | Python's % lies between 0 and w, on w's side of zero |
| Cave.IndexOfPosition | main.py:27-44 | cell_index(cell_position(i)) == i for every index and every non-zero width |
| Cave.PositionOfIndex | main.py:27-44 | cell_position(cell_index(x, y)) == (x, y) for every column in the row's range |
| Cave.NeighboursInRange | main.py:66-81 | the eight neighbour indices (`NeighbourIndices`, listed in the source's order) of an interior cell lie in the grid |
| Cave.Step | main.py:63-101 | a step keeps the number of cells |
| Cave.StepKeepsBorder | main.py:63-67 | cells with x = 0, x = w-1, y = 0 or y = h-1 keep their state |
| Cave.StepInteriorRule | main.py:72-99 | an interior cell has 0..8 alive neighbours in the old grid; alive, it stays alive iff starvationLimit <= n <= overpopLimit; dead, it comes alive iff n == birthNumber (the rule `NextState`) |
| Cave.CaveGenerator.CountAliveNeighbours | main.py:84-87 | the counting loop returns the number of alive neighbours in the current grid |
| Cave.CaveGenerator.GeneratorStep | main.py:59-101 | the new grid is Step of the old one, every count taken from the old grid, the writes going to the copy |
| Cave.CaveGenerator.constructor | main.py:15-25 | a new generator has the given parameters, no blobs, and a grid equal to the coins |
| Cave.CaveGenerator.InitCave | main.py:122-130 | the grid is one cell per coin, w*h of them, or none when w*h <= 0 |
| Cave.CaveGenerator.BlobPass | main.py:146-155 | one pass builds PassMap and its counter equals the number of marks in it |
| Cave.PassMap | main.py:146-155 | one pass gives one entry per cell of its prefix, and marks only cells in the wanted state whose coin came up |
| Cave.MarkedPassMap | main.py:153-155 | the `number` counter equals the number of true entries of the map |
| Cave.PassCountIsCap | main.py:149-155 | the counter is min(eligible cells so far, max_number), and 0 when max_number <= 0 |
| Cave.PassMapIsFirstEligible | main.py:148-155 | cell i is marked iff it is in the wanted state, its coin came up, and fewer than max_number such cells come before it |
| Cave.PassMapBounds | main.py:146-163 | a pass marks only cells in the wanted state and never more than max_number |
| Cave.Retry | main.py:144-155 | a successful retry gives a map spanning the grid with at least min_number marks, all on cells of the wanted state |
| Cave.RetryFails | main.py:145 | the retry loop runs out only when no pass reaches min_number |
| Cave.RetrySucceeds | main.py:145-155 | the retry loop returns the map of the first pass that reaches min_number |
| Cave.RetryFindsFirst | main.py:145-155 | the retry loop succeeds iff some pass reaches min_number |
| Cave.CaveGenerator.RetryWhileBelow | main.py:144-155 | the `while number < min_number` loop returns Retry's map, or the empty list without any pass when min_number <= 0 |
| Cave.BlobMap | main.py:142-168 | the appended map is empty or spans the grid and marks only cells of the wanted state; it is missing only when min_number is given and no pass reaches it, or no pass was supplied |
| Cave.BlobMapProperties | main.py:142-168 | the appended map marks only cells of the wanted state, at most max_number and at least min_number of them, and spans the grid unless min_number <= 0 |
| Cave.CaveGenerator.GenerateBlobs | main.py:132-168 | appends BlobMap (the map of the first pass reaching min_number, or the empty list when min_number <= 0) and its colour; the grid and earlier maps are left alone |
| Cave.AtLeastOnePassMapProperties | main.py:144-168 | with at least one pass the map (`AtLeastOnePassMap`) always spans the grid and keeps the other promises |
| Cave.CaveGenerator.RetryAtLeastOnce | main.py:145-155 | the passes run at least once until min_number is reached, returning Retry's map |
| Cave.CaveGenerator.GenerateBlobsAtLeastOnce | main.py:132-168 | appends one map spanning the grid and its colour, so a renderable generator stays renderable |
| Cave.TopColour | main.py:110-117 | a pixel ends up either with its cell colour or with the colour of one of the blob maps |
| Cave.TopColourIsHighest | main.py:110-117 | a pixel takes the colour of the highest-indexed blob map marked there, else black for alive and white for dead |
| Cave.CaveGenerator.GenerateCaveImage | main.py:103-120 | IndexError iff some blob map is shorter than the grid; otherwise one pixel per cell, each as TopColour says |
| Cave.ZeroMinimumBreaksImage | main.py:144-168 | as written, min_number = 0 on a one-cell grid appends an empty map and compositing then raises IndexError |
| Cave.AtLeastOncePaintsCell | main.py:144-168 | with at least one pass, the same grid and coins give a one-pixel image in the blob's colour |

## Left out

- PIL (`PILImage.new`, `putdata`, saving): the image is modelled as the list of RGBA tuples passed to `putdata`.
- `random.randint` and the float thresholds `chance * 1000` and `chanceToStartAlive * 1000`: each draw is a boolean coin given as input, true when the draw would be at or below the threshold. An initial-grid draw is one coin per cell. A blob pass takes one coin per cell, and a cell whose state does not match ignores its coin; Python draws only for matching cells.
- The retry loop of `generate_blobs` can run forever. The model takes a finite list of passes and requires that one of them reaches `min_number`.
- Recursion depth: `Build(...).Some?` means the construction finishes given an unbounded stack. Python recurses once per tree level in `Node.__init__` (MazeSolver.py:60) and again in `__visit_node` (MazeSolver.py:88-89). It raises RecursionError on a finite tree deeper than CPython's default limit of 1000 frames, for example a serpentine corridor of several hundred open cells, and on a grid with a cycle reachable from start (through open cells, without stepping straight back) it recurses until that limit. The model runs on a ghost fuel bound, requires that construction finishes, and does not model RecursionError.
- `Maze.get_point` at an index outside `-len..len-1` raises IndexError. `GetPoint` requires a valid Python index, negative ones reading from the end as in Python, and the cleaning loop only calls it on in-bounds points.
- Cave.CellPosition: requires w != 0; with w == 0 Python raises ZeroDivisionError, and such a generator has no cells.
- `validate_cave`, `create_cave` and the `__main__` driver are not part of this model. They compose the modelled operations with fixed parameters, scan image pixels and print.
- MazeSolver.Solver.FindSolution: the TypeError raised when every recorded path has 99999999999 or more positions is modelled as the `TypeErrorRaised` answer; the scan never updating `shortest_path_length` is captured by LastBelowSentinel. Since every entry is the same list, the last entry and the shortest one coincide.
- The docstring of `find_solution` (MazeSolver.py:92-94) promises "the shortest solution to the maze", and the comment at MazeSolver.py:74 says the list "stores paths from start to end". The code instead appends the one shared `__current_path` list (MazeSolver.py:73, 81 and 85), so every recorded entry is the same, growing list. The model follows the code; the CorrectedSearch module is the search the docstring describes (see Findings).

## Findings

| source | as written | input that shows it | evidently intended | confidence | as-written member | corrected member |
|---|---|---|---|---|---|---|
| MazeSolver.py:73-85 | every solution recorded is a reference to the one shared `__current_path` list, which keeps growing through the whole traversal, so the path returned lists every visited cell | 3x1 open row, start (0, 0), end (1, 0): `find_solution` returns [(0, 0), (1, 0), (2, 0)] | the path from start to the node at end, here [(0, 0), (1, 0)] | medium, not executed | CorrectedSearch.SharedPathOvershoots | CorrectedSearch.FindShortestSolution |
| main.py:144-147 | with `min_number <= 0` the retry loop never runs, so the empty list is appended as the blob map and `generate_cave_image` then raises IndexError | 1x1 grid with the cell dead, `generate_blobs(colour, chance, False, None, 0)`, then `generate_cave_image()` | at least one pass, giving a map as long as the grid | medium, not executed | Cave.ZeroMinimumBreaksImage | Cave.CaveGenerator.GenerateBlobsAtLeastOnce |
