# maze.js in Dafny

This is a Dafny model of the maze library in `maze.js`. The library has two classes:

- **`Cell`**: a grid square. It has a fixed row and column, a `visited` flag, and four wall flags (top, right, bottom, left).
- **`MazeGenerator`**: owns a `rows` x `cols` grid of cells. Its methods:
  - `generate` carves a maze by randomized depth-first search. It uses an explicit backtracking stack and opens one wall pair per push; a backtracking pop opens none.
  - `solveDFS` finds a path between two cells by recursive depth-first search through open walls.
  - `print` and `printWithSolution` draw the grid as ASCII art. `printWithSolution` marks the cells of a solution path with `*`.

## Layout

- **`grid.dfy`, module `Grid`**: the value view of a grid.
  - Sides and coordinates; a cell's walls; a board, which maps each coordinate to that cell's visited flag and walls.
  - `Symmetric`: the shared-wall invariant.
  - `Link`: wall removal, on values.
  - Facts about one carving step of the generator.
- **`carve.dfy`, module `Carve`**: the generator's loop, on values.
  - The state between iterations: board, stack and number of random draws.
  - One iteration as a function (`Iterate`), and n iterations (`Run`).
  - The loop invariant `Carving`. At the end it gives: every cell visited, the shared walls agreeing, and exactly `rows * cols - 1` open wall pairs.
- **`reach.dfy`, module `Reach`**: every cell the generator visits is joined to its start cell through open walls. So a finished maze connects any two cells.
- **`paths.dfy`, module `Paths`**: open walks, simple paths, connectivity, and the exits the solver collects from a cell.
- **`ascii.dfy`, module `Ascii`**: the ASCII picture as functions, and its exact layout.
- **`maze.dfy`, module `Maze`**: the classes `Cell` and `MazeGenerator`.
  - Their methods update the cells in place.
  - The ghost function `MazeGenerator.Board()` reads the whole grid as a board, so every contract can be stated in the terms above.
  - `Generate` is proved to compute exactly `Carve.Run`.
  - `SolveDFS` returns a simple open path from start to end. It returns the empty path exactly when no open walk connects the two.
  - `Render` and `RenderWithSolution` return exactly `Ascii.Picture`.
  - `GenerateAndSolve` composes the two: on every generated maze the solver finds a path between the default corners.

`Math.random` is a parameter `random: nat -> real`: the k-th value drawn is `random(k)`, in `[0, 1)`. An index is `Math.floor(x * n)` with the product taken over exact reals, not doubles (see `Carve.RandomIndex` under "## Left out"). Every index below n can be drawn, so the proved properties hold for every sequence of choices the source can make.

## Model

| member | source | states |
|---|---|---|
| Maze.Cell.constructor | maze.js:10-20 | A new cell keeps its row and column, is unvisited, and has all four walls. |
| Maze.MazeGenerator.constructor | maze.js:24-29 | The generator keeps rows and cols and builds a valid grid of fresh cells whose board is the initial board: every coordinate unvisited and fully walled. |
| Maze.MazeGenerator.InitializeGrid | maze.js:32-40 | The grid has rows rows of cols fresh cells; cell [r][c] is at row r, column c, unvisited and fully walled. |
| Grid.AllCoords | maze.js:33-39 | A coordinate is in the grid exactly when 0 <= r < rows and 0 <= c < cols. |
| Grid.AllCoordsCard | maze.js:33-39 | The grid has exactly rows * cols cells. |
| Grid.InitialBoard | maze.js:9-21 | A fresh grid has exactly the grid's coordinates as keys. |
| Grid.InitialBoardSymmetric | maze.js:14-19 | A fresh grid, all walls closed, satisfies the shared-wall invariant. |
| Maze.MazeGenerator.Board | maze.js:27-39 | The board read off the grid has exactly the grid's coordinates. |
| Maze.MazeGenerator.GetCell | maze.js:43-48 | The result is null exactly when the coordinate is off the grid; otherwise it is the grid cell at that row and column. |
| Grid.StepBack | maze.js:55-58 | The neighbour on one side is a different cell, and stepping back through the opposite side returns to the start. |
| Maze.MazeGenerator.CandidateOnSide | maze.js:55-63 | One side's candidate list holds the neighbour exactly when it is on the grid and unvisited. |
| Maze.SidesJoin | maze.js:60-63 | The four one-side lists, joined in the order top, right, bottom, left, are the unvisited sides of the cell. |
| Maze.MazeGenerator.GetUnvisitedNeighbors | maze.js:51-66 | The candidates' sides are exactly the unvisited sides of the cell, in source order; each candidate is the grid cell on its side. |
| Grid.UnvisitedSidesUnfold | maze.js:60-63 | The candidate sides are the four one-side checks concatenated in source order. |
| Grid.UnvisitedSidesExact | maze.js:55-63 | A side is a candidate exactly when the neighbour on it is on the grid and unvisited (sound and complete). |
| Grid.UnvisitedSidesOrdered | maze.js:60-63 | At most 4 candidates, in strictly increasing side rank, so no side repeats. |
| Grid.UnvisitedSidesEmpty | maze.js:107-111 | There are no candidates exactly when every neighbour on the grid is visited. |
| Grid.Walls.Cleared | maze.js:72-85 | The cleared side is open and the other three flags are unchanged. |
| Maze.MazeGenerator.RemoveWalls | maze.js:69-88 | The given side of current and the opposite side of next are opened; every other wall flag and both visited flags are unchanged. |
| Grid.Link | maze.js:69-88 | On the board, both sides of the pair are open, only those two flags change, visited flags are unchanged, and other cells are unchanged. |
| Grid.LinkPreservesSymmetry | maze.js:69-88 | Removing the wall pair between two grid neighbours keeps the shared-wall invariant. |
| Grid.LinkOpensOneEdge | maze.js:69-88 | Removing a closed wall pair adds exactly one open wall pair to the board. |
| Grid.LinkKeepsVisited | maze.js:69-88 | Wall removal changes no visited flag, so no cell becomes unsettled. |
| Maze.MazeGenerator.LinkedBoard | maze.js:118 | After removeWalls on two grid neighbours, the board is the old board with that pair linked. |
| Grid.Visit | maze.js:121 | Marking a cell visited sets its flag and changes nothing else. |
| Maze.MazeGenerator.VisitedBoard | maze.js:121 | After marking a grid cell visited, the board is the old board with that cell visited. |
| Grid.VisitKeepsWalls | maze.js:121 | Marking a cell visited keeps the walls and the open wall pairs, and adds exactly that cell to the visited set. |
| Grid.CarveStep | maze.js:114-122 | One push keeps the shared-wall invariant, keeps unvisited cells fully walled, adds one visited cell and one open wall pair, and unsettles nothing. |
| Grid.CarvedCell | maze.js:118-121 | After a push, the two linked cells have the one side opened, the new cell is visited, and every other cell is unchanged. |
| Grid.CarveKeepsFreshWalled | maze.js:118-121 | After a push, every unvisited cell still has all four walls. |
| Maze.MazeGenerator.CarveToward | maze.js:117-122 | Removing the walls and marking the neighbour visited turns the board into the old board linked and visited. |
| Carve.RandomIndex | maze.js:114 | Math.floor(x * n), for x in [0, 1) and n > 0, with the product over exact reals, is a valid index below n. |
| Carve.RandomIndexOnto | maze.js:114 | Every index below n is drawn by some value in [0, 1), namely i / n. |
| Carve.Start | maze.js:93-102 | Before the loop, the stack holds one grid cell and two random values have been drawn. |
| Maze.MazeGenerator.GenerateStep | maze.js:105-124 | One loop iteration on the cells does exactly what Carve.Iterate does on the board, stack and draw count. |
| Carve.CarvingStart | maze.js:100-102 | The loop starts in the carving invariant. |
| Carve.CarvingPop | maze.js:109-111 | Popping a settled top keeps the invariant. |
| Carve.CarvingPush | maze.js:113-123 | Carving into an unvisited neighbour and pushing it keeps the invariant. |
| Carve.IterateCarving | maze.js:105-124 | Every iteration keeps the invariant: the stack holds distinct visited cells, visited cells off the stack are settled, walls agree, and open pairs = visited cells - 1. |
| Carve.RunCarving | maze.js:105-124 | Any number of iterations keeps the invariant. |
| Carve.RunBounded | maze.js:105-124 | The stack is shorter than the draw count, which never exceeds rows * cols + 1, so the loop ends. |
| Grid.ReachBySettled | maze.js:104-105 | If every visited cell is settled, every grid cell is reachable from a visited cell through settled cells, so it is visited. |
| Grid.SettledVisitedCoverGrid | maze.js:104-105 | When the stack empties, all rows * cols cells are visited. |
| Carve.CarvingDone | maze.js:104-105 | With an empty stack: all cells visited, walls agree, exactly rows * cols - 1 open wall pairs, rows * cols + 1 values drawn. |
| Carve.RunComplete | maze.js:91-127 | The run that empties the stack leaves every cell visited, the walls agreeing, and exactly rows * cols - 1 open wall pairs. |
| Reach.WalkWiden | maze.js:69-88 | An open walk stays open when walls are only opened. |
| Reach.CarveWidens | maze.js:117-122 | A push of the generator only opens walls. |
| Reach.RootedStart | maze.js:100-102 | Before the loop, the one visited cell, the start, is joined to itself. |
| Reach.RootedIterate | maze.js:105-124 | Every iteration keeps every visited cell joined to the start cell by open walls. |
| Reach.RunRooted | maze.js:105-124 | So does any number of iterations. |
| Reach.PassageBack | maze.js:69-88 | With agreeing shared walls, an open passage can be taken in reverse. |
| Reach.ConnectedBack | maze.js:69-88 | With agreeing shared walls, connectivity is symmetric. |
| Reach.CarvedConnected | maze.js:91-127 | Once the stack is empty, any two cells of the grid are joined by open walls. |
| Maze.MazeGenerator.Generate | maze.js:91-127 | The grid ends exactly as Carve.Run leaves the board after 2 * rows * cols - 1 iterations: every cell visited, walls agreeing, rows * cols - 1 open wall pairs, any two cells connected; the result is the grid. |
| Grid.SymmetricBorderClosed | maze.js:192-225 | On a grid with agreeing shared walls, every open side has a grid cell behind it, so the solver's getCell is never null. |
| Paths.ExitsExact | maze.js:189-225 | A side is collected exactly when its wall is open and the cell behind it is not visited. |
| Paths.ExitsOrdered | maze.js:189-225 | At most four sides are collected, in the order top, right, bottom, left, none twice. |
| Maze.MazeGenerator.ExitOnSide | maze.js:192-199 | One side's check yields the grid cell behind that side exactly when the side is an exit. |
| Maze.MazeGenerator.AccessibleNeighbors | maze.js:189-226 | The collected neighbours are the grid cells behind the exits, in source order. |
| Paths.ClosedNoExits | maze.js:189-226 | A cell re-entered after an earlier sibling's search explored it collects no neighbours. |
| Maze.MazeGenerator.ExploringPush | maze.js:178-182 | Marking the cell visited and pushing it keeps the search state: path cells distinct and visited, explored region closed. |
| Maze.MazeGenerator.ReachedHere | maze.js:184-187 | Pushing the end cell gives a found path ending at end. |
| Maze.FoundThrough | maze.js:229-231 | A walk found from a neighbour through an open side extends back to the cell. |
| Maze.MazeGenerator.ReachedThrough | maze.js:229-231 | A success from the neighbour is a success from the cell. |
| Maze.ExploredNext | maze.js:229-233 | After the i-th recursive call, the cells behind the first i + 1 exits are visited. |
| Maze.FewerUnvisited | maze.js:179 | Visiting a cell not yet visited leaves fewer unvisited grid cells. Only such a call recurses, since a re-entered cell collects no neighbours, so the search terminates. |
| Paths.CloseOff | maze.js:235-237 | A cell whose every open side leads into the explored region can be popped without breaking the closure. |
| Paths.ExitsExhausted | maze.js:228-237 | Once the cell behind every collected exit is visited, popping the cell keeps the explored region closed. |
| Maze.MazeGenerator.ExploringPop | maze.js:235-237 | A failed search pops the cell and keeps the search state. |
| Maze.MazeGenerator.Dfs | maze.js:174-238 | On failure the path is restored, the end is still unvisited and everything reachable is explored; on success the path extends the current one with an open, repeat-free walk from the cell to the end. |
| Paths.WalkBack | maze.js:229-231 | A walk prefixed by a step through an open side is still an open walk. |
| Paths.WalkStaysInside | maze.js:240-242 | An open walk starting in a region closed under open walls stays in it. |
| Paths.Separated | maze.js:240-242 | No open walk leads from inside such a region to a cell outside it. |
| Maze.MazeGenerator.SolvedOrSeparated | maze.js:240-242 | A found path is a simple open path from start to end; an empty path means start and end are not connected. |
| Maze.MazeGenerator.SolveDFS | maze.js:167-243 | A non-empty result is a repeat-free open path from (startRow, startCol) to (endRow, endCol); the result is empty exactly when no open walk joins them. |
| Ascii.Repeat | maze.js:134 | s repeated n times is n times as long as s. |
| Ascii.RepeatLacks | maze.js:134 | A repetition contains no character its unit lacks. |
| Ascii.CellLine | maze.js:138-148 | A row's cell line has 4 * cols + 1 characters. |
| Ascii.WallLine | maze.js:139-152 | A row's wall line has 4 * cols + 1 characters. |
| Ascii.Lines | maze.js:133-156 | The picture has 2 * rows + 1 lines. |
| Ascii.JoinTwoMore | maze.js:155 | Appending a row's two lines with newlines extends the joined text. |
| Ascii.LinesShape | maze.js:130-159 | There are 2 * rows + 1 lines, each of 4 * cols + 1 characters, with no newline inside. |
| Ascii.CellLineCell | maze.js:263-271 | In the cell line, column c shows " * " exactly when the cell is on the path, then a bar exactly when its right wall is there. |
| Ascii.WallLineCell | maze.js:273-275 | In the wall line, column c shows "---" exactly when the cell's bottom wall is there, then '+'. |
| Ascii.LinesRow | maze.js:258-279 | Line 2r + 1 is row r's cell line and line 2r + 2 its wall line. |
| Ascii.JoinLayout | maze.js:155 | Equal-length lines joined with newlines: line i fills its own slot of L + 1 characters. |
| Ascii.PictureLayout | maze.js:246-282 | The text has (2 * rows + 1) * (4 * cols + 2) characters, and line i with its newline sits at offset Span(i, 4 * cols + 2), which equals i * (4 * cols + 2). |
| Maze.CornersJoined | maze.js:296-305 | On a grid with agreeing shared walls and all cells joined, as Generate leaves it, the border is closed and the default corners are joined. |
| Maze.SolveJoined | maze.js:167-169 | With the default corners joined and the border closed, solveDFS with default arguments returns a non-empty simple open path from (0, 0) to (rows - 1, cols - 1). |
| Maze.GenerateAndSolve | maze.js:296-305 | Constructing, generating and then solving with the default corners always yields a non-empty path from the top-left to the bottom-right corner through open walls, never repeating a cell. |
| Maze.MazeGenerator.RenderRow | maze.js:258-279 | The two strings built for row r are its cell line and its wall line. |
| Maze.MazeGenerator.Render | maze.js:130-159 | print's output is the picture of the grid with no cell marked. |
| Maze.MazeGenerator.RenderWithSolution | maze.js:246-282 | printWithSolution's output is the picture of the grid with exactly the path's coordinates marked. |

## Left out

- main's argument parsing and console output, and the `require.main` guard (maze.js:286-321). Its sequence of constructing, generating and solving with the default corners is modelled by Maze.GenerateAndSolve.
- toJSON (maze.js:162-164): JSON serialization of the object graph is outside the model.
- Carve.RandomIndex: the product x * n is taken over exact reals, not IEEE doubles. For some draws the chosen index differs by one from the source's: with n = 11 and x = 1228254443828317 / 2^52, the double product rounds to 3.0 while the exact floor is 2. Every index below n is still chosen by some x in [0, 1) (Carve.RandomIndexOnto), so Maze.MazeGenerator.Generate follows the source's carving for the same sequence of chosen indices, though not always for the same raw values of Math.random.
- The distribution of `Math.random`: it is modelled as an arbitrary sequence `random` of values in [0, 1), so results hold for every outcome, and uniformity is not modelled.
- The `"r,c"` string keys of the solver's visited set and of printWithSolution's path set are modelled as sets of coordinate pairs. The two agree for integer coordinates.
- The maze is not proved to be a tree (no cycles). What is proved is the edge count (rows * cols - 1 open pairs) and that any two cells are connected, which together make a spanning tree. The graph-theory step from those facts to acyclicity is not carried out.
- The solver's closure state: the visited set and the current path that `dfs` captures are passed in and returned by Maze.MazeGenerator.Dfs. The current path is returned as a new sequence rather than mutated in place.
- The walls object of a cell is a value (`Walls`) that is reassigned. In the source it is a per-cell object that is never shared, so no aliasing is lost.
- Wall directions are the enumeration `Direction`. The source's `removeWalls` ignores an unknown direction string, which the enumeration cannot express.
- Maze.MazeGenerator.Generate: requires a fresh grid (every cell unvisited and fully walled), which the source does not check. A second call in the source finds the start already visited and ends at once; that run is not modelled. It also requires rows and cols positive, because otherwise the source's getCell returns null and the start cell cannot be marked.
- Maze.MazeGenerator.SolveDFS: requires the start and end in bounds, because the source dereferences the null that getCell returns for them. It also requires the whole border closed. The source dereferences null only when the search enters a cell other than the end that has an open side facing off the grid, so the model excludes some grids on which the source still returns a path (for instance a search that starts at its end). Every grid built by Generate has its border closed (Symmetric, then Grid.SymmetricBorderClosed).
- Maze.MazeGenerator.constructor: rows and cols are natural numbers. The source accepts any value and builds an empty grid for a non-positive one.
- Call-stack depth: the recursion of `dfs` can exceed JavaScript's call-stack limit on large grids. Stack overflow is not modelled.
- The print methods are named Render and RenderWithSolution, because `print` is a Dafny statement. They return the text, as the source does.
- Maze.MazeGenerator.Render: shares RenderRow with RenderWithSolution, called with an empty path set. print's cell body is always three spaces, which is what an empty path set draws.
- Several loop bodies are split into helper methods whose contracts tie them to the pure model: GenerateStep, CarveToward, ExitOnSide, AccessibleNeighbors and RenderRow.
