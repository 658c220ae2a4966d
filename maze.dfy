/**
 * The maze library: class Cell and class MazeGenerator, whose methods build
 * the grid, carve a maze by randomized depth-first search with an explicit
 * stack, and find a path by recursive depth-first search over open walls.
 *
 * Cells are objects that the methods update in place. The ghost function
 * MazeGenerator.Board() reads the whole grid as a value of module Grid, so
 * that the contracts here can be stated with that module's definitions.
 */
module Maze {
  import opened Grid
  import opened Paths
  import opened Carve
  import opened Ascii
  import opened Reach

  /** A grid cell. Its coordinate is fixed; its visited flag and walls change. */
  class Cell {
    const row: int
    const col: int
    var visited: bool
    var walls: Walls

    /** A fresh cell: unvisited, with all four walls. */
    constructor (row: int, col: int)
      ensures this.row == row && this.col == col
      ensures !visited && walls == AllClosed
    {
      this.row := row;
      this.col := col;
      visited := false;
      walls := AllClosed;
    }

    function Coord(): Pos {
      (row, col)
    }

    ghost function State(): CellState
      reads this
    {
      CellState(visited, walls)
    }
  }

  /** One candidate of the generator: a neighbouring cell and the side it lies on. */
  datatype Neighbor = Neighbor(cell: Cell, direction: Direction)

  /** The coordinates of a sequence of cells. */
  ghost function Positions(cells: seq<Cell>): (ps: seq<Pos>)
    ensures |ps| == |cells|
    ensures forall i :: 0 <= i < |cells| ==> ps[i] == cells[i].Coord()
  {
    seq(|cells|, i requires 0 <= i < |cells| => cells[i].Coord())
  }

  /** Pushing and popping a cell pushes and pops its coordinate. */
  lemma PositionsPushPop(cells: seq<Cell>, c: Cell)
    ensures Positions(cells + [c]) == Positions(cells) + [c.Coord()]
    ensures |cells| > 0 ==> Positions(cells[..|cells| - 1]) == Positions(cells)[..|cells| - 1]
  {
    assert Positions(cells + [c]) == Positions(cells) + [c.Coord()];
  }

  /** The coordinates of the cells of a path, as a set. */
  function PathCoords(path: seq<Cell>): set<Pos> {
    set i | 0 <= i < |path| :: path[i].Coord()
  }

  /** The sides of a sequence of candidates, in order. */
  function Sides(ns: seq<Neighbor>): seq<Direction> {
    seq(|ns|, i requires 0 <= i < |ns| => ns[i].direction)
  }

  /** Joining the candidates of the four sides joins their sides into UnvisitedSides. */
  lemma SidesJoin(b: Board, p: Pos, n1: seq<Neighbor>, n2: seq<Neighbor>, n3: seq<Neighbor>, n4: seq<Neighbor>)
    requires Sides(n1) == Side(b, p, Top) && Sides(n2) == Side(b, p, Right)
    requires Sides(n3) == Side(b, p, Bottom) && Sides(n4) == Side(b, p, Left)
    ensures Sides(n1 + n2 + n3 + n4) == UnvisitedSides(b, p)
  {
    UnvisitedSidesUnfold(b, p);
    assert Sides(n1 + n2 + n3 + n4) == Sides(n1) + Sides(n2) + Sides(n3) + Sides(n4);
  }

  /** Visiting a further cell of all leaves fewer cells of all unvisited. */
  lemma FewerUnvisited(all: set<Pos>, visited: set<Pos>, visited': set<Pos>, p: Pos)
    requires visited + {p} <= visited' && p in all && p !in visited
    ensures |all - visited'| < |all - visited|
  {
    assert all - visited' <= (all - visited) - {p};
    SubsetCard(all - visited', (all - visited) - {p});
  }

  /**
   * A search that succeeded from next, entered through open side d of cell,
   * succeeded from cell: the walk found from next extends back to cell.
   */
  lemma FoundThrough(b: Board, currentPath: seq<Cell>, cell: Cell, next: Cell, d: Direction, path: seq<Cell>)
    requires cell.Coord() in b && next.Coord() == Step(cell.Coord(), d) && !b[cell.Coord()].walls.Get(d)
    requires var P := currentPath + [cell];
      |P| < |path| && path[..|P|] == P && path[|P|] == next && IsOpenWalk(b, Positions(path)[|P|..])
    ensures |currentPath| < |path| && path[..|currentPath|] == currentPath && path[|currentPath|] == cell
    ensures IsOpenWalk(b, Positions(path)[|currentPath|..])
  {
    var k := |currentPath|;
    var w := Positions(path)[k..];
    assert path[k] == (currentPath + [cell])[k];
    assert path[..k] == path[..k + 1][..k];
    assert w[1..] == Positions(path)[k + 1..];
    WalkBack(b, w, 0, d);
    assert w[0..] == w;
  }

  /**
   * The solver's loop has now searched behind the first i + 1 exits: the
   * cell behind exit i is visited and the visited set only grew.
   */
  lemma ExploredNext(p: Pos, exits: seq<Direction>, seen: set<Pos>, seen': set<Pos>, i: nat)
    requires i < |exits| && seen <= seen' && Step(p, exits[i]) in seen'
    requires forall j :: 0 <= j < i ==> Step(p, exits[j]) in seen
    ensures forall j :: 0 <= j < i + 1 ==> Step(p, exits[j]) in seen'
  {
  }

  class MazeGenerator {
    const rows: nat
    const cols: nat
    const grid: seq<seq<Cell>>
    /** The cells of the grid, the objects the generator and solver update. */
    ghost const cells: set<Cell>

    /**
     * The grid has rows rows of cols cells, cell [r][c] sits at (r, c), and
     * cells holds exactly the grid's cells.
     */
    ghost predicate Valid() {
      |grid| == rows &&
      (forall r :: 0 <= r < rows ==> |grid[r]| == cols) &&
      (forall r, c :: 0 <= r < rows && 0 <= c < cols ==>
        grid[r][c].row == r && grid[r][c].col == c && grid[r][c] in cells) &&
      cells == set r, c | 0 <= r < rows && 0 <= c < cols :: grid[r][c]
    }

    predicate InBounds(row: int, col: int) {
      0 <= row < rows && 0 <= col < cols
    }

    ghost predicate IsGridCell(cell: Cell)
      requires Valid()
    {
      InBounds(cell.row, cell.col) && grid[cell.row][cell.col] == cell
    }

    /** The grid read as a value: the state of the cell at every coordinate. */
    ghost function Board(): (b: Board)
      reads cells
      requires Valid()
      ensures b.Keys == AllCoords(rows, cols)
    {
      map p: Pos {:trigger p in AllCoords(rows, cols)} | p in AllCoords(rows, cols) :: grid[p.0][p.1].State()
    }

    /** A rows x cols grid of fresh cells (both default to 10). */
    constructor (rows: nat := 10, cols: nat := 10)
      ensures this.rows == rows && this.cols == cols
      ensures Valid() && fresh(cells)
      ensures Board() == InitialBoard(rows, cols)
    {
      this.rows := rows;
      this.cols := cols;
      var g := InitializeGrid(rows, cols);
      grid := g;
      cells := set r, c | 0 <= r < rows && 0 <= c < cols :: g[r][c];
      new;
      assert Board() == InitialBoard(rows, cols);
    }

    /** A rows x cols grid of fresh cells; cell [r][c] is Cell(r, c). */
    static method InitializeGrid(rows: nat, cols: nat) returns (grid: seq<seq<Cell>>)
      ensures |grid| == rows
      ensures forall r :: 0 <= r < rows ==> |grid[r]| == cols
      ensures forall r, c :: 0 <= r < rows && 0 <= c < cols ==>
        fresh(grid[r][c]) && grid[r][c].row == r && grid[r][c].col == c &&
        !grid[r][c].visited && grid[r][c].walls == AllClosed
    {
      grid := [];
      for r := 0 to rows
        invariant |grid| == r
        invariant forall i :: 0 <= i < r ==> |grid[i]| == cols
        invariant forall i, c :: 0 <= i < r && 0 <= c < cols ==>
          fresh(grid[i][c]) && grid[i][c].row == i && grid[i][c].col == c &&
          !grid[i][c].visited && grid[i][c].walls == AllClosed
      {
        var row: seq<Cell> := [];
        for c := 0 to cols
          modifies {}
          invariant |row| == c
          invariant forall j :: 0 <= j < c ==>
            fresh(row[j]) && row[j].row == r && row[j].col == j && !row[j].visited && row[j].walls == AllClosed
        {
          var cell := new Cell(r, c);
          row := row + [cell];
        }
        grid := grid + [row];
      }
    }

    /** The cell at (row, col), or null when the coordinate is off the grid. */
    function GetCell(row: int, col: int): (cell: Cell?)
      requires Valid()
      ensures cell == null <==> row < 0 || col < 0 || row >= rows || col >= cols
      ensures cell != null ==> cell.row == row && cell.col == col && IsGridCell(cell) && cell in cells
    {
      if row < 0 || col < 0 || row >= rows || col >= cols then null
      else grid[row][col]
    }

    /** The cells cs are all cells of the grid. */
    ghost predicate OnGrid(cs: seq<Cell>)
      requires Valid()
    {
      forall c :: c in cs ==> IsGridCell(c)
    }

    /** Pushing a grid cell, or popping the last cell, keeps a sequence of grid cells. */
    lemma OnGridPushPop(cs: seq<Cell>, c: Cell)
      requires Valid() && OnGrid(cs) && IsGridCell(c)
      ensures OnGrid(cs + [c])
      ensures |cs| > 0 ==> OnGrid(cs[..|cs| - 1])
    {
      if |cs| > 0 {
        assert forall x :: x in cs[..|cs| - 1] ==> x in cs;
      }
    }

    /** Every candidate names the grid cell on its side of cell. */
    ghost predicate Beside(cell: Cell, ns: seq<Neighbor>)
      requires Valid()
    {
      forall n {:trigger n in ns} :: n in ns ==>
        var p := Step(cell.Coord(), n.direction);
        InBounds(p.0, p.1) && n.cell == grid[p.0][p.1]
    }

    lemma BesideJoin(cell: Cell, n1: seq<Neighbor>, n2: seq<Neighbor>, n3: seq<Neighbor>, n4: seq<Neighbor>)
      requires Valid()
      requires Beside(cell, n1) && Beside(cell, n2) && Beside(cell, n3) && Beside(cell, n4)
      ensures Beside(cell, n1 + n2 + n3 + n4)
    {
    }

    /**
     * The candidate list of one side: the cell on side d of cell when it is
     * in bounds and unvisited, and nothing otherwise.
     */
    lemma CandidateOnSide(cell: Cell, d: Direction, c: Cell?, ns: seq<Neighbor>)
      requires Valid()
      requires c == GetCell(Step(cell.Coord(), d).0, Step(cell.Coord(), d).1)
      requires ns == if c != null && !c.visited then [Neighbor(c, d)] else []
      ensures Sides(ns) == Side(Board(), cell.Coord(), d)
      ensures Beside(cell, ns)
    {
      var q := Step(cell.Coord(), d);
      assert q in Board() <==> q in AllCoords(rows, cols);
    }

    /**
     * The in-bounds, unvisited neighbours of cell, each with the side of cell
     * it lies on: one candidate per side that UnvisitedSides lists, in the
     * same order (top, right, bottom, left).
     */
    method GetUnvisitedNeighbors(cell: Cell) returns (neighbors: seq<Neighbor>)
      requires Valid()
      ensures Sides(neighbors) == UnvisitedSides(Board(), cell.Coord())
      ensures Beside(cell, neighbors)
    {
      var top := GetCell(cell.row - 1, cell.col);
      var right := GetCell(cell.row, cell.col + 1);
      var bottom := GetCell(cell.row + 1, cell.col);
      var left := GetCell(cell.row, cell.col - 1);
      var n1 := if top != null && !top.visited then [Neighbor(top, Top)] else [];
      var n2 := if right != null && !right.visited then [Neighbor(right, Right)] else [];
      var n3 := if bottom != null && !bottom.visited then [Neighbor(bottom, Bottom)] else [];
      var n4 := if left != null && !left.visited then [Neighbor(left, Left)] else [];
      CandidateOnSide(cell, Top, top, n1);
      CandidateOnSide(cell, Right, right, n2);
      CandidateOnSide(cell, Bottom, bottom, n3);
      CandidateOnSide(cell, Left, left, n4);
      SidesJoin(Board(), cell.Coord(), n1, n2, n3, n4);
      BesideJoin(cell, n1, n2, n3, n4);
      neighbors := n1 + n2 + n3 + n4;
    }

    /**
     * Opens side direction of current and the opposite side of next. Nothing
     * else changes; when the two are the same cell both sides open on it.
     */
    method RemoveWalls(current: Cell, next: Cell, direction: Direction)
      modifies current, next
      ensures current != next ==>
        current.walls == old(current.walls).Cleared(direction) &&
        next.walls == old(next.walls).Cleared(direction.Opposite())
      ensures current == next ==>
        current.walls == old(current.walls).Cleared(direction).Cleared(direction.Opposite())
      ensures current.visited == old(current.visited) && next.visited == old(next.visited)
    {
      match direction
      case Top =>
        current.walls := current.walls.(top := false);
        next.walls := next.walls.(bottom := false);
      case Right =>
        current.walls := current.walls.(right := false);
        next.walls := next.walls.(left := false);
      case Bottom =>
        current.walls := current.walls.(bottom := false);
        next.walls := next.walls.(top := false);
      case Left =>
        current.walls := current.walls.(left := false);
        next.walls := next.walls.(right := false);
    }

    /**
     * After the wall pair between neighbouring grid cells is opened, the
     * board is the old one with that edge open.
     */
    twostate lemma LinkedBoard(new current: Cell, new next: Cell, new d: Direction)
      requires Valid()
      requires IsGridCell(current) && IsGridCell(next)
      requires next.Coord() == Step(current.Coord(), d)
      requires forall c :: c in cells && c != current && c != next ==> c.visited == old(c.visited) && c.walls == old(c.walls)
      requires current.State() == old(Board())[current.Coord()].(walls := old(Board())[current.Coord()].walls.Cleared(d))
      requires next.State() == old(Board())[next.Coord()].(walls := old(Board())[next.Coord()].walls.Cleared(d.Opposite()))
      ensures Board() == Link(old(Board()), current.Coord(), d)
    {
      StepBack(current.Coord(), d);
      var b' := Link(old(Board()), current.Coord(), d);
      forall p: Pos | p in Board()
        ensures Board()[p] == b'[p]
      {
        var c := grid[p.0][p.1];
        if p == current.Coord() {
          assert c == current;
        } else if p == next.Coord() {
          assert c == next;
        } else {
          assert c != current && c != next;
        }
      }
    }

    /** After marking one grid cell visited, the board is the old one with that cell visited. */
    twostate lemma VisitedBoard(cell: Cell)
      requires Valid()
      requires IsGridCell(cell)
      requires forall c :: c in cells && c != cell ==> c.visited == old(c.visited) && c.walls == old(c.walls)
      requires cell.walls == old(cell.walls) && cell.visited
      ensures Board() == Visit(old(Board()), cell.Coord())
    {
      var b' := Visit(old(Board()), cell.Coord());
      forall p: Pos | p in Board()
        ensures Board()[p] == b'[p]
      {
      }
    }

    /**
     * The else branch of the generator's loop once the neighbour is chosen:
     * the wall pair between the two cells is removed and the neighbour is
     * marked visited, which opens that edge and visits that cell of the board.
     */
    method CarveToward(current: Cell, next: Cell, d: Direction)
      requires Valid() && IsGridCell(current) && IsGridCell(next)
      requires next.Coord() == Step(current.Coord(), d)
      modifies cells
      ensures Board() == Visit(Link(old(Board()), current.Coord(), d), next.Coord())
    {
      StepBack(current.Coord(), d);
      assert current in cells && next in cells;
      assert Board()[current.Coord()] == current.State() && Board()[next.Coord()] == next.State();
      RemoveWalls(current, next, d);
      LinkedBoard(current, next, d);
      label Linked:
      next.visited := true;
      VisitedBoard@Linked(next);
    }

    /**
     * One iteration of the generator's loop: the top of the stack is popped
     * when it has no unvisited neighbour; otherwise the value random(draws)
     * picks one of its unvisited neighbours, the wall pair between them is
     * removed, and the neighbour is visited and pushed. This is the iteration
     * Carve.Iterate computes on values.
     */
    method GenerateStep(stack: seq<Cell>, draws: nat, random: nat -> real) returns (stack': seq<Cell>, draws': nat)
      requires Valid() && IsRandom(random)
      requires |stack| > 0 && OnGrid(stack)
      modifies cells
      ensures OnGrid(stack')
      ensures Search(Board(), Positions(stack'), draws') == Iterate(Search(old(Board()), Positions(stack), draws), random)
      ensures (|stack'| == |stack| - 1 && draws' == draws) || (|stack'| == |stack| + 1 && draws' == draws + 1)
    {
      ghost var S := Search(Board(), Positions(stack), draws);
      var currentCell := stack[|stack| - 1];
      assert currentCell in stack;
      ghost var cp := currentCell.Coord();
      assert S.stack[|S.stack| - 1] == cp;
      var neighbors := GetUnvisitedNeighbors(currentCell);
      ghost var sides := UnvisitedSides(S.board, cp);
      assert |sides| == |neighbors|;
      if |neighbors| == 0 {
        IteratePop(S, random);
        PositionsPushPop(stack, currentCell);
        OnGridPushPop(stack, currentCell);
        stack' := stack[..|stack| - 1];
        draws' := draws;
      } else {
        var randomIndex := RandomIndex(random(draws), |neighbors|);
        var nextCell := neighbors[randomIndex].cell;
        var direction := neighbors[randomIndex].direction;
        assert neighbors[randomIndex] in neighbors;
        ghost var q := Step(cp, direction);
        assert direction == sides[randomIndex];
        UnvisitedSidesExact(S.board, cp, direction);
        assert IsGridCell(nextCell) && nextCell.Coord() == q && !S.board[q].visited;
        StepBack(cp, direction);
        IteratePush(S, random, randomIndex);
        CarveToward(currentCell, nextCell, direction);
        PositionsPushPop(stack, nextCell);
        OnGridPushPop(stack, nextCell);
        stack' := stack + [nextCell];
        draws' := draws + 1;
      }
    }

    /**
     * Carves the maze by randomized depth-first search with an explicit
     * stack. random(k) is the k-th value drawn in [0, 1), turned into an
     * index over exact reals (Carve.RandomIndex); the first two choose the
     * start cell. The carving is exactly the one the model in
     * module Carve computes, after its 2 * rows * cols - 1 iterations: every
     * cell is visited, the shared walls agree, exactly rows * cols - 1 wall
     * pairs are open, and any two cells are joined by open walls.
     */
    method Generate(random: nat -> real) returns (result: seq<seq<Cell>>, ghost iterations: nat)
      requires Valid() && rows > 0 && cols > 0
      requires Board() == InitialBoard(rows, cols)
      requires IsRandom(random)
      modifies cells
      ensures Valid() && result == grid
      ensures iterations == 2 * (rows * cols) - 1
      ensures Board() == Run(Start(rows, cols, random), random, iterations).board
      ensures Symmetric(Board())
      ensures VisitedSet(Board()) == AllCoords(rows, cols)
      ensures |OpenEdges(Board())| == rows * cols - 1
      ensures forall s, t :: s in AllCoords(rows, cols) && t in AllCoords(rows, cols) ==> Connected(Board(), s, t)
    {
      var startRow := RandomIndex(random(0), rows);
      var startCol := RandomIndex(random(1), cols);
      var startCell := GetCell(startRow, startCol);

      var stack: seq<Cell> := [];

      startCell.visited := true;
      VisitedBoard(startCell);
      stack := stack + [startCell];
      var draws := 2;
      ghost var s0 := Start(rows, cols, random);
      ghost var n: nat := 0;
      assert Positions(stack) == [startCell.Coord()];

      while |stack| > 0
        invariant OnGrid(stack)
        invariant Run(s0, random, n) == Search(Board(), Positions(stack), draws)
        invariant n == 2 * draws - 3 - |stack|
        invariant |stack| < draws <= rows * cols + 1
        decreases rows * cols + 1 - draws, |stack|
      {
        stack, draws := GenerateStep(stack, draws, random);
        ghost var m := n + 1;
        RunNext(s0, random, n, m);
        n := m;
        RunBounded(rows, cols, random, n);
      }
      RunComplete(rows, cols, random, n);
      CarvedConnected(rows, cols, random, n);
      result, iterations := grid, n;
    }

    /** The cells ns lie, in order, on the sides ds of cell. */
    ghost predicate OnSides(cell: Cell, ns: seq<Cell>, ds: seq<Direction>)
      requires Valid()
    {
      |ns| == |ds| &&
      forall j :: 0 <= j < |ns| ==> IsGridCell(ns[j]) && ns[j].Coord() == Step(cell.Coord(), ds[j])
    }

    lemma OnSidesJoin(cell: Cell, n1: seq<Cell>, n2: seq<Cell>, d1: seq<Direction>, d2: seq<Direction>)
      requires Valid() && OnSides(cell, n1, d1) && OnSides(cell, n2, d2)
      ensures OnSides(cell, n1 + n2, d1 + d2)
    {
    }

    /** b records the walls of every grid cell as they are. */
    ghost predicate WallsAre(b: Board)
      requires Valid()
      reads cells
    {
      b.Keys == AllCoords(rows, cols) &&
      forall p :: p in b ==> grid[p.0][p.1].walls == b[p].walls
    }

    /**
     * One side of the solver's neighbour collection: through an open side,
     * the cell behind it unless its coordinate is already visited. A grid
     * whose border is closed has a cell behind every open side.
     */
    method ExitOnSide(ghost b: Board, cell: Cell, visited: set<Pos>, d: Direction) returns (ns: seq<Cell>)
      requires Valid() && WallsAre(b) && BorderClosed(b) && IsGridCell(cell)
      ensures OnSides(cell, ns, Exit(b, cell.Coord(), visited, d))
    {
      ns := [];
      assert b[cell.Coord()].walls == cell.walls;
      if !cell.walls.Get(d) {
        var q := Step(cell.Coord(), d);
        var neighbor := GetCell(q.0, q.1);
        if neighbor.Coord() !in visited {
          ns := [neighbor];
        }
      }
    }

    /**
     * The neighbours the solver goes on to from cell: for each open side, in
     * the order top, right, bottom, left, the cell behind it unless it is
     * already visited. They are the cells on the sides Exits lists.
     */
    method AccessibleNeighbors(ghost b: Board, cell: Cell, visited: set<Pos>) returns (neighbors: seq<Cell>)
      requires Valid() && WallsAre(b) && BorderClosed(b) && IsGridCell(cell)
      ensures OnSides(cell, neighbors, Exits(b, cell.Coord(), visited))
    {
      var n1 := ExitOnSide(b, cell, visited, Top);
      var n2 := ExitOnSide(b, cell, visited, Right);
      var n3 := ExitOnSide(b, cell, visited, Bottom);
      var n4 := ExitOnSide(b, cell, visited, Left);
      ghost var p := cell.Coord();
      OnSidesJoin(cell, n1, n2, Exit(b, p, visited, Top), Exit(b, p, visited, Right));
      OnSidesJoin(cell, n1 + n2, n3, Exit(b, p, visited, Top) + Exit(b, p, visited, Right), Exit(b, p, visited, Bottom));
      OnSidesJoin(cell, n1 + n2 + n3, n4,
        Exit(b, p, visited, Top) + Exit(b, p, visited, Right) + Exit(b, p, visited, Bottom), Exit(b, p, visited, Left));
      neighbors := n1 + n2 + n3 + n4;
    }

    /**
     * The solver's state around a call: the cells on the current path are
     * grid cells, occur once each and are all visited, and every open side of
     * a visited cell off the path leads to a visited cell. The last says that
     * the search has finished exploring whatever it left behind.
     */
    ghost predicate Exploring(b: Board, visited: set<Pos>, currentPath: seq<Cell>)
      requires Valid()
    {
      (forall c :: c in currentPath ==> IsGridCell(c)) &&
      Distinct(Positions(currentPath)) &&
      (forall p :: p in Positions(currentPath) ==> p in visited) &&
      ClosedExcept(b, visited, Positions(currentPath))
    }

    /** Marking and pushing a grid cell that is not on the path keeps that state. */
    lemma ExploringPush(b: Board, visited: set<Pos>, currentPath: seq<Cell>, cell: Cell)
      requires Valid() && Exploring(b, visited, currentPath)
      requires IsGridCell(cell) && cell.Coord() !in Positions(currentPath)
      ensures Exploring(b, visited + {cell.Coord()}, currentPath + [cell])
    {
      PositionsPushPop(currentPath, cell);
      DistinctPush(Positions(currentPath), cell.Coord());
    }

    /**
     * Popping the last cell of the path keeps the state once the cell behind
     * every exit it had, with respect to the set visited0, has been visited.
     */
    lemma ExploringPop(b: Board, visited0: set<Pos>, visited: set<Pos>, currentPath: seq<Cell>, cell: Cell)
      requires Valid() && IsGridCell(cell) && cell.Coord() in b && visited0 <= visited
      requires Exploring(b, visited, currentPath + [cell])
      requires forall j :: 0 <= j < |Exits(b, cell.Coord(), visited0)| ==> Step(cell.Coord(), Exits(b, cell.Coord(), visited0)[j]) in visited
      ensures Exploring(b, visited, currentPath)
    {
      PositionsPushPop(currentPath, cell);
      ExitsExhausted(b, visited0, visited, Positions(currentPath), cell.Coord());
      assert currentPath == (currentPath + [cell])[..|currentPath|];
      assert forall c :: c in currentPath ==> c in currentPath + [cell];
    }

    /**
     * A successful search from cell: the current path was extended, starting
     * with cell, by an open walk that ends at end; the whole path has no
     * repeated cell.
     */
    ghost predicate Reached(b: Board, currentPath: seq<Cell>, cell: Cell, end: Cell, path: seq<Cell>)
      requires Valid()
    {
      (forall c :: c in path ==> IsGridCell(c)) &&
      |currentPath| < |path| && path[..|currentPath|] == currentPath && path[|currentPath|] == cell &&
      path[|path| - 1].Coord() == end.Coord() &&
      IsOpenWalk(b, Positions(path)[|currentPath|..]) && Distinct(Positions(path))
    }

    /** Pushing end onto a path it is not on reaches it. */
    lemma ReachedHere(b: Board, visited: set<Pos>, currentPath: seq<Cell>, cell: Cell, end: Cell)
      requires Valid() && IsGridCell(cell) && b.Keys == AllCoords(rows, cols) && Exploring(b, visited, currentPath)
      requires cell.Coord() !in Positions(currentPath) && cell.Coord() == end.Coord()
      ensures Reached(b, currentPath, cell, end, currentPath + [cell])
    {
      PositionsPushPop(currentPath, cell);
      DistinctPush(Positions(currentPath), cell.Coord());
      var path := currentPath + [cell];
      assert Positions(path)[|currentPath|..] == [cell.Coord()];
      assert path[..|currentPath|] == currentPath;
    }

    /** A search that reached end from the neighbour behind open side d of cell reached it from cell. */
    lemma ReachedThrough(b: Board, currentPath: seq<Cell>, cell: Cell, next: Cell, d: Direction, end: Cell, path: seq<Cell>)
      requires Valid() && cell.Coord() in b
      requires next.Coord() == Step(cell.Coord(), d) && !b[cell.Coord()].walls.Get(d)
      requires Reached(b, currentPath + [cell], next, end, path)
      ensures Reached(b, currentPath, cell, end, path)
    {
      FoundThrough(b, currentPath, cell, next, d, path);
    }

    /**
     * The recursive search of solveDFS, from cell towards end. The set of
     * visited coordinates and the current path, which the closure shares
     * between calls, are passed in and returned updated; b is the board,
     * which the search does not change. The cell is marked visited and
     * pushed; at the end the search stops with the path found. Otherwise the
     * neighbours are collected once, skipping those visited at that moment,
     * and searched in turn; a neighbour visited meanwhile by an earlier
     * sibling is entered again, but finds nothing left to explore. When
     * nothing is found the cell is popped again.
     *
     * When the search fails, the path is as it was and every cell reachable
     * from cell has been visited (Exploring holds without cell on the path).
     * When it succeeds, the path continues from cell to end through open
     * walls without repeating a cell.
     */
    method Dfs(ghost b: Board, cell: Cell, end: Cell, visited: set<Pos>, currentPath: seq<Cell>)
      returns (found: bool, visited': set<Pos>, currentPath': seq<Cell>)
      requires Valid() && WallsAre(b) && BorderClosed(b)
      requires IsGridCell(cell) && IsGridCell(end)
      requires Exploring(b, visited, currentPath) && cell.Coord() !in Positions(currentPath)
      requires end.Coord() !in visited
      ensures visited <= visited' && cell.Coord() in visited'
      ensures !found ==> currentPath' == currentPath && end.Coord() !in visited' && Exploring(b, visited', currentPath)
      ensures found ==> Reached(b, currentPath, cell, end, currentPath')
      decreases |AllCoords(rows, cols) - visited| + if cell.Coord() in visited then 0 else 1
    {
      var marked := visited + {cell.Coord()};
      var pushed := currentPath + [cell];
      ExploringPush(b, visited, currentPath, cell);
      if cell.row == end.row && cell.col == end.col {
        ReachedHere(b, visited, currentPath, cell, end);
        return true, marked, pushed;
      }
      var neighbors := AccessibleNeighbors(b, cell, marked);
      ghost var exits := Exits(b, cell.Coord(), marked);
      if cell.Coord() in visited {
        ClosedNoExits(b, visited, Positions(currentPath), cell.Coord());
      }
      var seen := marked;
      for i := 0 to |neighbors|
        invariant marked <= seen && end.Coord() !in seen
        invariant Exploring(b, seen, pushed)
        invariant forall j :: 0 <= j < i ==> Step(cell.Coord(), exits[j]) in seen
        invariant cell.Coord() in visited ==> |neighbors| == 0
      {
        ExitsExact(b, cell.Coord(), marked, exits[i]);
        FewerUnvisited(AllCoords(rows, cols), visited, seen, cell.Coord());
        var found', seen', path' := Dfs(b, neighbors[i], end, seen, pushed);
        if found' {
          ReachedThrough(b, currentPath, cell, neighbors[i], exits[i], end, path');
          return true, seen', path';
        }
        ExploredNext(cell.Coord(), exits, seen, seen', i);
        seen := seen';
      }
      ExploringPop(b, marked, seen, currentPath, cell);
      return false, seen, currentPath;
    }

    /**
     * solveDFS: the path from the start cell to the end cell (by default the
     * top-left and the bottom-right corner) that the depth-first search finds,
     * or the empty path when there is none. A path found is a walk through
     * open walls that never repeats a cell; the empty path is returned
     * exactly when no such walk exists. The grid is not changed.
     */
    method SolveDFS(startRow: int := 0, startCol: int := 0, endRow: int := rows - 1, endCol: int := cols - 1)
      returns (path: seq<Cell>)
      requires Valid() && InBounds(startRow, startCol) && InBounds(endRow, endCol)
      requires BorderClosed(Board())
      ensures forall c :: c in path ==> IsGridCell(c)
      ensures path != [] ==> IsSimplePath(Board(), Positions(path))
      ensures path != [] ==> Positions(path)[0] == (startRow, startCol) && Positions(path)[|path| - 1] == (endRow, endCol)
      ensures path == [] <==> !Connected(Board(), (startRow, startCol), (endRow, endCol))
    {
      var startCell := GetCell(startRow, startCol);
      var endCell := GetCell(endRow, endCol);
      var visited: set<Pos> := {};
      var currentPath: seq<Cell> := [];
      ghost var b := Board();
      var found, visited', path' := Dfs(b, startCell, endCell, visited, currentPath);
      path := path';
      SolvedOrSeparated(b, found, visited', startCell, endCell, path);
    }

    /** What the outcome of the search says about the start and the end. */
    lemma SolvedOrSeparated(b: Board, found: bool, visited: set<Pos>, startCell: Cell, endCell: Cell, path: seq<Cell>)
      requires Valid() && b.Keys == AllCoords(rows, cols)
      requires found ==> Reached(b, [], startCell, endCell, path)
      requires !found ==> path == [] && endCell.Coord() !in visited && Exploring(b, visited, [])
      requires startCell.Coord() in visited
      ensures forall c :: c in path ==> IsGridCell(c)
      ensures path != [] ==> IsSimplePath(b, Positions(path))
      ensures path != [] ==> Positions(path)[0] == startCell.Coord() && Positions(path)[|path| - 1] == endCell.Coord()
      ensures path == [] <==> !Connected(b, startCell.Coord(), endCell.Coord())
    {
      if found {
        var w := Positions(path);
        assert w[0..] == w;
      } else {
        Separated(b, visited, startCell.Coord(), endCell.Coord());
      }
    }

    /**
     * print: the maze as ASCII art, every cell body blank. The rows are drawn
     * as printWithSolution draws them for an empty path.
     */
    method Render() returns (output: string)
      requires Valid()
      ensures output == Picture(Board(), rows, cols, {})
    {
      ghost var b := Board();
      assert WallsAre(b);
      output := "";
      output := output + "+" + Repeat("---+", cols) + "\n";
      assert output == Join(Lines(b, 0, cols, {}));
      for r := 0 to rows
        invariant output == Join(Lines(b, r, cols, {}))
      {
        var rowStr, bottomStr := RenderRow(b, r, {});
        JoinTwoMore(Lines(b, r, cols, {}), rowStr, bottomStr);
        output := output + rowStr + "\n" + bottomStr + "\n";
      }
    }

    /**
     * printWithSolution: the maze as ASCII art with the cells of path drawn
     * as " * ". It is the picture of the grid with the path's coordinates.
     */
    method RenderWithSolution(path: seq<Cell>) returns (output: string)
      requires Valid()
      ensures output == Picture(Board(), rows, cols, PathCoords(path))
    {
      ghost var b := Board();
      assert WallsAre(b);
      var pathSet: set<Pos> := {};
      for i := 0 to |path|
        invariant pathSet == PathCoords(path[..i])
      {
        assert PathCoords(path[..i + 1]) == PathCoords(path[..i]) + {path[i].Coord()} by {
          assert forall j :: 0 <= j < i ==> path[..i + 1][j] == path[..i][j];
        }
        pathSet := pathSet + {path[i].Coord()};
      }
      assert path[..|path|] == path;
      output := "";
      output := output + "+" + Repeat("---+", cols) + "\n";
      assert output == Join(Lines(b, 0, cols, pathSet));
      for r := 0 to rows
        invariant output == Join(Lines(b, r, cols, pathSet))
      {
        var rowStr, bottomStr := RenderRow(b, r, pathSet);
        JoinTwoMore(Lines(b, r, cols, pathSet), rowStr, bottomStr);
        output := output + rowStr + "\n" + bottomStr + "\n";
      }
    }

    /**
     * The two lines of row r: the cells with their bodies and right walls,
     * and the bottom walls under them.
     */
    method RenderRow(ghost b: Board, r: nat, pathSet: set<Pos>) returns (rowStr: string, bottomStr: string)
      requires Valid() && WallsAre(b) && r < rows
      ensures rowStr == CellLine(b, r, cols, pathSet) && bottomStr == WallLine(b, r, cols)
    {
      rowStr := "|";
      bottomStr := "+";
      for c := 0 to cols
        invariant rowStr == CellLine(b, r, c, pathSet) && bottomStr == WallLine(b, r, c)
      {
        var cell := GetCell(r, c);
        var isOnPath := (r, c) in pathSet;
        assert (r, c) in b;
        rowStr := rowStr + (if isOnPath then " * " else "   ");
        rowStr := rowStr + (if cell.walls.right then "|" else " ");
        bottomStr := bottomStr + (if cell.walls.bottom then "---" else "   ");
        bottomStr := bottomStr + "+";
      }
    }
  }

  /**
   * On a board whose shared walls agree and whose cells are all joined by
   * open walls, as Generate leaves the grid, the solver's requirement holds
   * and the top-left corner is joined to the bottom-right one.
   */
  lemma CornersJoined(b: Board, rows: nat, cols: nat)
    requires rows > 0 && cols > 0
    requires Symmetric(b)
    requires forall s, t :: s in AllCoords(rows, cols) && t in AllCoords(rows, cols) ==> Connected(b, s, t)
    ensures BorderClosed(b)
    ensures Connected(b, (0, 0), (rows - 1, cols - 1))
  {
    SymmetricBorderClosed(b);
    assert (0, 0) in AllCoords(rows, cols) && (rows - 1, cols - 1) in AllCoords(rows, cols);
  }

  /**
   * Solving a maze whose corners are joined, between those corners: the
   * solver finds a path, from the top-left to the bottom-right corner
   * through open walls without repeating a cell.
   */
  method SolveJoined(maze: MazeGenerator) returns (path: seq<Cell>)
    requires maze.Valid() && maze.rows > 0 && maze.cols > 0
    requires BorderClosed(maze.Board())
    requires Connected(maze.Board(), (0, 0), (maze.rows - 1, maze.cols - 1))
    ensures path != []
    ensures IsSimplePath(maze.Board(), Positions(path))
    ensures Positions(path)[0] == (0, 0) && Positions(path)[|path| - 1] == (maze.rows - 1, maze.cols - 1)
  {
    ghost var b := maze.Board();
    path := maze.SolveDFS();
    assert maze.Board() == b;
    assert path != [];
  }

  /**
   * The library's usage: build a rows x cols maze, generate it and solve it
   * with the default corners. The solver always finds a path, and the path
   * runs from the top-left to the bottom-right corner through open walls
   * without repeating a cell.
   */
  method GenerateAndSolve(rows: nat, cols: nat, random: nat -> real) returns (maze: MazeGenerator, path: seq<Cell>)
    requires rows > 0 && cols > 0 && IsRandom(random)
    ensures maze.Valid() && maze.rows == rows && maze.cols == cols
    ensures path != []
    ensures IsSimplePath(maze.Board(), Positions(path))
    ensures Positions(path)[0] == (0, 0) && Positions(path)[|path| - 1] == (rows - 1, cols - 1)
  {
    maze := new MazeGenerator(rows, cols);
    var grid;
    ghost var iterations;
    grid, iterations := maze.Generate(random);
    CornersJoined(maze.Board(), rows, cols);
    path := SolveJoined(maze);
  }
}
