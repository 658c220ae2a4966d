/**
 * The grid model of the maze: the four sides of a cell, a cell's wall flags,
 * and a board, the value view of a whole grid (one state per coordinate).
 *
 * The shared-wall invariant (Symmetric), the pure counterpart of wall removal
 * (Link) and the facts about one step of the randomized depth-first search
 * (CarveStep, SettledVisitedCoverGrid) are stated and proved here; the
 * classes in module Maze are tied to these definitions through Board().
 */
module Grid {

  /** One side of a cell; the code always looks at the sides in this order. */
  datatype Direction = Top | Right | Bottom | Left
  {
    /** The side of the neighbouring cell that faces this side. */
    function Opposite(): Direction {
      match this
      case Top => Bottom
      case Right => Left
      case Bottom => Top
      case Left => Right
    }

    /** Position in the fixed exploration order top, right, bottom, left. */
    function Rank(): nat {
      match this
      case Top => 0
      case Right => 1
      case Bottom => 2
      case Left => 3
    }
  }

  /** A grid coordinate (row, column). */
  type Pos = (int, int)

  /** The coordinate next to p on side d; no bounds check. */
  function Step(p: Pos, d: Direction): Pos {
    match d
    case Top => (p.0 - 1, p.1)
    case Right => (p.0, p.1 + 1)
    case Bottom => (p.0 + 1, p.1)
    case Left => (p.0, p.1 - 1)
  }

  /** Stepping to a side and back along the opposite side returns to the start. */
  lemma StepBack(p: Pos, d: Direction)
    ensures Step(p, d) != p
    ensures Step(Step(p, d), d.Opposite()) == p
  {
  }

  /** The four wall flags of a cell. */
  datatype Walls = Walls(top: bool, right: bool, bottom: bool, left: bool)
  {
    function Get(d: Direction): bool {
      match d
      case Top => top
      case Right => right
      case Bottom => bottom
      case Left => left
    }

    /** These walls with side d open. */
    function Cleared(d: Direction): (w: Walls)
      ensures !w.Get(d)
      ensures forall e: Direction :: e != d ==> w.Get(e) == Get(e)
    {
      match d
      case Top => this.(top := false)
      case Right => this.(right := false)
      case Bottom => this.(bottom := false)
      case Left => this.(left := false)
    }
  }

  /** The walls of a new cell: every side closed. */
  const AllClosed := Walls(true, true, true, true)

  /** What the maze code reads and writes of one cell. */
  datatype CellState = CellState(visited: bool, walls: Walls)

  /** A whole grid as a value: the state of the cell at every coordinate. */
  type Board = map<Pos, CellState>

  /** The coordinates of a rows x cols grid. */
  function AllCoords(rows: nat, cols: nat): (s: set<Pos>)
    ensures forall p: Pos {:trigger p in s} :: p in s <==> 0 <= p.0 < rows && 0 <= p.1 < cols
  {
    var s := set r, c | 0 <= r < rows && 0 <= c < cols :: (r, c);
    assert forall p: Pos :: 0 <= p.0 < rows && 0 <= p.1 < cols ==> (p.0, p.1) in s;
    s
  }

  /** Row r of the grid, restricted to its first n columns. */
  function RowCoords(r: int, n: nat): (s: set<Pos>)
    ensures forall p: Pos {:trigger p in s} :: p in s <==> p.0 == r && 0 <= p.1 < n
  {
    var s := set c | 0 <= c < n :: (r, c);
    assert forall p: Pos :: p.0 == r && 0 <= p.1 < n ==> (r, p.1) in s;
    s
  }

  lemma {:induction false} RowCoordsCard(r: int, n: nat)
    ensures |RowCoords(r, n)| == n
  {
    if n > 0 {
      RowCoordsCard(r, n - 1);
      assert RowCoords(r, n) == RowCoords(r, n - 1) + {(r, n - 1)};
    }
  }

  /** The grid of rows rows is the grid of rows - 1 rows plus its last row. */
  lemma AllCoordsLastRow(rows: nat, cols: nat)
    requires rows > 0
    ensures AllCoords(rows, cols) == AllCoords(rows - 1, cols) + RowCoords(rows - 1, cols)
    ensures AllCoords(rows - 1, cols) * RowCoords(rows - 1, cols) == {}
  {
  }

  lemma MulLastRow(rows: nat, cols: nat)
    requires rows > 0
    ensures (rows - 1) * cols + cols == rows * cols
  {
  }

  /** A rows x cols grid has rows * cols cells. */
  lemma {:induction false} AllCoordsCard(rows: nat, cols: nat)
    ensures |AllCoords(rows, cols)| == rows * cols
  {
    if rows > 0 {
      AllCoordsCard(rows - 1, cols);
      RowCoordsCard(rows - 1, cols);
      AllCoordsLastRow(rows, cols);
      MulLastRow(rows, cols);
    }
  }

  /** The board of a freshly built grid: every cell unvisited and fully walled. */
  function InitialBoard(rows: nat, cols: nat): (b: Board)
    ensures b.Keys == AllCoords(rows, cols)
  {
    map p | p in AllCoords(rows, cols) :: CellState(false, AllClosed)
  }

  /**
   * The shared-wall invariant: a side inside the grid agrees with the facing
   * side of the neighbour, and a side on the border of the grid is closed.
   */
  ghost predicate Symmetric(b: Board) {
    forall p: Pos, d: Direction :: p in b ==>
      if Step(p, d) in b then b[p].walls.Get(d) == b[Step(p, d)].walls.Get(d.Opposite())
      else b[p].walls.Get(d)
  }

  /** Every open side leads to a cell of the grid (weaker than Symmetric). */
  ghost predicate BorderClosed(b: Board) {
    forall p: Pos, d: Direction :: p in b && !b[p].walls.Get(d) ==> Step(p, d) in b
  }

  lemma SymmetricBorderClosed(b: Board)
    requires Symmetric(b)
    ensures BorderClosed(b)
  {
  }

  lemma InitialBoardSymmetric(rows: nat, cols: nat)
    ensures Symmetric(InitialBoard(rows, cols))
  {
  }

  /**
   * Wall removal on a board: side d of p and the facing side of its
   * d-neighbour are opened; every other flag stays as it was.
   */
  function Link(b: Board, p: Pos, d: Direction): (b': Board)
    requires p in b && Step(p, d) in b
    ensures b'.Keys == b.Keys
    ensures !b'[p].walls.Get(d) && !b'[Step(p, d)].walls.Get(d.Opposite())
    ensures forall x: Pos, e: Direction :: x in b && b'[x].walls.Get(e) != b[x].walls.Get(e) ==>
      (x == p && e == d) || (x == Step(p, d) && e == d.Opposite())
    ensures forall x: Pos :: x in b ==> b'[x].visited == b[x].visited
    ensures forall x: Pos :: x in b && x != p && x != Step(p, d) ==> b'[x] == b[x]
  {
    var q := Step(p, d);
    StepBack(p, d);
    var b1 := b[p := b[p].(walls := b[p].walls.Cleared(d))];
    b1[q := b1[q].(walls := b1[q].walls.Cleared(d.Opposite()))]
  }

  /** Opening the wall between two neighbours keeps the shared-wall invariant. */
  lemma LinkPreservesSymmetry(b: Board, p: Pos, d: Direction)
    requires Symmetric(b) && p in b && Step(p, d) in b
    ensures Symmetric(Link(b, p, d))
  {
    var b' := Link(b, p, d);
    var q := Step(p, d);
    StepBack(p, d);
    forall x: Pos, e: Direction | x in b'
      ensures if Step(x, e) in b' then b'[x].walls.Get(e) == b'[Step(x, e)].walls.Get(e.Opposite())
              else b'[x].walls.Get(e)
    {
      StepBack(x, e);
      var y := Step(x, e);
      if (x == p && e == d) || (x == q && e == d.Opposite()) {
      } else if (y == p && e.Opposite() == d) || (y == q && e.Opposite() == d.Opposite()) {
        assert e.Opposite().Opposite() == e;
      } else {
        assert b'[x].walls.Get(e) == b[x].walls.Get(e);
        if y in b {
          assert b'[y].walls.Get(e.Opposite()) == b[y].walls.Get(e.Opposite());
        }
      }
    }
  }

  /**
   * The wall between p and its d-neighbour, named once: by the cell that has
   * it as its right or its bottom side.
   */
  function Edge(p: Pos, d: Direction): (Pos, Direction) {
    match d
    case Top => (Step(p, Top), Bottom)
    case Right => (p, Right)
    case Bottom => (p, Bottom)
    case Left => (Step(p, Left), Right)
  }

  /** The open walls inside the grid, each wall pair counted once. */
  ghost function OpenEdges(b: Board): set<(Pos, Direction)> {
    set p: Pos, d: Direction | p in b && d in {Right, Bottom} && !b[p].walls.Get(d) :: (p, d)
  }

  /** Edge names the wall by one of its two sides, the right or bottom one. */
  lemma EdgeSide(p: Pos, d: Direction)
    ensures Edge(p, d).1 in {Right, Bottom}
    ensures Edge(p, d) == (p, d) || Edge(p, d) == (Step(p, d), d.Opposite())
    ensures Edge(p, d) == (p, d) ==> d in {Right, Bottom}
    ensures Edge(p, d) == (Step(p, d), d.Opposite()) ==> d.Opposite() in {Right, Bottom}
  {
  }

  /** Opening a closed wall between neighbours adds exactly one open wall pair. */
  lemma LinkOpensOneEdge(b: Board, p: Pos, d: Direction)
    requires Symmetric(b) && p in b && Step(p, d) in b && b[p].walls.Get(d)
    ensures Edge(p, d) !in OpenEdges(b)
    ensures OpenEdges(Link(b, p, d)) == OpenEdges(b) + {Edge(p, d)}
    ensures |OpenEdges(Link(b, p, d))| == |OpenEdges(b)| + 1
  {
    var b' := Link(b, p, d);
    var q := Step(p, d);
    var E := Edge(p, d);
    StepBack(p, d);
    EdgeSide(p, d);
    assert b[q].walls.Get(d.Opposite());
    assert E.0 in b && b[E.0].walls.Get(E.1) && !b'[E.0].walls.Get(E.1);
    forall x: Pos, e: Direction | x in b && e in {Right, Bottom}
      ensures !b'[x].walls.Get(e) <==> !b[x].walls.Get(e) || (x, e) == E
    {
      if (x, e) != (p, d) && (x, e) != (q, d.Opposite()) {
        assert b'[x].walls.Get(e) == b[x].walls.Get(e);
      }
    }
    assert OpenEdges(b') == OpenEdges(b) + {E};
  }

  /** The board with the cell at p marked visited. */
  function Visit(b: Board, p: Pos): (b': Board)
    requires p in b
    ensures b'.Keys == b.Keys && b'[p].visited
    ensures forall x: Pos :: x in b ==> b'[x].walls == b[x].walls && (x != p ==> b'[x] == b[x])
  {
    b[p := b[p].(visited := true)]
  }

  /** The coordinates of the visited cells. */
  ghost function VisitedSet(b: Board): set<Pos> {
    set p | p in b && b[p].visited
  }

  /** Every unvisited cell still has all four walls. */
  ghost predicate FreshWalled(b: Board) {
    forall p: Pos :: p in b && !b[p].visited ==> b[p].walls == AllClosed
  }

  /** No neighbour of p inside the grid is unvisited (the search is done with p). */
  ghost predicate Settled(b: Board, p: Pos) {
    forall d: Direction :: Step(p, d) in b ==> b[Step(p, d)].visited
  }

  /** Side d of p leads to a cell of the board that is not yet visited. */
  predicate OpenToVisit(b: Board, p: Pos, d: Direction) {
    Step(p, d) in b && !b[Step(p, d)].visited
  }

  /** Side d of p as a candidate: listed when it leads to an unvisited cell. */
  function Side(b: Board, p: Pos, d: Direction): seq<Direction> {
    if OpenToVisit(b, p, d) then [d] else []
  }

  /** The sides among ds, in the order of ds, that lead to unvisited cells. */
  function OpenSides(b: Board, p: Pos, ds: seq<Direction>): seq<Direction> {
    if ds == [] then [] else Side(b, p, ds[0]) + OpenSides(b, p, ds[1..])
  }

  /**
   * The sides of p through which the carving can still move, in the order
   * top, right, bottom, left: the directions of the generator's candidates.
   */
  function UnvisitedSides(b: Board, p: Pos): seq<Direction> {
    OpenSides(b, p, [Top, Right, Bottom, Left])
  }

  /** The four sides, written out. */
  lemma UnvisitedSidesUnfold(b: Board, p: Pos)
    ensures UnvisitedSides(b, p) ==
      Side(b, p, Top) + Side(b, p, Right) + Side(b, p, Bottom) + Side(b, p, Left)
  {
    var ds := [Top, Right, Bottom, Left];
    assert OpenSides(b, p, ds[3..]) == Side(b, p, Left) by {
      assert ds[3..][1..] == [];
    }
    assert OpenSides(b, p, ds[2..]) == Side(b, p, Bottom) + OpenSides(b, p, ds[3..]) by {
      assert ds[2..][1..] == ds[3..];
    }
    assert OpenSides(b, p, ds[1..]) == Side(b, p, Right) + OpenSides(b, p, ds[2..]) by {
      assert ds[1..][1..] == ds[2..];
    }
    assert OpenSides(b, p, ds) == Side(b, p, Top) + OpenSides(b, p, ds[1..]);
  }

  /** A side is listed exactly when it leads to an unvisited cell of the board. */
  lemma UnvisitedSidesExact(b: Board, p: Pos, d: Direction)
    ensures d in UnvisitedSides(b, p) <==> OpenToVisit(b, p, d)
  {
    UnvisitedSidesUnfold(b, p);
  }

  /** At most four sides, each at most once, in increasing rank. */
  lemma UnvisitedSidesOrdered(b: Board, p: Pos)
    ensures |UnvisitedSides(b, p)| <= 4
    ensures forall i, j :: 0 <= i < j < |UnvisitedSides(b, p)| ==>
      UnvisitedSides(b, p)[i].Rank() < UnvisitedSides(b, p)[j].Rank()
  {
    UnvisitedSidesUnfold(b, p);
    var s := UnvisitedSides(b, p);
    forall i, j | 0 <= i < j < |s|
      ensures s[i].Rank() < s[j].Rank()
    {
      UnvisitedSidesExact(b, p, s[i]);
      UnvisitedSidesExact(b, p, s[j]);
    }
  }

  /** No side is listed exactly when p is settled. */
  lemma UnvisitedSidesEmpty(b: Board, p: Pos)
    ensures UnvisitedSides(b, p) == [] <==> Settled(b, p)
  {
    UnvisitedSidesUnfold(b, p);
    if !Settled(b, p) {
      var d :| Step(p, d) in b && !b[Step(p, d)].visited;
      UnvisitedSidesExact(b, p, d);
    }
  }

  /**
   * Marking a cell visited touches no wall, adds that one cell to the
   * visited set and unsettles nothing.
   */
  lemma VisitKeepsWalls(b: Board, q: Pos)
    requires q in b
    ensures Symmetric(b) ==> Symmetric(Visit(b, q))
    ensures OpenEdges(Visit(b, q)) == OpenEdges(b)
    ensures VisitedSet(Visit(b, q)) == VisitedSet(b) + {q}
    ensures forall x: Pos :: Settled(b, x) ==> Settled(Visit(b, q), x)
  {
    assert OpenEdges(Visit(b, q)) == OpenEdges(b);
  }

  /**
   * One push of the depth-first search: from a visited cell p, open the wall
   * to its unvisited d-neighbour and mark that neighbour visited. The
   * shared-wall invariant and "unvisited cells are fully walled" are kept,
   * one cell joins the visited set and exactly one wall pair opens.
   */
  lemma CarveStep(b: Board, p: Pos, d: Direction)
    requires Symmetric(b) && FreshWalled(b)
    requires p in b && b[p].visited && Step(p, d) in b && !b[Step(p, d)].visited
    ensures Symmetric(Visit(Link(b, p, d), Step(p, d)))
    ensures FreshWalled(Visit(Link(b, p, d), Step(p, d)))
    ensures Step(p, d) !in VisitedSet(b)
    ensures VisitedSet(Visit(Link(b, p, d), Step(p, d))) == VisitedSet(b) + {Step(p, d)}
    ensures |VisitedSet(Visit(Link(b, p, d), Step(p, d)))| == |VisitedSet(b)| + 1
    ensures |OpenEdges(Visit(Link(b, p, d), Step(p, d)))| == |OpenEdges(b)| + 1
    ensures forall x: Pos :: Settled(b, x) ==> Settled(Visit(Link(b, p, d), Step(p, d)), x)
  {
    var q := Step(p, d);
    var bl := Link(b, p, d);
    StepBack(p, d);
    assert b[q].walls.Get(d.Opposite());
    LinkPreservesSymmetry(b, p, d);
    LinkOpensOneEdge(b, p, d);
    LinkKeepsVisited(b, p, d);
    VisitKeepsWalls(bl, q);
    CarveKeepsFreshWalled(b, p, d);
  }

  /** One cell of the board after a push: the two linked cells and everything else. */
  lemma CarvedCell(b: Board, p: Pos, d: Direction, x: Pos)
    requires p in b && Step(p, d) in b && x in b
    ensures var b' := Visit(Link(b, p, d), Step(p, d));
      b'[x] ==
        if x == p then CellState(b[x].visited, b[x].walls.Cleared(d))
        else if x == Step(p, d) then CellState(true, b[x].walls.Cleared(d.Opposite()))
        else b[x]
  {
    StepBack(p, d);
  }

  /** Opening a wall changes no visited flag. */
  lemma LinkKeepsVisited(b: Board, p: Pos, d: Direction)
    requires p in b && Step(p, d) in b
    ensures VisitedSet(Link(b, p, d)) == VisitedSet(b)
    ensures forall x: Pos :: Settled(b, x) ==> Settled(Link(b, p, d), x)
  {
  }

  /** The two cells whose walls a push changes are both visited afterwards. */
  lemma CarveKeepsFreshWalled(b: Board, p: Pos, d: Direction)
    requires FreshWalled(b)
    requires p in b && b[p].visited && Step(p, d) in b
    ensures FreshWalled(Visit(Link(b, p, d), Step(p, d)))
  {
    var b' := Visit(Link(b, p, d), Step(p, d));
    forall x: Pos | x in b' && !b'[x].visited
      ensures b'[x].walls == AllClosed
    {
      assert x != p && x != Step(p, d);
      assert forall e: Direction :: b'[x].walls.Get(e) == b[x].walls.Get(e);
    }
  }

  /** The number of steps between two coordinates (Manhattan distance). */
  function Distance(s: Pos, t: Pos): nat {
    (if s.0 < t.0 then t.0 - s.0 else s.0 - t.0) + (if s.1 < t.1 then t.1 - s.1 else s.1 - t.1)
  }

  /** The side of s that faces t: a step that way brings s closer to t. */
  function Toward(s: Pos, t: Pos): (d: Direction)
    requires s != t
    ensures Distance(Step(s, d), t) < Distance(s, t)
  {
    if s.0 < t.0 then Bottom
    else if s.0 > t.0 then Top
    else if s.1 < t.1 then Right
    else Left
  }

  /** A visited cell from which every cell is reached through settled cells. */
  lemma {:induction false} ReachBySettled(b: Board, rows: nat, cols: nat, s: Pos, t: Pos)
    requires b.Keys == AllCoords(rows, cols)
    requires forall p: Pos :: p in VisitedSet(b) ==> Settled(b, p)
    requires s in VisitedSet(b) && t in b
    ensures t in VisitedSet(b)
    decreases Distance(s, t)
  {
    if s != t {
      var d := Toward(s, t);
      assert Step(s, d) in b;
      assert Settled(b, s);
      ReachBySettled(b, rows, cols, Step(s, d), t);
    }
  }

  /**
   * When the search stack is empty every visited cell is settled; since the
   * grid is a connected rectangle, one visited cell then means all are.
   */
  lemma SettledVisitedCoverGrid(b: Board, rows: nat, cols: nat)
    requires b.Keys == AllCoords(rows, cols)
    requires VisitedSet(b) != {}
    requires forall p: Pos :: p in VisitedSet(b) ==> Settled(b, p)
    ensures VisitedSet(b) == b.Keys
    ensures |VisitedSet(b)| == rows * cols
  {
    var s :| s in VisitedSet(b);
    forall t: Pos | t in b
      ensures t in VisitedSet(b)
    {
      ReachBySettled(b, rows, cols, s, t);
    }
    AllCoordsCard(rows, cols);
  }

  /** No coordinate occurs twice. */
  ghost predicate Distinct(s: seq<Pos>) {
    forall i, j :: 0 <= i < j < |s| ==> s[i] != s[j]
  }

  /** Pushing an element that does not occur keeps a sequence free of repeats. */
  lemma DistinctPush(s: seq<Pos>, x: Pos)
    requires Distinct(s) && x !in s
    ensures Distinct(s + [x])
  {
  }

  /** A subset is no larger than its superset. */
  lemma SubsetCard(a: set<Pos>, c: set<Pos>)
    requires a <= c
    ensures |a| <= |c|
  {
    assert c == a + (c - a);
  }
}
