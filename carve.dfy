/**
 * The maze generator's randomized depth-first search on values: the state
 * between two iterations of its loop, one iteration as a function, and the
 * invariant every iteration keeps. MazeGenerator.Generate is proved to
 * compute exactly what this model computes.
 */
module Carve {
  import opened Grid

  /** The values of Math.random: the k-th value drawn is random(k), in [0, 1). */
  ghost predicate IsRandom(random: nat -> real) {
    forall k: nat :: 0.0 <= random(k) < 1.0
  }

  /**
   * An index drawn as Math.floor(x * n) from one value x of Math.random,
   * with the product taken over exact reals rather than doubles: always a
   * valid index into n candidates.
   */
  function RandomIndex(x: real, n: nat): (i: nat)
    requires 0.0 <= x < 1.0 && n > 0
    ensures i < n
  {
    assert 0.0 <= x * n as real < n as real;
    (x * n as real).Floor
  }

  /** Every index below n is drawn by some value in [0, 1): i is drawn by i / n. */
  lemma RandomIndexOnto(i: nat, n: nat)
    requires i < n
    ensures 0.0 <= i as real / n as real < 1.0
    ensures RandomIndex(i as real / n as real, n) == i
  {
    assert i as real / n as real * n as real == i as real;
  }

  /**
   * The generator between two iterations: the board, the coordinates on the
   * backtracking stack (top last), and how many values of Math.random have
   * been drawn so far.
   */
  datatype Search = Search(board: Board, stack: seq<Pos>, draws: nat)

  /**
   * The state before the loop: two draws choose the start cell, which is
   * marked visited and pushed.
   */
  function Start(rows: nat, cols: nat, random: nat -> real): (s: Search)
    requires rows > 0 && cols > 0 && IsRandom(random)
    ensures |s.stack| == 1 && s.stack[0] in AllCoords(rows, cols) && s.draws == 2
  {
    var p := (RandomIndex(random(0), rows), RandomIndex(random(1), cols));
    Search(Visit(InitialBoard(rows, cols), p), [p], 2)
  }

  /**
   * One iteration of the loop. With no unvisited neighbour the top is
   * popped; otherwise the next draw picks one of the unvisited sides, in the
   * order top, right, bottom, left, the wall pair on that side is opened and
   * the neighbour is visited and pushed. An empty stack, and a top off the
   * board (which Carving rules out), leave the state as it is.
   */
  function Iterate(s: Search, random: nat -> real): Search
    requires IsRandom(random)
  {
    if s.stack == [] then s
    else
      var top := s.stack[|s.stack| - 1];
      var sides := UnvisitedSides(s.board, top);
      if sides == [] then Search(s.board, s.stack[..|s.stack| - 1], s.draws)
      else if top !in s.board then s
      else
        var d := sides[RandomIndex(random(s.draws), |sides|)];
        UnvisitedSidesExact(s.board, top, d);
        var q := Step(top, d);
        Search(Visit(Link(s.board, top, d), q), s.stack + [q], s.draws + 1)
  }

  /** An iteration whose top has no unvisited neighbour pops it. */
  lemma IteratePop(s: Search, random: nat -> real)
    requires IsRandom(random) && s.stack != []
    requires UnvisitedSides(s.board, s.stack[|s.stack| - 1]) == []
    ensures Iterate(s, random) == Search(s.board, s.stack[..|s.stack| - 1], s.draws)
  {
  }

  /**
   * An iteration whose top has unvisited neighbours carves towards the one
   * the next draw picks.
   */
  lemma IteratePush(s: Search, random: nat -> real, i: nat)
    requires IsRandom(random) && s.stack != [] && s.stack[|s.stack| - 1] in s.board
    requires var sides := UnvisitedSides(s.board, s.stack[|s.stack| - 1]);
      sides != [] && i == RandomIndex(random(s.draws), |sides|)
    ensures var p := s.stack[|s.stack| - 1];
      var d := UnvisitedSides(s.board, p)[i];
      Iterate(s, random) == Search(Visit(Link(s.board, p, d), Step(p, d)), s.stack + [Step(p, d)], s.draws + 1)
  {
  }

  /** The state after n iterations. */
  function Run(s: Search, random: nat -> real, n: nat): Search
    requires IsRandom(random)
  {
    if n == 0 then s else Iterate(Run(s, random, n - 1), random)
  }

  /** The state after m = n + 1 iterations is one iteration past the state after n. */
  lemma RunNext(s: Search, random: nat -> real, n: nat, m: nat)
    requires IsRandom(random) && m == n + 1
    ensures Run(s, random, m) == Iterate(Run(s, random, n), random)
  {
  }

  /**
   * The invariant of the loop: the stack holds distinct visited cells,
   * every visited cell off the stack is settled, the shared walls agree,
   * untouched cells are fully walled, and there is one open wall pair
   * fewer than visited cells (the edge count of a tree). Each push draws one value,
   * so draws is always one more than the number of visited cells.
   */
  ghost predicate Carving(s: Search, rows: nat, cols: nat) {
    var b := s.board;
    b.Keys == AllCoords(rows, cols) &&
    Symmetric(b) && FreshWalled(b) &&
    (forall i :: 0 <= i < |s.stack| ==> s.stack[i] in b && b[s.stack[i]].visited) &&
    Distinct(s.stack) &&
    |VisitedSet(b)| + 1 == s.draws && |OpenEdges(b)| + 2 == s.draws &&
    (forall p: Pos :: p in VisitedSet(b) && p !in s.stack ==> Settled(b, p)) &&
    |s.stack| < s.draws <= rows * cols + 1
  }

  /** The loop starts in a carving state. */
  lemma CarvingStart(rows: nat, cols: nat, random: nat -> real)
    requires rows > 0 && cols > 0 && IsRandom(random)
    ensures Carving(Start(rows, cols, random), rows, cols)
  {
    var b0 := InitialBoard(rows, cols);
    var p := Start(rows, cols, random).stack[0];
    InitialBoardSymmetric(rows, cols);
    assert VisitedSet(b0) == {};
    assert OpenEdges(b0) == {};
    VisitKeepsWalls(b0, p);
    AllCoordsCard(rows, cols);
    assert VisitedSet(Visit(b0, p)) == {p};
  }

  /** Popping a settled cell keeps the carving state. */
  lemma CarvingPop(s: Search, rows: nat, cols: nat)
    requires Carving(s, rows, cols)
    requires |s.stack| > 0 && Settled(s.board, s.stack[|s.stack| - 1])
    ensures Carving(Search(s.board, s.stack[..|s.stack| - 1], s.draws), rows, cols)
  {
    var s' := s.stack[..|s.stack| - 1];
    forall p: Pos | p in VisitedSet(s.board) && p !in s'
      ensures Settled(s.board, p)
    {
      if p in s.stack {
        var i :| 0 <= i < |s.stack| && s.stack[i] == p;
        assert i == |s.stack| - 1;
      }
    }
  }

  /**
   * Carving from the top of the stack into an unvisited neighbour and
   * pushing it keeps the carving state, with one more visited cell.
   */
  lemma CarvingPush(s: Search, rows: nat, cols: nat, d: Direction)
    requires Carving(s, rows, cols)
    requires |s.stack| > 0 && OpenToVisit(s.board, s.stack[|s.stack| - 1], d)
    ensures var p := s.stack[|s.stack| - 1];
      var q := Step(p, d);
      Carving(Search(Visit(Link(s.board, p, d), q), s.stack + [q], s.draws + 1), rows, cols)
  {
    var b, p := s.board, s.stack[|s.stack| - 1];
    var q := Step(p, d);
    var b' := Visit(Link(b, p, d), q);
    CarveStep(b, p, d);
    assert q !in s.stack;
    assert |VisitedSet(b')| <= rows * cols by {
      AllCoordsCard(rows, cols);
      assert VisitedSet(b') <= AllCoords(rows, cols);
      SubsetCard(VisitedSet(b'), AllCoords(rows, cols));
    }
    var s' := s.stack + [q];
    forall i | 0 <= i < |s'|
      ensures s'[i] in b' && b'[s'[i]].visited
    {
      if i < |s.stack| {
        assert s'[i] in VisitedSet(b);
      }
    }
  }

  /** Every iteration keeps the carving state. */
  lemma IterateCarving(s: Search, random: nat -> real, rows: nat, cols: nat)
    requires IsRandom(random) && Carving(s, rows, cols)
    ensures Carving(Iterate(s, random), rows, cols)
  {
    if s.stack != [] {
      var top := s.stack[|s.stack| - 1];
      var sides := UnvisitedSides(s.board, top);
      if sides == [] {
        UnvisitedSidesEmpty(s.board, top);
        CarvingPop(s, rows, cols);
      } else {
        var d := sides[RandomIndex(random(s.draws), |sides|)];
        UnvisitedSidesExact(s.board, top, d);
        CarvingPush(s, rows, cols, d);
      }
    }
  }

  /** So does every number of iterations. */
  lemma {:induction false} RunCarving(s: Search, random: nat -> real, n: nat, rows: nat, cols: nat)
    requires IsRandom(random) && Carving(s, rows, cols)
    ensures Carving(Run(s, random, n), rows, cols)
  {
    if n > 0 {
      var m := n - 1;
      RunCarving(s, random, m, rows, cols);
      IterateCarving(Run(s, random, m), random, rows, cols);
      RunNext(s, random, m, n);
    }
  }

  /**
   * The bounds the loop's termination rests on, from the start state: fewer
   * cells on the stack than draws, and at most one draw per cell plus one.
   */
  lemma RunBounded(rows: nat, cols: nat, random: nat -> real, n: nat)
    requires rows > 0 && cols > 0 && IsRandom(random)
    ensures var s := Run(Start(rows, cols, random), random, n);
      |s.stack| < s.draws <= rows * cols + 1
  {
    CarvingStart(rows, cols, random);
    RunCarving(Start(rows, cols, random), random, n, rows, cols);
  }

  /**
   * Once the stack of the generator is empty, the maze is complete: every
   * cell is visited, the shared walls agree, exactly rows * cols - 1 wall
   * pairs are open, and one value was drawn per cell plus one.
   */
  lemma RunComplete(rows: nat, cols: nat, random: nat -> real, n: nat)
    requires rows > 0 && cols > 0 && IsRandom(random)
    requires Run(Start(rows, cols, random), random, n).stack == []
    ensures var s := Run(Start(rows, cols, random), random, n);
      Symmetric(s.board) && VisitedSet(s.board) == AllCoords(rows, cols) &&
      |OpenEdges(s.board)| == rows * cols - 1 && s.draws == rows * cols + 1
  {
    CarvingStart(rows, cols, random);
    RunCarving(Start(rows, cols, random), random, n, rows, cols);
    CarvingDone(Run(Start(rows, cols, random), random, n), rows, cols);
  }

  /**
   * When the stack is empty the carving is complete: every cell is visited,
   * the shared walls agree, and exactly rows * cols - 1 wall pairs are open,
   * the number of edges of a spanning tree of the grid.
   */
  lemma CarvingDone(s: Search, rows: nat, cols: nat)
    requires Carving(s, rows, cols) && s.stack == []
    ensures Symmetric(s.board)
    ensures VisitedSet(s.board) == AllCoords(rows, cols)
    ensures |OpenEdges(s.board)| == rows * cols - 1
    ensures s.draws == rows * cols + 1
  {
    assert VisitedSet(s.board) != {};
    SettledVisitedCoverGrid(s.board, rows, cols);
  }
}
