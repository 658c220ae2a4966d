/**
 * Reachability in a carved maze: every cell the generator visits is joined
 * to its start cell by open walls, so once the generator's stack is empty
 * any cell of the grid can be reached from any other. Together with the
 * wall count proved in module Carve (rows * cols - 1 open wall pairs), this
 * is what makes the result a perfect maze.
 */
module Reach {
  import opened Grid
  import opened Paths
  import opened Carve

  /** b' has every cell of b, and every wall open in b is open in b'. */
  ghost predicate Wider(b: Board, b': Board) {
    b.Keys <= b'.Keys &&
    forall x: Pos, e: Direction :: x in b && !b[x].walls.Get(e) ==> !b'[x].walls.Get(e)
  }

  /** An open walk stays open when walls are only opened. */
  lemma WalkWiden(b: Board, b': Board, w: seq<Pos>)
    requires Wider(b, b') && IsOpenWalk(b, w)
    ensures IsOpenWalk(b', w)
  {
    forall i | 0 <= i < |w| - 1
      ensures Passage(b', w[i], w[i + 1])
    {
      assert Passage(b, w[i], w[i + 1]);
      var d: Direction :| w[i + 1] == Step(w[i], d) && !b[w[i]].walls.Get(d);
      assert !b'[w[i]].walls.Get(d);
    }
  }

  /** A push of the generator only opens walls. */
  lemma CarveWidens(b: Board, p: Pos, d: Direction)
    requires p in b && Step(p, d) in b
    ensures Wider(b, Visit(Link(b, p, d), Step(p, d)))
  {
    var b' := Visit(Link(b, p, d), Step(p, d));
    forall x: Pos, e: Direction | x in b && !b[x].walls.Get(e)
      ensures !b'[x].walls.Get(e)
    {
      CarvedCell(b, p, d, x);
    }
  }

  /** A passage after the last cell of an open walk extends it. */
  lemma WalkSnoc(b: Board, w: seq<Pos>, q: Pos)
    requires IsOpenWalk(b, w) && Passage(b, w[|w| - 1], q)
    ensures IsOpenWalk(b, w + [q])
  {
    var w' := w + [q];
    forall i | 0 <= i < |w'| - 1
      ensures Passage(b, w'[i], w'[i + 1])
    {
      if i < |w| - 1 {
        assert w'[i] == w[i] && w'[i + 1] == w[i + 1];
      }
    }
  }

  /** Every visited cell is joined to root by open walls. */
  ghost predicate Rooted(b: Board, root: Pos) {
    forall p: Pos :: p in VisitedSet(b) ==> Connected(b, root, p)
  }

  /** Before the loop the start cell is the only visited cell, joined to itself. */
  lemma RootedStart(rows: nat, cols: nat, random: nat -> real)
    requires rows > 0 && cols > 0 && IsRandom(random)
    ensures Rooted(Start(rows, cols, random).board, Start(rows, cols, random).stack[0])
  {
    var b0 := InitialBoard(rows, cols);
    var p := Start(rows, cols, random).stack[0];
    var b := Start(rows, cols, random).board;
    assert VisitedSet(b0) == {};
    VisitKeepsWalls(b0, p);
    assert VisitedSet(b) == {p};
    assert IsOpenWalk(b, [p]);
  }

  /**
   * One iteration keeps every visited cell joined to root: a pop changes no
   * wall, and a push opens the wall between the top of the stack, which is
   * joined to root, and the cell it visits.
   */
  lemma RootedIterate(s: Search, random: nat -> real, rows: nat, cols: nat, root: Pos)
    requires IsRandom(random) && Carving(s, rows, cols) && Rooted(s.board, root)
    ensures Rooted(Iterate(s, random).board, root)
  {
    if s.stack != [] {
      var b, top := s.board, s.stack[|s.stack| - 1];
      var sides := UnvisitedSides(b, top);
      if sides != [] {
        var i := RandomIndex(random(s.draws), |sides|);
        var d := sides[i];
        UnvisitedSidesExact(b, top, d);
        IteratePush(s, random, i);
        var q := Step(top, d);
        var b' := Visit(Link(b, top, d), q);
        assert Iterate(s, random).board == b';
        CarveWidens(b, top, d);
        LinkKeepsVisited(b, top, d);
        VisitKeepsWalls(Link(b, top, d), q);
        assert top in VisitedSet(b);
        forall x: Pos | x in VisitedSet(b')
          ensures Connected(b', root, x)
        {
          if x == q {
            var w :| IsOpenWalk(b, w) && w[0] == root && w[|w| - 1] == top;
            WalkWiden(b, b', w);
            assert q == Step(top, d) && !b'[top].walls.Get(d);
            WalkSnoc(b', w, q);
            assert (w + [q])[0] == root;
          } else {
            var w :| IsOpenWalk(b, w) && w[0] == root && w[|w| - 1] == x;
            WalkWiden(b, b', w);
          }
        }
      }
    }
  }

  /** Every number of iterations keeps every visited cell joined to root. */
  lemma {:induction false} RunRooted(s: Search, random: nat -> real, n: nat, rows: nat, cols: nat, root: Pos)
    requires IsRandom(random) && Carving(s, rows, cols) && Rooted(s.board, root)
    ensures Rooted(Run(s, random, n).board, root)
  {
    if n > 0 {
      var m := n - 1;
      RunRooted(s, random, m, rows, cols, root);
      RunCarving(s, random, m, rows, cols);
      RootedIterate(Run(s, random, m), random, rows, cols, root);
      RunNext(s, random, m, n);
    }
  }

  /** With shared walls that agree, a passage can be taken back. */
  lemma PassageBack(b: Board, p: Pos, q: Pos)
    requires Symmetric(b) && Passage(b, p, q)
    ensures Passage(b, q, p)
  {
    var d: Direction :| q == Step(p, d) && !b[p].walls.Get(d);
    StepBack(p, d);
    assert p == Step(q, d.Opposite()) && !b[q].walls.Get(d.Opposite());
  }

  /** With shared walls that agree, a walk from s to t read backwards leads from t to s. */
  lemma ConnectedBack(b: Board, s: Pos, t: Pos)
    requires Symmetric(b) && Connected(b, s, t)
    ensures Connected(b, t, s)
  {
    var w :| IsOpenWalk(b, w) && w[0] == s && w[|w| - 1] == t;
    var r := seq(|w|, i requires 0 <= i < |w| => w[|w| - 1 - i]);
    forall i | 0 <= i < |r| - 1
      ensures Passage(b, r[i], r[i + 1])
    {
      PassageBack(b, w[|w| - 2 - i], w[|w| - 1 - i]);
    }
    assert IsOpenWalk(b, r) && r[0] == t && r[|r| - 1] == s;
  }

  /** A walk from s to m followed by a walk from m to t leads from s to t. */
  lemma ConnectedThrough(b: Board, s: Pos, m: Pos, t: Pos)
    requires Connected(b, s, m) && Connected(b, m, t)
    ensures Connected(b, s, t)
  {
    var w1 :| IsOpenWalk(b, w1) && w1[0] == s && w1[|w1| - 1] == m;
    var w2 :| IsOpenWalk(b, w2) && w2[0] == m && w2[|w2| - 1] == t;
    var w := w1 + w2[1..];
    forall i | 0 <= i < |w| - 1
      ensures Passage(b, w[i], w[i + 1])
    {
      if i < |w1| - 1 {
        assert w[i] == w1[i] && w[i + 1] == w1[i + 1];
      } else {
        assert w[i] == w2[i - |w1| + 1] && w[i + 1] == w2[i - |w1| + 2];
      }
    }
    assert IsOpenWalk(b, w) && w[0] == s && w[|w| - 1] == t;
  }

  /**
   * Once the generator's stack is empty, any two cells of the grid are
   * joined by open walls.
   */
  lemma CarvedConnected(rows: nat, cols: nat, random: nat -> real, n: nat)
    requires rows > 0 && cols > 0 && IsRandom(random)
    requires Run(Start(rows, cols, random), random, n).stack == []
    ensures forall s, t :: s in AllCoords(rows, cols) && t in AllCoords(rows, cols) ==>
      Connected(Run(Start(rows, cols, random), random, n).board, s, t)
  {
    var s0 := Start(rows, cols, random);
    var root := s0.stack[0];
    CarvingStart(rows, cols, random);
    RootedStart(rows, cols, random);
    RunRooted(s0, random, n, rows, cols, root);
    RunComplete(rows, cols, random, n);
    var b := Run(s0, random, n).board;
    forall s, t | s in AllCoords(rows, cols) && t in AllCoords(rows, cols)
      ensures Connected(b, s, t)
    {
      ConnectedBack(b, root, s);
      ConnectedThrough(b, s, root, t);
    }
  }
}
