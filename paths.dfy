/**
 * Walks through open walls, as the path solver follows them: a step from a
 * cell goes out through one of that cell's own open sides.
 */
module Paths {
  import opened Grid

  /** q is the neighbour of p through an open side of p. */
  ghost predicate Passage(b: Board, p: Pos, q: Pos) {
    p in b && q in b && exists d: Direction :: q == Step(p, d) && !b[p].walls.Get(d)
  }

  /** A non-empty sequence of grid cells, each a passage away from the one before. */
  ghost predicate IsOpenWalk(b: Board, w: seq<Pos>) {
    |w| > 0 &&
    (forall i :: 0 <= i < |w| ==> w[i] in b) &&
    (forall i :: 0 <= i < |w| - 1 ==> Passage(b, w[i], w[i + 1]))
  }

  /** An open walk that never returns to a cell. */
  ghost predicate IsSimplePath(b: Board, w: seq<Pos>) {
    IsOpenWalk(b, w) && Distinct(w)
  }

  /**
   * Every open side of a cell of S that is not in the exception list leads
   * back into S: S is closed under passages, apart from the cells still on
   * the solver's current path.
   */
  ghost predicate ClosedExcept(b: Board, S: set<Pos>, onPath: seq<Pos>) {
    forall p: Pos, d: Direction :: p in S && p !in onPath && p in b && !b[p].walls.Get(d) ==> Step(p, d) in S
  }

  /** A walk that starts in a set closed under passages never leaves it. */
  lemma WalkStaysInside(b: Board, S: set<Pos>, w: seq<Pos>)
    requires ClosedExcept(b, S, [])
    requires IsOpenWalk(b, w) && w[0] in S
    ensures forall i :: 0 <= i < |w| ==> w[i] in S
  {
    var k := 0;
    while k < |w| - 1
      invariant 0 <= k < |w|
      invariant forall i :: 0 <= i <= k ==> w[i] in S
    {
      assert Passage(b, w[k], w[k + 1]);
      var d: Direction :| w[k + 1] == Step(w[k], d) && !b[w[k]].walls.Get(d);
      k := k + 1;
    }
  }

  /** So no walk from inside S reaches a cell outside S: the two are disconnected. */
  lemma Separated(b: Board, S: set<Pos>, s: Pos, t: Pos)
    requires ClosedExcept(b, S, [])
    requires s in S && t !in S
    ensures forall w :: IsOpenWalk(b, w) && w[0] == s ==> w[|w| - 1] != t
  {
    forall w | IsOpenWalk(b, w) && w[0] == s
      ensures w[|w| - 1] != t
    {
      WalkStaysInside(b, S, w);
    }
  }

  /** Some open walk leads from s to t. */
  ghost predicate Connected(b: Board, s: Pos, t: Pos) {
    exists w :: IsOpenWalk(b, w) && w[0] == s && w[|w| - 1] == t
  }

  /** A passage in front of an open walk extends it. */
  lemma WalkCons(b: Board, p: Pos, w: seq<Pos>)
    requires IsOpenWalk(b, w) && Passage(b, p, w[0])
    ensures IsOpenWalk(b, [p] + w)
  {
    var w' := [p] + w;
    forall i | 0 <= i < |w'| - 1
      ensures Passage(b, w'[i], w'[i + 1])
    {
      if i > 0 {
        assert w'[i] == w[i - 1] && w'[i + 1] == w[i];
      }
    }
  }

  /** Side d of p, when it is open and leads to a cell outside visited. */
  function Exit(b: Board, p: Pos, visited: set<Pos>, d: Direction): seq<Direction>
    requires p in b
  {
    if !b[p].walls.Get(d) && Step(p, d) !in visited then [d] else []
  }

  /**
   * The sides the solver goes on through from p: the open ones whose
   * neighbour is not yet visited, in the order top, right, bottom, left.
   */
  function Exits(b: Board, p: Pos, visited: set<Pos>): seq<Direction>
    requires p in b
  {
    Exit(b, p, visited, Top) + Exit(b, p, visited, Right) + Exit(b, p, visited, Bottom) + Exit(b, p, visited, Left)
  }

  /** A side is listed exactly when it is open and leads outside visited. */
  lemma ExitsExact(b: Board, p: Pos, visited: set<Pos>, d: Direction)
    requires p in b
    ensures d in Exits(b, p, visited) <==> !b[p].walls.Get(d) && Step(p, d) !in visited
  {
  }

  /** At most four sides are listed, each once, in increasing rank. */
  lemma ExitsOrdered(b: Board, p: Pos, visited: set<Pos>)
    requires p in b
    ensures |Exits(b, p, visited)| <= 4
    ensures forall i, j :: 0 <= i < j < |Exits(b, p, visited)| ==>
      Exits(b, p, visited)[i].Rank() < Exits(b, p, visited)[j].Rank()
  {
  }

  /**
   * Once every open side of p leads into S, p may leave the exception list
   * of a set closed apart from a path.
   */
  lemma CloseOff(b: Board, S: set<Pos>, onPath: seq<Pos>, p: Pos)
    requires ClosedExcept(b, S, onPath + [p])
    requires forall d: Direction :: p in b && !b[p].walls.Get(d) ==> Step(p, d) in S
    ensures ClosedExcept(b, S, onPath)
  {
  }

  /**
   * A walk that starts one step later is extended by the cell before it,
   * when that cell has an open side towards it.
   */
  lemma WalkBack(b: Board, w: seq<Pos>, k: nat, d: Direction)
    requires k + 1 < |w| && IsOpenWalk(b, w[k + 1..])
    requires w[k] in b && w[k + 1] == Step(w[k], d) && !b[w[k]].walls.Get(d)
    ensures IsOpenWalk(b, w[k..])
  {
    assert w[k..] == [w[k]] + w[k + 1..];
    WalkCons(b, w[k], w[k + 1..]);
  }

  /** A cell of a closed set that is off the path has no exit out of the set. */
  lemma ClosedNoExits(b: Board, S: set<Pos>, onPath: seq<Pos>, p: Pos)
    requires ClosedExcept(b, S, onPath)
    requires p in b && p in S && p !in onPath
    ensures Exits(b, p, S) == []
  {
  }

  /**
   * Once the cell behind every exit p had with respect to S0 is in S, p may
   * leave the exception list of S.
   */
  lemma ExitsExhausted(b: Board, S0: set<Pos>, S: set<Pos>, onPath: seq<Pos>, p: Pos)
    requires p in b && S0 <= S
    requires ClosedExcept(b, S, onPath + [p])
    requires forall j :: 0 <= j < |Exits(b, p, S0)| ==> Step(p, Exits(b, p, S0)[j]) in S
    ensures ClosedExcept(b, S, onPath)
  {
    forall d: Direction | !b[p].walls.Get(d)
      ensures Step(p, d) in S
    {
      ExitsExact(b, p, S0, d);
    }
    CloseOff(b, S, onPath, p);
  }
}
