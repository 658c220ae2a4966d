/**
 * The maze drawn as ASCII art, as the generator's two drawing methods build
 * it: a top border, then for every row of the grid a line with the cells
 * and their right walls and a line with their bottom walls. Cells on a
 * solution path are drawn as " * ", other cells as three spaces.
 */
module Ascii {
  import opened Grid

  /** s repeated n times (String.prototype.repeat). */
  function Repeat(s: string, n: nat): (r: string)
    ensures |r| == n * |s|
  {
    if n == 0 then "" else Repeat(s, n - 1) + s
  }

  /** A character that s lacks is missing from any repetition of s. */
  lemma {:induction false} RepeatLacks(s: string, n: nat, x: char)
    requires x !in s
    ensures x !in Repeat(s, n)
  {
    if n > 0 {
      RepeatLacks(s, n - 1, x);
    }
  }

  /** The top border: a corner, then a wall segment and a corner per column. */
  function TopBorder(cols: nat): string {
    "+" + Repeat("---+", cols)
  }

  /** The body of the cell at p: a star when p is on the path. */
  function Body(p: Pos, onPath: set<Pos>): string {
    if p in onPath then " * " else "   "
  }

  /** The right wall of a cell, drawn after its body. */
  function RightWall(w: Walls): string {
    if w.right then "|" else " "
  }

  /** The bottom wall of a cell, drawn under its body. */
  function BottomWall(w: Walls): string {
    if w.bottom then "---" else "   "
  }

  /** The cells of row r in columns 0 .. n - 1 of b lie on the board. */
  ghost predicate RowOnBoard(b: Board, r: int, n: nat) {
    forall c :: 0 <= c < n ==> (r, c) in b
  }

  /**
   * The line with the cells of row r, up to column n: the left border, then
   * for each cell its body and its right wall.
   */
  function CellLine(b: Board, r: int, n: nat, onPath: set<Pos>): (s: string)
    requires RowOnBoard(b, r, n)
    ensures |s| == 4 * n + 1
  {
    if n == 0 then "|" else CellLine(b, r, n - 1, onPath) + Body((r, n - 1), onPath) + RightWall(b[(r, n - 1)].walls)
  }

  /** The line under row r, up to column n: a corner, then per cell its bottom wall and a corner. */
  function WallLine(b: Board, r: int, n: nat): (s: string)
    requires RowOnBoard(b, r, n)
    ensures |s| == 4 * n + 1
  {
    if n == 0 then "+" else WallLine(b, r, n - 1) + BottomWall(b[(r, n - 1)].walls) + "+"
  }

  /** The lines of the picture of the first k rows of a rows x cols board. */
  function Lines(b: Board, k: nat, cols: nat, onPath: set<Pos>): (ls: seq<string>)
    requires forall r :: 0 <= r < k ==> RowOnBoard(b, r, cols)
    ensures |ls| == 2 * k + 1
  {
    if k == 0 then [TopBorder(cols)]
    else Lines(b, k - 1, cols, onPath) + [CellLine(b, k - 1, cols, onPath), WallLine(b, k - 1, cols)]
  }

  /** Lines joined into text, each ended by a newline. */
  function Join(ls: seq<string>): string {
    if ls == [] then "" else Join(ls[..|ls| - 1]) + ls[|ls| - 1] + "\n"
  }

  /** Two more lines join onto the text of the ones before them. */
  lemma JoinTwoMore(ls: seq<string>, x: string, y: string)
    ensures Join(ls + [x, y]) == Join(ls) + x + "\n" + y + "\n"
  {
    assert (ls + [x, y])[..|ls| + 1] == ls + [x];
    assert (ls + [x])[..|ls|] == ls;
  }

  /** The picture of a rows x cols board. */
  function Picture(b: Board, rows: nat, cols: nat, onPath: set<Pos>): string
    requires b.Keys == AllCoords(rows, cols)
  {
    Join(Lines(b, rows, cols, onPath))
  }

  /**
   * The picture has 2 * rows + 1 lines of 4 * cols + 1 characters each: the
   * border line, and a cell line and a wall line per row.
   */
  lemma {:induction false} LinesShape(b: Board, k: nat, cols: nat, onPath: set<Pos>)
    requires forall r :: 0 <= r < k ==> RowOnBoard(b, r, cols)
    ensures |Lines(b, k, cols, onPath)| == 2 * k + 1
    ensures forall i :: 0 <= i < 2 * k + 1 ==> |Lines(b, k, cols, onPath)[i]| == 4 * cols + 1
    ensures forall i :: 0 <= i < 2 * k + 1 ==> '\n' !in Lines(b, k, cols, onPath)[i]
  {
    var ls := Lines(b, k, cols, onPath);
    if k == 0 {
      NoNewlineInBorder(cols);
    } else {
      var ls' := Lines(b, k - 1, cols, onPath);
      LinesShape(b, k - 1, cols, onPath);
      NoNewlineInCellLine(b, k - 1, cols, onPath);
      NoNewlineInWallLine(b, k - 1, cols);
      forall i | 0 <= i < 2 * k + 1
        ensures |ls[i]| == 4 * cols + 1 && '\n' !in ls[i]
      {
        if i < 2 * k - 1 {
          assert ls[i] == ls'[i];
        }
      }
    }
  }

  lemma NoNewlineInBorder(cols: nat)
    ensures '\n' !in TopBorder(cols)
  {
    RepeatLacks("---+", cols, '\n');
  }

  lemma {:induction false} NoNewlineInCellLine(b: Board, r: int, n: nat, onPath: set<Pos>)
    requires RowOnBoard(b, r, n)
    ensures '\n' !in CellLine(b, r, n, onPath)
  {
    if n > 0 {
      NoNewlineInCellLine(b, r, n - 1, onPath);
    }
  }

  lemma {:induction false} NoNewlineInWallLine(b: Board, r: int, n: nat)
    requires RowOnBoard(b, r, n)
    ensures '\n' !in WallLine(b, r, n)
  {
    if n > 0 {
      NoNewlineInWallLine(b, r, n - 1);
    }
  }

  /**
   * Column c of the cell line of row r: the four characters from 4 * c + 1
   * are the cell's body (" * " exactly on the path) and its right wall ('|'
   * exactly when the wall is there).
   */
  lemma {:induction false} CellLineCell(b: Board, r: int, n: nat, onPath: set<Pos>, c: nat)
    requires RowOnBoard(b, r, n) && c < n
    ensures CellLine(b, r, n, onPath)[4 * c + 1..4 * c + 4] == (if (r, c) in onPath then " * " else "   ")
    ensures CellLine(b, r, n, onPath)[4 * c + 4] == (if b[(r, c)].walls.right then '|' else ' ')
  {
    var s := CellLine(b, r, n, onPath);
    if c < n - 1 {
      CellLineCell(b, r, n - 1, onPath, c);
      var s' := CellLine(b, r, n - 1, onPath);
      assert s[..|s'|] == s';
      assert s[4 * c + 1..4 * c + 4] == s'[4 * c + 1..4 * c + 4];
    } else {
      assert s[4 * c + 1..4 * c + 4] == Body((r, c), onPath);
    }
  }

  /**
   * Column c of the wall line of row r: the three characters from 4 * c + 1
   * are "---" exactly when the cell's bottom wall is there.
   */
  lemma {:induction false} WallLineCell(b: Board, r: int, n: nat, c: nat)
    requires RowOnBoard(b, r, n) && c < n
    ensures WallLine(b, r, n)[4 * c + 1..4 * c + 4] == (if b[(r, c)].walls.bottom then "---" else "   ")
    ensures WallLine(b, r, n)[4 * c + 4] == '+'
  {
    var s := WallLine(b, r, n);
    if c < n - 1 {
      WallLineCell(b, r, n - 1, c);
      var s' := WallLine(b, r, n - 1);
      assert s[..|s'|] == s';
      assert s[4 * c + 1..4 * c + 4] == s'[4 * c + 1..4 * c + 4];
    } else {
      assert s[4 * c + 1..4 * c + 4] == BottomWall(b[(r, c)].walls);
    }
  }

  /** Rows r of the picture: line 2 * r + 1 draws the cells, line 2 * r + 2 the walls under them. */
  lemma {:induction false} LinesRow(b: Board, k: nat, cols: nat, onPath: set<Pos>, r: nat)
    requires forall r' :: 0 <= r' < k ==> RowOnBoard(b, r', cols)
    requires r < k
    ensures Lines(b, k, cols, onPath)[2 * r + 1] == CellLine(b, r, cols, onPath)
    ensures Lines(b, k, cols, onPath)[2 * r + 2] == WallLine(b, r, cols)
  {
    if r < k - 1 {
      LinesRow(b, k - 1, cols, onPath, r);
    }
  }

  /** n lines of width w, each with its newline: n * w characters, counted one line at a time. */
  function Span(n: nat, w: nat): nat {
    if n == 0 then 0 else Span(n - 1, w) + w
  }

  /** Line i ends no later than line j when i <= j. */
  lemma {:induction false} SpanMono(i: nat, j: nat, w: nat)
    requires i <= j
    ensures Span(i, w) <= Span(j, w)
  {
    if i < j {
      SpanMono(i, j - 1, w);
    }
  }

  /**
   * Lines of one length L joined into text: line i fills the L + 1
   * characters from Span(i, L + 1), followed by its newline.
   */
  lemma {:induction false} JoinLayout(ls: seq<string>, L: nat, i: nat)
    requires forall k :: 0 <= k < |ls| ==> |ls[k]| == L
    requires i < |ls|
    ensures |Join(ls)| == Span(|ls|, L + 1)
    ensures Span(i, L + 1) + L + 1 == Span(i + 1, L + 1) <= |Join(ls)|
    ensures Join(ls)[Span(i, L + 1)..Span(i + 1, L + 1)] == ls[i] + "\n"
  {
    var n := |ls|;
    var init := ls[..n - 1];
    var J := Join(init);
    assert Join(ls) == J + ls[n - 1] + "\n";
    if n == 1 {
      assert J == "";
    } else if i < n - 1 {
      JoinLayout(init, L, i);
      SpanMono(i + 1, n - 1, L + 1);
      assert Join(ls)[Span(i, L + 1)..Span(i + 1, L + 1)] == J[Span(i, L + 1)..Span(i + 1, L + 1)];
    } else {
      JoinLayout(init, L, 0);
    }
    SpanMono(i + 1, n, L + 1);
  }

  /** Span is multiplication. */
  lemma {:induction false} SpanProduct(n: nat, w: nat)
    ensures Span(n, w) == n * w
  {
    if n > 0 {
      SpanProduct(n - 1, w);
      assert n * w == (n - 1) * w + w;
    }
  }

  /**
   * The text of the picture: 2 * rows + 1 lines of 4 * cols + 1 characters,
   * each ended by a newline, line i occupying the 4 * cols + 2 characters
   * from Span(i, 4 * cols + 2), which is i * (4 * cols + 2).
   */
  lemma PictureLayout(b: Board, rows: nat, cols: nat, onPath: set<Pos>, i: nat)
    requires b.Keys == AllCoords(rows, cols)
    requires i < 2 * rows + 1
    ensures |Picture(b, rows, cols, onPath)| == (2 * rows + 1) * (4 * cols + 2)
    ensures |Picture(b, rows, cols, onPath)| == Span(2 * rows + 1, 4 * cols + 2)
    ensures Span(i, 4 * cols + 2) == i * (4 * cols + 2)
    ensures Span(i + 1, 4 * cols + 2) <= |Picture(b, rows, cols, onPath)|
    ensures Picture(b, rows, cols, onPath)[Span(i, 4 * cols + 2)..Span(i + 1, 4 * cols + 2)] ==
      Lines(b, rows, cols, onPath)[i] + "\n"
  {
    LinesShape(b, rows, cols, onPath);
    JoinLayout(Lines(b, rows, cols, onPath), 4 * cols + 1, i);
    SpanProduct(2 * rows + 1, 4 * cols + 2);
    SpanProduct(i, 4 * cols + 2);
  }
}
