/** A crossword board: the squares in row-major order, with its row and
    column counts. */
module CrosswordBoard {
  import opened Squares
  import P = Positions

  datatype Board = Board(squares: seq<Square>, rows: nat, cols: nat)

  /** The row-major index of a position. */
  function IndexOf(b: Board, p: P.Position): nat
  {
    b.cols * p.row + p.col
  }

  /** A position inside the board's rows and columns. */
  predicate InBounds(b: Board, p: P.Position)
  {
    p.row < b.rows && p.col < b.cols
  }

  /** The board holds a square for every row and column. */
  predicate Complete(b: Board)
  {
    b.rows * b.cols <= |b.squares|
  }

  /** `Index<Position>`: the square at a position; an index past the end of the
      squares panics, so it is the caller's obligation (crossword/src/board.rs:17-20). */
  function At(b: Board, p: P.Position): (r: Square)
    requires IndexOf(b, p) < |b.squares|
    ensures r in b.squares
  {
    b.squares[IndexOf(b, p)]
  }

  /** Every position of a complete board lies in its squares. */
  lemma InBoundsIndexed(b: Board, p: P.Position)
    requires Complete(b) && InBounds(b, p)
    ensures IndexOf(b, p) < b.rows * b.cols <= |b.squares|
  {
    assert b.cols * p.row + p.col < b.cols * p.row + b.cols == b.cols * (p.row + 1);
    assert p.row + 1 <= b.rows;
    MulMono(b.cols, p.row + 1, b.rows);
  }

  lemma MulMono(c: nat, x: nat, y: nat)
    requires x <= y
    ensures c * x <= c * y
  {
  }

  /** Row-major indexing is one-to-one on the positions within the columns. */
  lemma IndexInjective(b: Board, p: P.Position, q: P.Position)
    requires p.col < b.cols && q.col < b.cols
    requires IndexOf(b, p) == IndexOf(b, q)
    ensures p == q
  {
    if p.row < q.row {
      IndexOrder(b, p, q);
    } else if q.row < p.row {
      IndexOrder(b, q, p);
    }
  }

  /** A later row has larger indices than every position of an earlier one. */
  lemma IndexOrder(b: Board, p: P.Position, q: P.Position)
    requires p.col < b.cols && p.row < q.row
    ensures IndexOf(b, p) < IndexOf(b, q)
  {
    MulMono(b.cols, p.row + 1, q.row);
    assert b.cols * p.row + p.col < b.cols * (p.row + 1);
  }

  /** The position of a row-major index: the inverse of indexing. */
  function PositionOf(b: Board, i: nat): (p: P.Position)
    requires b.cols > 0
    ensures p.col < b.cols && IndexOf(b, p) == i
  {
    P.Position(i / b.cols, i % b.cols)
  }

  /** `is_filled`: no square is empty; blocked squares count as filled
      (crossword/src/board.rs:38-40). */
  predicate IsFilled(b: Board)
  {
    forall i :: 0 <= i < |b.squares| ==> !IsEmpty(b.squares[i])
  }

  /** A filled board has a letter or a block at every position, and a
      complete board with one at every position is filled. */
  lemma IsFilledAtPositions(b: Board)
    requires Complete(b) && |b.squares| == b.rows * b.cols
    ensures IsFilled(b) <==>
      forall p: P.Position :: InBounds(b, p) ==> IndexOf(b, p) < |b.squares| && !IsEmpty(At(b, p))
  {
    if IsFilled(b) {
      forall p: P.Position | InBounds(b, p)
        ensures IndexOf(b, p) < |b.squares| && !IsEmpty(At(b, p))
      {
        InBoundsIndexed(b, p);
      }
    } else {
      var i :| 0 <= i < |b.squares| && IsEmpty(b.squares[i]);
      var p := PositionOf(b, i);
      assert p.row < b.rows by {
        if p.row >= b.rows {
          MulMono(b.cols, b.rows, p.row);
        }
      }
      assert InBounds(b, p) && At(b, p) == b.squares[i];
    }
  }

  /** The text of row `i`: each square's character, then a newline. */
  function RowText(b: Board, i: nat): (r: string)
    requires Complete(b) && i < b.rows
    ensures |r| == b.cols + 1 && r[b.cols] == '\n'
    ensures forall j :: 0 <= j < b.cols ==>
      IndexOf(b, P.Position(i, j)) < |b.squares| && r[j] == Render(At(b, P.Position(i, j)))
  {
    RowPrefix(b, i, b.cols) + ['\n']
  }

  /** The first `j` characters of row `i`. */
  function RowPrefix(b: Board, i: nat, j: nat): (r: string)
    requires Complete(b) && i < b.rows && j <= b.cols
    ensures |r| == j
    ensures forall k :: 0 <= k < j ==>
      IndexOf(b, P.Position(i, k)) < |b.squares| && r[k] == Render(At(b, P.Position(i, k)))
  {
    if j == 0 then []
    else
      InBoundsIndexed(b, P.Position(i, j - 1));
      RowPrefix(b, i, j - 1) + [Render(At(b, P.Position(i, j - 1)))]
  }

  /** The text of the first `n` rows. */
  function GridText(b: Board, n: nat): string
    requires Complete(b) && n <= b.rows
  {
    if n == 0 then [] else GridText(b, n - 1) + RowText(b, n - 1)
  }

  /** The `Debug` rendering: `rows` lines, each the row's squares followed by a
      newline, written square by square in two nested loops
      (crossword/src/board.rs:24-34). */
  method Fmt(b: Board) returns (out: string)
    requires Complete(b)
    ensures out == GridText(b, b.rows)
  {
    out := [];
    var i := 0;
    while i < b.rows
      invariant i <= b.rows
      invariant out == GridText(b, i)
    {
      var j := 0;
      while j < b.cols
        invariant j <= b.cols
        invariant out == GridText(b, i) + RowPrefix(b, i, j)
      {
        InBoundsIndexed(b, P.Position(i, j));
        out := out + [Render(At(b, P.Position(i, j)))];
        j := j + 1;
      }
      out := out + ['\n'];
      i := i + 1;
    }
  }

  /** The rendering has `n` lines of `cols + 1` characters. */
  lemma {:induction false} GridTextLength(b: Board, n: nat)
    requires Complete(b) && n <= b.rows
    ensures |GridText(b, n)| == n * (b.cols + 1)
  {
    if n > 0 {
      GridTextLength(b, n - 1);
      assert |RowText(b, n - 1)| == b.cols + 1;
      assert (n - 1) * (b.cols + 1) + (b.cols + 1) == n * (b.cols + 1);
    }
  }

  /** Character `j` of line `i` is the square at row `i`, column `j`, and
      each line ends with a newline. */
  lemma {:induction false} GridTextAt(b: Board, n: nat, i: nat, j: nat)
    requires Complete(b) && n <= b.rows && i < n && j <= b.cols
    ensures i * (b.cols + 1) + j < |GridText(b, n)|
    ensures j == b.cols ==> GridText(b, n)[i * (b.cols + 1) + j] == '\n'
    ensures j < b.cols ==> (IndexOf(b, P.Position(i, j)) < |b.squares| &&
      GridText(b, n)[i * (b.cols + 1) + j] == Render(At(b, P.Position(i, j))))
  {
    var pre, row := GridText(b, n - 1), RowText(b, n - 1);
    GridTextLength(b, n - 1);
    if i < n - 1 {
      RowStart(i, n - 1, b.cols + 1);
      GridTextAt(b, n - 1, i, j);
      AppendAt(pre, row, i * (b.cols + 1) + j);
    } else {
      AppendAt(pre, row, |pre| + j);
    }
  }

  /** Indexing a concatenation reads the left part, then the right one. */
  lemma AppendAt(x: string, y: string, k: nat)
    requires k < |x| + |y|
    ensures k < |x| ==> (x + y)[k] == x[k]
    ensures |x| <= k ==> (x + y)[k] == y[k - |x|]
  {
  }

  /** Line `i` ends no later than where line `m` starts, for `i < m`. */
  lemma {:induction false} RowStart(i: nat, m: nat, w: nat)
    requires i < m
    ensures i * w + w <= m * w
    decreases m - i
  {
    assert (i + 1) * w == i * w + w;
    if i + 1 < m {
      RowStart(i + 1, m, w);
      assert (i + 1) * w <= (i + 1) * w + w;
    }
  }
}
