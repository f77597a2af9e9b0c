/** The Connect 4 board: a 6 x 7 grid of cells, row 0 at the top, pieces
    stacking from row 5 upward. A board is a value: a move builds a new board
    from the old one and never alters the old one. */
module Board {

  datatype Option<T> = None | Some(value: T)

  const Rows: nat := 6
  const Columns: nat := 7
  const ConnectCount: nat := 4

  /** The two players; a piece on the board has the colour of the player who dropped it. */
  datatype Color = Red | Yellow

  /** A cell is empty (the source's `null`) or holds a piece of one colour. */
  datatype Cell = Empty | Piece(color: Color)

  type Board = seq<seq<Cell>>

  /** The other player: red hands over to yellow and yellow to red. */
  function Opponent(c: Color): (r: Color)
    ensures r != c
  {
    if c == Red then Yellow else Red
  }

  /** Every board the engine builds has ROWS rows of COLUMNS cells. */
  predicate WellFormed(b: Board)
  {
    |b| == Rows && forall r :: 0 <= r < |b| ==> |b[r]| == Columns
  }

  predicate InBounds(row: int, col: int)
  {
    0 <= row < Rows && 0 <= col < Columns
  }

  /** The board that every game starts from: every cell empty. */
  function EmptyBoard(): (b: Board)
    ensures WellFormed(b)
    ensures forall r, c :: InBounds(r, c) ==> b[r][c] == Empty
  {
    seq(Rows, _ => seq(Columns, _ => Empty))
  }

  /** The board with a piece of colour `p` at (row, col) and every other cell as in `b`. */
  function Place(b: Board, row: nat, col: nat, p: Color): (b': Board)
    requires WellFormed(b) && InBounds(row, col)
    ensures WellFormed(b')
    ensures b'[row][col] == Piece(p)
    ensures forall r, c :: InBounds(r, c) && (r != row || c != col) ==> b'[r][c] == b[r][c]
  {
    b[row := b[row][col := Piece(p)]]
  }

  /** True when every cell holds a piece (the source's nested `every`). */
  predicate IsFull(b: Board)
  {
    forall r :: 0 <= r < |b| ==> forall c :: 0 <= c < |b[r]| ==> b[r][c].Piece?
  }

  /** The row of the lowest empty cell of column `col`, if there is one: the
      cell a piece dropped into that column comes to rest in. */
  function LowestEmpty(b: Board, col: nat): (r: Option<nat>)
    requires WellFormed(b) && col < Columns
    ensures r.Some? ==> r.value < Rows && b[r.value][col] == Empty
    ensures r.Some? ==> forall i :: r.value < i < Rows ==> b[i][col].Piece?
    ensures r.None? ==> forall i :: 0 <= i < Rows ==> b[i][col].Piece?
  {
    LowestEmptyAtOrAbove(b, col, Rows - 1)
  }

  /** The largest row index `<= row` whose cell in column `col` is empty,
      given that the cells below `row` are all occupied. */
  function LowestEmptyAtOrAbove(b: Board, col: nat, row: int): (r: Option<nat>)
    requires WellFormed(b) && col < Columns && -1 <= row < Rows
    requires forall i :: row < i < Rows ==> b[i][col].Piece?
    ensures r.Some? ==> r.value <= row && b[r.value][col] == Empty
    ensures r.Some? ==> forall i :: r.value < i < Rows ==> b[i][col].Piece?
    ensures r.None? ==> forall i :: 0 <= i < Rows ==> b[i][col].Piece?
    decreases row + 1
  {
    if row < 0 then None
    else if b[row][col] == Empty then Some(row)
    else LowestEmptyAtOrAbove(b, col, row - 1)
  }

  /** Gravity: a piece above the bottom row rests on another piece. */
  predicate Gravity(b: Board)
    requires WellFormed(b)
  {
    forall r, c {:trigger b[r][c]} :: 0 <= r < Rows - 1 && 0 <= c < Columns && b[r][c].Piece? ==> b[r + 1][c].Piece?
  }

  /** Number of pieces of colour `p` in one row. */
  function CountRow(cells: seq<Cell>, p: Color): (n: nat)
    ensures n <= |cells|
  {
    if cells == [] then 0
    else CountRow(cells[..|cells| - 1], p) + (if cells[|cells| - 1] == Piece(p) then 1 else 0)
  }

  /** Number of pieces of colour `p` on the board. */
  function Count(b: Board, p: Color): nat
  {
    if b == [] then 0 else Count(b[..|b| - 1], p) + CountRow(b[|b| - 1], p)
  }

  lemma {:induction false} CountRowBoth(cells: seq<Cell>)
    ensures CountRow(cells, Red) + CountRow(cells, Yellow) <= |cells|
    ensures (forall c :: 0 <= c < |cells| ==> cells[c] == Empty) ==> CountRow(cells, Red) == 0 && CountRow(cells, Yellow) == 0
  {
    if cells != [] {
      CountRowBoth(cells[..|cells| - 1]);
    }
  }

  /** Writing `v` at index `i` of a row changes its count of `p` by the
      difference between the new and the old cell. */
  lemma {:induction false} CountRowUpdate(cells: seq<Cell>, i: nat, v: Cell, p: Color)
    requires i < |cells|
    ensures CountRow(cells[i := v], p) + (if cells[i] == Piece(p) then 1 else 0)
         == CountRow(cells, p) + (if v == Piece(p) then 1 else 0)
  {
    var n := |cells| - 1;
    if i < n {
      assert cells[i := v][..n] == cells[..n][i := v];
      CountRowUpdate(cells[..n], i, v, p);
    } else {
      assert cells[i := v][..n] == cells[..n];
    }
  }

  /** Replacing row `i` changes the board count by the difference of the row counts. */
  lemma {:induction false} CountUpdate(b: Board, i: nat, cells: seq<Cell>, p: Color)
    requires i < |b|
    ensures Count(b[i := cells], p) + CountRow(b[i], p) == Count(b, p) + CountRow(cells, p)
  {
    var n := |b| - 1;
    if i < n {
      assert b[i := cells][..n] == b[..n][i := cells];
      CountUpdate(b[..n], i, cells, p);
    } else {
      assert b[i := cells][..n] == b[..n];
    }
  }

  /** Placing a piece on an empty cell adds one piece of its colour and
      leaves the count of the other colour alone. */
  lemma PlaceCount(b: Board, row: nat, col: nat, p: Color)
    requires WellFormed(b) && InBounds(row, col) && b[row][col] == Empty
    ensures Count(Place(b, row, col, p), p) == Count(b, p) + 1
    ensures Count(Place(b, row, col, p), Opponent(p)) == Count(b, Opponent(p))
  {
    var cells := b[row][col := Piece(p)];
    CountRowUpdate(b[row], col, Piece(p), p);
    CountRowUpdate(b[row], col, Piece(p), Opponent(p));
    CountUpdate(b, row, cells, p);
    CountUpdate(b, row, cells, Opponent(p));
  }

  /** The empty board holds no piece of either colour. */
  lemma {:induction false} EmptyBoardCount(n: nat)
    requires n <= Rows
    ensures Count(EmptyBoard()[..n], Red) == 0 && Count(EmptyBoard()[..n], Yellow) == 0
  {
    if n > 0 {
      var b := EmptyBoard()[..n];
      assert b[..n - 1] == EmptyBoard()[..n - 1];
      EmptyBoardCount(n - 1);
      CountRowBoth(b[n - 1]);
    }
  }

  /** A board never holds more than ROWS * COLUMNS pieces. */
  lemma {:induction false} CountBound(b: Board)
    requires forall r :: 0 <= r < |b| ==> |b[r]| == Columns
    ensures Count(b, Red) + Count(b, Yellow) <= |b| * Columns
  {
    if b != [] {
      CountBound(b[..|b| - 1]);
      CountRowBoth(b[|b| - 1]);
    }
  }
}
