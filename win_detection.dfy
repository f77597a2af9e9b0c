/** Win detection: four pieces of one colour in a row, horizontally,
    vertically or along either diagonal. The engine scans the board in
    row-major order and, from every occupied cell, counts the run of cells of
    that cell's colour going forward along four direction vectors only. */
module WinDetection {
  import opened Board

  /** The scanned direction vectors as (row step, column step): horizontal,
      vertical, diagonal down-right and diagonal down-left. */
  const Directions: seq<(int, int)> := [(0, 1), (1, 0), (1, 1), (1, -1)]

  /** Cell number `k` of the ray from (row, col) with step (dr, dc) is on the
      board and holds a piece of colour `p`. */
  predicate OnRay(b: Board, row: int, col: int, dr: int, dc: int, k: nat, p: Color)
    requires WellFormed(b)
  {
    InBounds(row + k * dr, col + k * dc) && b[row + k * dr][col + k * dc] == Piece(p)
  }

  /** The CONNECT_COUNT cells from (row, col) along (dr, dc) all hold colour `p`. */
  predicate Segment(b: Board, row: int, col: int, dr: int, dc: int, p: Color)
    requires WellFormed(b)
  {
    forall k: nat :: k < ConnectCount ==> OnRay(b, row, col, dr, dc, k, p)
  }

  /** A run of four of colour `p` starts at (row, col) along scanned direction number `d`. */
  predicate LineFrom(b: Board, row: int, col: int, d: nat, p: Color)
    requires WellFormed(b) && d < |Directions|
  {
    Segment(b, row, col, Directions[d].0, Directions[d].1, p)
  }

  /** Colour `p` has four in a row along one of the scanned directions. */
  ghost predicate HasLine(b: Board, p: Color)
    requires WellFormed(b)
  {
    exists row, col, d :: InBounds(row, col) && 0 <= d < |Directions| && LineFrom(b, row, col, d, p)
  }

  /** Colour `p` has four in a row along any of the eight compass directions:
      the plain meaning of "four in a row", with no preferred orientation. */
  ghost predicate FourInARow(b: Board, p: Color)
    requires WellFormed(b)
  {
    exists row, col, dr, dc :: -1 <= dr <= 1 && -1 <= dc <= 1 && (dr != 0 || dc != 0)
      && Segment(b, row, col, dr, dc, p)
  }

  /** The cell (row, col) is occupied and starts a run of four of its own
      colour along some scanned direction: the scan stops here. */
  predicate StartsLine(b: Board, row: nat, col: nat)
    requires WellFormed(b) && InBounds(row, col)
  {
    b[row][col].Piece? && exists d :: 0 <= d < |Directions| && LineFrom(b, row, col, d, b[row][col].color)
  }

  /** In row-major order, (r, c) comes at or after (row, col). */
  predicate NotBefore(row: int, col: int, r: int, c: int)
  {
    r > row || (r == row && c >= col)
  }

  /** The colour of the first cell at or after (row, col), in row-major order,
      that starts a line; None when no such cell exists. */
  function ScanFrom(b: Board, row: nat, col: nat): (w: Option<Color>)
    requires WellFormed(b) && row <= Rows && col < Columns
    ensures w.Some? ==> HasLine(b, w.value)
    ensures w.None? ==> forall r, c :: InBounds(r, c) && NotBefore(row, col, r, c) ==> !StartsLine(b, r, c)
    decreases Rows - row, Columns - col
  {
    if row == Rows then None
    else if StartsLine(b, row, col) then Some(b[row][col].color)
    else if col + 1 < Columns then ScanFrom(b, row, col + 1)
    else ScanFrom(b, row + 1, 0)
  }

  /** The winner the engine reports for a board: the colour of the first
      line start in row-major order. */
  function Winner(b: Board): (w: Option<Color>)
    requires WellFormed(b)
  {
    ScanFrom(b, 0, 0)
  }

  /** The scan returns the colour of the first line start it meets. */
  lemma {:induction false} ScanFindsFirst(b: Board, row: nat, col: nat, r0: nat, c0: nat)
    requires WellFormed(b) && row <= Rows && col < Columns
    requires InBounds(r0, c0) && NotBefore(row, col, r0, c0) && StartsLine(b, r0, c0)
    requires forall r, c :: InBounds(r, c) && NotBefore(row, col, r, c) && !NotBefore(r0, c0, r, c)
               ==> !StartsLine(b, r, c)
    ensures ScanFrom(b, row, col) == Some(b[r0][c0].color)
    decreases Rows - row, Columns - col
  {
    if row == r0 && col == c0 {
    } else if col + 1 < Columns {
      assert !StartsLine(b, row, col);
      ScanFindsFirst(b, row, col + 1, r0, c0);
    } else {
      assert !StartsLine(b, row, col);
      ScanFindsFirst(b, row + 1, 0, r0, c0);
    }
  }

  /** Soundness and completeness of the reported winner: it names a colour
      that has a line, and it is None only when neither colour has one. */
  lemma WinnerIsLine(b: Board)
    requires WellFormed(b)
    ensures Winner(b).Some? ==> HasLine(b, Winner(b).value)
    ensures Winner(b).None? <==> !HasLine(b, Red) && !HasLine(b, Yellow)
  {
    forall p: Color, row: int, col: int, d: int
      | InBounds(row, col) && 0 <= d < |Directions| && LineFrom(b, row, col, d, p)
      ensures Winner(b).Some?
    {
      assert OnRay(b, row, col, Directions[d].0, Directions[d].1, 0, p);
      assert StartsLine(b, row, col);
      assert NotBefore(0, 0, row, col);
    }
    if Winner(b).Some? {
      var w := Winner(b).value;
      assert HasLine(b, w);
      assert w == Red || w == Yellow;
    }
  }

  /** When only one colour has a line, the engine reports exactly that colour. */
  lemma WinnerUnique(b: Board, p: Color)
    requires WellFormed(b) && !HasLine(b, Opponent(p))
    ensures Winner(b) == Some(p) <==> HasLine(b, p)
    ensures Winner(b) == None <==> !HasLine(b, p)
  {
    WinnerIsLine(b);
    if Winner(b).Some? {
      var w := Winner(b).value;
      assert w == p || w == Opponent(p);
    }
  }

  /** The scan reads a run backwards as well as forwards: the four cells of a
      segment, read from its far end with the opposite step, are the same cells. */
  lemma SegmentReversed(b: Board, row: int, col: int, dr: int, dc: int, p: Color)
    requires WellFormed(b) && Segment(b, row, col, dr, dc, p)
    ensures Segment(b, row + 3 * dr, col + 3 * dc, -dr, -dc, p)
  {
    var endRow, endCol, backRow, backCol := row + 3 * dr, col + 3 * dc, -dr, -dc;
    forall k: nat | k < ConnectCount
      ensures OnRay(b, endRow, endCol, backRow, backCol, k, p)
    {
      assert OnRay(b, row, col, dr, dc, 3 - k, p);
      assert endRow + k * backRow == row + (3 - k) * dr;
      assert endCol + k * backCol == col + (3 - k) * dc;
    }
  }

  /** Scanning forward along the four vectors (0,1), (1,0), (1,1), (1,-1)
      from every cell finds exactly the lines that exist in any of the eight
      directions. */
  lemma ForwardDirectionsSuffice(b: Board, p: Color)
    requires WellFormed(b)
    ensures HasLine(b, p) <==> FourInARow(b, p)
  {
    if HasLine(b, p) {
      var row, col, d :| InBounds(row, col) && 0 <= d < |Directions| && LineFrom(b, row, col, d, p);
      assert Segment(b, row, col, Directions[d].0, Directions[d].1, p);
    }
    if FourInARow(b, p) {
      var row, col, dr, dc :| -1 <= dr <= 1 && -1 <= dc <= 1 && (dr != 0 || dc != 0)
        && Segment(b, row, col, dr, dc, p);
      assert OnRay(b, row, col, dr, dc, 0, p);
      var d := if dr == 0 then 0 else if dc == 0 then 1 else if dr == dc then 2 else 3;
      if Directions[d] == (dr, dc) {
        assert LineFrom(b, row, col, d, p);
      } else {
        SegmentReversed(b, row, col, dr, dc, p);
        assert OnRay(b, row + 3 * dr, col + 3 * dc, -dr, -dc, 0, p);
        assert LineFrom(b, row + 3 * dr, col + 3 * dc, d, p);
      }
    }
  }

  /** Placing a piece of colour `p` creates no line of any other colour:
      every cell of such a line already held that colour before. */
  lemma PlaceKeepsOtherLines(b: Board, row: nat, col: nat, p: Color, q: Color)
    requires WellFormed(b) && InBounds(row, col) && q != p
    ensures HasLine(Place(b, row, col, p), q) ==> HasLine(b, q)
  {
    var b' := Place(b, row, col, p);
    if HasLine(b', q) {
      var r0, c0, d :| InBounds(r0, c0) && 0 <= d < |Directions| && LineFrom(b', r0, c0, d, q);
      var (dr, dc) := Directions[d];
      forall k: nat | k < ConnectCount ensures OnRay(b, r0, c0, dr, dc, k, q) {
        assert OnRay(b', r0, c0, dr, dc, k, q);
      }
      assert LineFrom(b, r0, c0, d, q);
    }
  }

  /** The length of the run of cells equal to the one at (row, col) that
      starts there and goes forward along (deltaRow, deltaCol): every cell of
      the run holds that colour and the cell just after it does not. */
  method CountRun(b: Board, row: nat, col: nat, deltaRow: int, deltaCol: int) returns (count: nat)
    requires WellFormed(b) && InBounds(row, col) && b[row][col].Piece?
    requires (deltaRow, deltaCol) in Directions
    ensures count >= 1
    ensures forall k: nat :: k < count ==> OnRay(b, row, col, deltaRow, deltaCol, k, b[row][col].color)
    ensures !OnRay(b, row, col, deltaRow, deltaCol, count, b[row][col].color)
  {
    var cell := b[row][col];
    count := 1;
    var r := row + deltaRow;
    var c := col + deltaCol;
    while 0 <= r < Rows && 0 <= c < Columns && b[r][c] == cell
      invariant 1 <= count <= Columns
      invariant r == row + count * deltaRow && c == col + count * deltaCol
      invariant forall k: nat :: k < count ==> OnRay(b, row, col, deltaRow, deltaCol, k, cell.color)
      decreases Columns - count
    {
      assert OnRay(b, row, col, deltaRow, deltaCol, count, cell.color);
      count := count + 1;
      r := r + deltaRow;
      c := c + deltaCol;
    }
  }

  /** The engine's scan, as the source runs it: rows top to bottom, columns
      left to right, and from each occupied cell a count of the equal cells
      that follow it along each direction; the first count to reach
      CONNECT_COUNT decides. */
  method CheckWinner(b: Board) returns (w: Option<Color>)
    requires WellFormed(b)
    ensures w == Winner(b)
    ensures w.Some? ==> HasLine(b, w.value)
    ensures w.None? <==> !HasLine(b, Red) && !HasLine(b, Yellow)
  {
    WinnerIsLine(b);
    for row := 0 to Rows
      invariant forall r, c :: InBounds(r, c) && r < row ==> !StartsLine(b, r, c)
    {
      for col := 0 to Columns
        invariant forall r, c :: InBounds(r, c) && !NotBefore(row, col, r, c) ==> !StartsLine(b, r, c)
      {
        var cell := b[row][col];
        if cell == Empty {
          continue;
        }
        for d := 0 to |Directions|
          invariant forall e :: 0 <= e < d ==> !LineFrom(b, row, col, e, cell.color)
        {
          var (deltaRow, deltaCol) := Directions[d];
          var count := CountRun(b, row, col, deltaRow, deltaCol);
          if count >= ConnectCount {
            assert LineFrom(b, row, col, d, cell.color);
            assert StartsLine(b, row, col);
            ScanFindsFirst(b, 0, 0, row, col);
            return Some(cell.color);
          }
        }
      }
    }
    return None;
  }
}
