/** The game engine: the three pieces of state the game component holds
    (the board, the player to move and the winner), the status derived from
    them, and the two operations that change them: dropping a piece into a
    column and resetting the game. */
module GameEngine {
  import opened Board
  import opened WinDetection

  datatype GameStatus = Playing | Won | Draw

  /** A snapshot of the engine's state. */
  datatype GameState = GameState(board: Board, currentPlayer: Color, winner: Option<Color>)

  /** The derived status: won once a winner is set, drawn when no winner is
      set and every cell is occupied, playing otherwise. */
  function StatusOf(board: Board, winner: Option<Color>): (s: GameStatus)
    ensures s == Won <==> winner.Some?
    ensures s == Draw <==> winner.None? && IsFull(board)
    ensures s == Playing <==> winner.None? && !IsFull(board)
  {
    if winner.Some? then Won
    else if IsFull(board) then Draw
    else Playing
  }

  /** The state a game starts in, and returns to on reset. */
  function Initial(): GameState
  {
    GameState(EmptyBoard(), Red, None)
  }

  /** The effect of a click on column `col`: nothing unless the game is being
      played; otherwise the current player's piece lands in the lowest empty
      cell of the column (nothing happens when the column is full), then the
      board is scanned for a winner; a winner is recorded and the player kept,
      and without one the turn passes to the opponent. */
  function Next(s: GameState, col: nat): (s': GameState)
    requires WellFormed(s.board) && col < Columns
    ensures WellFormed(s'.board)
  {
    if StatusOf(s.board, s.winner) != Playing then s
    else match LowestEmpty(s.board, col)
      case None => s
      case Some(row) =>
        var board := Place(s.board, row, col, s.currentPlayer);
        var gameWinner := Winner(board);
        if gameWinner.Some? then GameState(board, s.currentPlayer, gameWinner)
        else GameState(board, Opponent(s.currentPlayer), None)
  }

  /** The state after the clicks `cols`, one after the other. */
  function Play(s: GameState, cols: seq<nat>): (s': GameState)
    requires WellFormed(s.board) && forall i :: 0 <= i < |cols| ==> cols[i] < Columns
    ensures WellFormed(s'.board)
    decreases |cols|
  {
    if cols == [] then s else Play(Next(s, cols[0]), cols[1..])
  }

  /** The player whose piece the next accepted move would place. */
  function ToMove(s: GameState): Color
  {
    if s.winner.None? then s.currentPlayer else Opponent(s.currentPlayer)
  }

  /** Turns alternate starting with red, so red has as many pieces as yellow
      when red is to move and one more when yellow is. */
  predicate Balanced(b: Board, toMove: Color)
  {
    if toMove == Red then Count(b, Red) == Count(b, Yellow)
    else Count(b, Red) == Count(b, Yellow) + 1
  }

  /** What holds of every state a game can reach: the board keeps its shape
      and gravity; without a winner no colour has a line; with one, only the
      winner has a line and it is the player who moved last; piece counts
      follow strict alternation. */
  ghost predicate Invariant(s: GameState)
  {
    && WellFormed(s.board)
    && Gravity(s.board)
    && (match s.winner
        case None => !HasLine(s.board, Red) && !HasLine(s.board, Yellow)
        case Some(w) => w == s.currentPlayer && HasLine(s.board, w) && !HasLine(s.board, Opponent(w)))
    && Balanced(s.board, ToMove(s))
  }

  /** The empty board has no line of either colour. */
  lemma EmptyBoardHasNoLine(p: Color)
    ensures !HasLine(EmptyBoard(), p)
  {
    var b := EmptyBoard();
    forall row, col, d | InBounds(row, col) && 0 <= d < |Directions|
      ensures !LineFrom(b, row, col, d, p)
    {
      assert !OnRay(b, row, col, Directions[d].0, Directions[d].1, 0, p);
    }
  }

  /** A new game (and a reset one) has an empty board, red to move, no
      winner, status playing, and satisfies the invariant. */
  lemma InitialState()
    ensures Invariant(Initial())
    ensures forall r, c :: InBounds(r, c) ==> Initial().board[r][c] == Empty
    ensures Initial().currentPlayer == Red && Initial().winner == None
    ensures StatusOf(Initial().board, Initial().winner) == Playing
  {
    var b: Board := EmptyBoard();
    EmptyBoardHasNoLine(Red);
    EmptyBoardHasNoLine(Yellow);
    EmptyBoardCount(Rows);
    assert b[..Rows] == b;
    assert b[0][0] == Empty;
  }

  /** Once the game is won or drawn, a click changes nothing. */
  lemma TerminalIsFrozen(s: GameState, col: nat)
    requires WellFormed(s.board) && col < Columns
    requires StatusOf(s.board, s.winner) != Playing
    ensures Next(s, col) == s
  {
  }

  /** A click on a full column changes nothing. */
  lemma FullColumnIsNoOp(s: GameState, col: nat)
    requires WellFormed(s.board) && col < Columns
    requires forall r :: 0 <= r < Rows ==> s.board[r][col].Piece?
    ensures Next(s, col) == s
  {
  }

  /** An accepted click changes exactly one cell: the lowest empty cell of the
      column, which now holds the piece of the player who was to move; no
      other cell changes, and no occupied cell is overwritten. */
  lemma DropChangesOneCell(s: GameState, col: nat, row: nat)
    requires WellFormed(s.board) && col < Columns && row < Rows
    requires StatusOf(s.board, s.winner) == Playing
    requires s.board[row][col] == Empty
    requires forall i :: row < i < Rows ==> s.board[i][col].Piece?
    ensures Next(s, col).board[row][col] == Piece(s.currentPlayer)
    ensures forall r, c :: InBounds(r, c) && (r != row || c != col) ==> Next(s, col).board[r][c] == s.board[r][c]
  {
  }

  /** After an accepted click: with no line on the new board the turn passes
      to the opponent and no winner is set; with a line the mover is the
      winner, keeps the turn, and the status is won even if the board is now
      full. */
  lemma DropHandsOverTurn(s: GameState, col: nat)
    requires Invariant(s) && col < Columns
    requires StatusOf(s.board, s.winner) == Playing
    requires exists r :: 0 <= r < Rows && s.board[r][col] == Empty
    ensures var s' := Next(s, col);
      && (s'.winner.None? <==> !HasLine(s'.board, s.currentPlayer))
      && (s'.winner.None? ==> s'.currentPlayer == Opponent(s.currentPlayer))
      && (s'.winner.Some? ==> s'.winner == Some(s.currentPlayer) && s'.currentPlayer == s.currentPlayer)
      && (s'.winner.Some? ==> StatusOf(s'.board, s'.winner) == Won)
  {
    var p := s.currentPlayer;
    var row := LowestEmpty(s.board, col).value;
    var b' := Place(s.board, row, col, p);
    PlaceKeepsOtherLines(s.board, row, col, p, Opponent(p));
    WinnerUnique(b', p);
  }

  /** Gravity survives a piece landing in the lowest empty cell of a column. */
  lemma PlaceKeepsGravity(b: Board, row: nat, col: nat, p: Color)
    requires WellFormed(b) && Gravity(b) && InBounds(row, col) && b[row][col] == Empty
    requires forall i :: row < i < Rows ==> b[i][col].Piece?
    ensures Gravity(Place(b, row, col, p))
  {
  }

  /** Every click keeps the invariant. */
  lemma NextKeepsInvariant(s: GameState, col: nat)
    requires Invariant(s) && col < Columns
    ensures Invariant(Next(s, col))
  {
    if StatusOf(s.board, s.winner) == Playing && LowestEmpty(s.board, col).Some? {
      var p := s.currentPlayer;
      var row := LowestEmpty(s.board, col).value;
      var b' := Place(s.board, row, col, p);
      PlaceKeepsGravity(s.board, row, col, p);
      PlaceKeepsOtherLines(s.board, row, col, p, Opponent(p));
      WinnerUnique(b', p);
      PlaceCount(s.board, row, col, p);
      assert ToMove(Next(s, col)) == Opponent(p);
    }
  }

  /** Every state reached from a new game by any sequence of clicks satisfies
      the invariant and holds at most ROWS * COLUMNS pieces. */
  lemma {:induction false} PlayKeepsInvariant(s: GameState, cols: seq<nat>)
    requires Invariant(s) && forall i :: 0 <= i < |cols| ==> cols[i] < Columns
    ensures Invariant(Play(s, cols))
    ensures Count(Play(s, cols).board, Red) + Count(Play(s, cols).board, Yellow) <= Rows * Columns
    decreases |cols|
  {
    if cols == [] {
      CountBound(s.board);
    } else {
      NextKeepsInvariant(s, cols[0]);
      PlayKeepsInvariant(Next(s, cols[0]), cols[1..]);
    }
  }

  /** The game component's state: the three state slots it keeps. */
  class Game {
    var board: Board
    var currentPlayer: Color
    var winner: Option<Color>

    function State(): GameState
      reads this
    {
      GameState(board, currentPlayer, winner)
    }

    ghost predicate Valid()
      reads this
    {
      Invariant(State())
    }

    function Status(): GameStatus
      reads this
    {
      StatusOf(board, winner)
    }

    /** A new game: empty board, red to move, no winner. */
    constructor ()
      ensures Valid() && State() == Initial()
    {
      board := EmptyBoard();
      currentPlayer := Red;
      winner := None;
      InitialState();
    }

    /** Restores the initial state, whatever the state was before. */
    method Reset()
      modifies this
      ensures Valid() && State() == Initial()
    {
      board := EmptyBoard();
      currentPlayer := Red;
      winner := None;
      InitialState();
    }

    /** Handles a click on column `col`. */
    method Drop(col: nat)
      requires Valid() && col < Columns
      modifies this
      ensures Valid()
      ensures State() == Next(old(State()), col)
    {
      ghost var s := State();
      NextKeepsInvariant(s, col);
      if Status() != Playing {
        return;
      }
      var row: int := Rows - 1;
      while row >= 0
        invariant -1 <= row < Rows
        invariant forall i :: row < i < Rows ==> board[i][col].Piece?
        invariant State() == s
      {
        if board[row][col] == Empty {
          var newBoard := board[row := board[row][col := Piece(currentPlayer)]];
          board := newBoard;
          var gameWinner := CheckWinner(newBoard);
          if gameWinner.Some? {
            winner := gameWinner;
          } else {
            currentPlayer := Opponent(currentPlayer);
          }
          break;
        }
        row := row - 1;
      }
    }
  }
}
