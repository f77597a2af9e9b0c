# Connect 4 game engine

A Dafny model of the Connect 4 engine held by the game component of a small
browser application. The board is a 6 x 7 grid whose cells are empty, red or
yellow; row 0 is the top row and pieces stack from row 5 upward. The engine
keeps three pieces of state — the board, the player to move and the winner —
derives the status (playing, won, draw) from the board and the winner, and
changes state in only two ways: a click on a column drops the current
player's piece into the lowest empty cell of that column, and a reset
restores the initial state.

The model has three modules:

- `Board` (board.dfy): cells and colours, the board shape, the empty board,
  placing a piece on a copy of the board, the lowest empty cell of a column,
  gravity, and piece counts.
- `WinDetection` (win_detection.dfy): what a line of four is (`HasLine`,
  along the four scanned direction vectors, and `FourInARow`, along any of
  the eight compass directions), the winner the engine reports (`Winner`,
  the colour of the first line start in row-major order), and the scan
  itself as a looping method (`CheckWinner`), proved equal to `Winner`. The
  inner `while` that counts a run of equal cells is the method `CountRun`,
  called by `CheckWinner` once per direction.
- `GameEngine` (game_engine.dfy): the state value `GameState`, the derived
  status `StatusOf`, the transition `Next` for one click and `Play` for a
  sequence of clicks, the invariant every reachable state satisfies, the
  lemmas about them, and the class `Game` whose fields are the three state
  slots and whose methods `Drop` and `Reset` are proved against `Next` and
  `Initial`.

The board is a value (`seq<seq<Cell>>`): a move builds a new board and
assigns it to the `board` field, as the source copies the board before
writing the new piece, so the previous board value is never altered.

The column passed to a click is a precondition `0 <= col < 7`: the
presentation layer only ever passes the index of a rendered column.

## Model

| member | source | states |
|---|---|---|
| `Board.EmptyBoard` | src/components/Home.tsx:10-11 | the initial board has 6 rows of 7 cells, every one empty |
| `Board.Opponent` | src/components/Home.tsx:76 | the turn always passes to the other colour |
| `Board.Place` | src/components/Home.tsx:68-69 | the copied board has the new piece at (row, col), keeps its shape, and every other cell is as before |
| `Board.LowestEmpty` | src/components/Home.tsx:66-67 | the row found is empty and every cell below it in the column is occupied; no row is found only when the whole column is occupied |
| `Board.PlaceCount` | src/components/Home.tsx:68-69 | placing a piece on an empty cell adds one piece of its colour and leaves the other colour's count unchanged |
| `Board.EmptyBoardCount` | src/components/Home.tsx:10-11 | the empty board holds no piece of either colour |
| `Board.CountBound` | src/components/Home.tsx:3-4 | a 6 x 7 board never holds more than 42 pieces |
| `WinDetection.ScanFrom` | src/components/Home.tsx:32-59 | a colour found by the row-major scan has a line; finding none means no cell from the start position on starts a line |
| `WinDetection.ScanFindsFirst` | src/components/Home.tsx:32-58 | the scan returns the colour of the first cell, in row-major order, that starts a line |
| `WinDetection.WinnerIsLine` | src/components/Home.tsx:24-60 | the reported winner has a line (soundness), and no winner is reported exactly when neither colour has a line (completeness) |
| `WinDetection.WinnerUnique` | src/components/Home.tsx:72-77 | when the opponent has no line, the winner is `p` exactly when `p` has a line and is absent exactly when `p` has none |
| `WinDetection.SegmentReversed` | src/components/Home.tsx:40-53 | a run of four read from its far end in the opposite direction is the same four cells |
| `WinDetection.ForwardDirectionsSuffice` | src/components/Home.tsx:25-30 | scanning forward along (0,1), (1,0), (1,1), (1,-1) from every cell finds a line exactly when there is four in a row in any of the eight directions |
| `WinDetection.PlaceKeepsOtherLines` | src/components/Home.tsx:68-72 | a new piece of one colour never creates a line of the other colour |
| `WinDetection.CountRun` | src/components/Home.tsx:38-53 | the count is the length of the run of equal cells from the start cell along the direction: all cells of the run hold its colour and the next cell does not |
| `WinDetection.CheckWinner` | src/components/Home.tsx:24-60 | the nested scan returns the first line start's colour in row-major order; it returns a colour only if that colour has a line, and returns none exactly when no colour has a line |
| `GameEngine.StatusOf` | src/components/Home.tsx:18-22 | won iff a winner is set; draw iff no winner and every cell occupied; playing otherwise |
| `GameEngine.Next` | src/components/Home.tsx:62-83 | one click, as a function of the state before it; it keeps the board 6 x 7 (its other effects are the lemmas below) |
| `GameEngine.EmptyBoardHasNoLine` | src/components/Home.tsx:10-11 | the empty board has no line of either colour |
| `GameEngine.InitialState` | src/components/Home.tsx:14-16 | a new game has an empty board, red to move, no winner, status playing, and satisfies the invariant |
| `GameEngine.TerminalIsFrozen` | src/components/Home.tsx:64 | a click while won or drawn changes neither board, player nor winner |
| `GameEngine.FullColumnIsNoOp` | src/components/Home.tsx:66-80 | a click on a full column changes nothing |
| `GameEngine.DropChangesOneCell` | src/components/Home.tsx:66-69 | an accepted click writes the mover's piece into the lowest empty cell of the column and changes no other cell |
| `GameEngine.DropHandsOverTurn` | src/components/Home.tsx:72-77 | after an accepted click: no winner and the opponent to move when the mover has no line; otherwise the mover is the winner, keeps the turn, and the status is won even on a full board |
| `GameEngine.PlaceKeepsGravity` | src/components/Home.tsx:66-69 | landing in the lowest empty cell keeps every piece resting on another piece or on the bottom row |
| `GameEngine.NextKeepsInvariant` | src/components/Home.tsx:62-83 | every click keeps the invariant: shape, gravity, balanced piece counts, no line without a winner, and with a winner a line of the winner's colour only, the winner being the player who moved last |
| `GameEngine.PlayKeepsInvariant` | src/components/Home.tsx:62-89 | every state reached by any sequence of clicks satisfies the invariant and holds at most 42 pieces |
| `GameEngine.Game.constructor` | src/components/Home.tsx:14-16 | the component starts with an empty board, red to move and no winner |
| `GameEngine.Game.Reset` | src/components/Home.tsx:85-89 | after a reset the state is the initial state, whatever it was before, and the invariant holds |
| `GameEngine.Game.Drop` | src/components/Home.tsx:62-83 | the click handler's new state is `Next` of the old state, and the invariant is kept |

## Left out

- The sign-in and sign-out screens (src/components/LoggedOut.tsx, src/components/LoggedIn.tsx): they delegate to an external identity provider and render markup; there is no engine logic in them.
- Rendering (src/components/Home.tsx:103-158) and the status message text (src/components/Home.tsx:91-102): presentation only.
- React hook mechanics (memoisation, callback dependency lists, batched state setters): the three state slots are plain fields, updated one after the other within one `Drop` call.
- The player to move is a `Color`: the source's type for it also admits `null`, a value it never takes.
- A column outside 0..6 is excluded by precondition: the click handler is only ever called with the index of a rendered column.
