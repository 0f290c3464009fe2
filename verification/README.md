# Tic-tac-toe game-state machine

A Dafny model of the game logic of the TicTacToe WPF window (`MainWindow`).
The window keeps three fields: `mResults`, the nine cells of the board
(`MarkType` values), `mPlayer1Turn`, and `mGameEnded`. Three operations act
on them:

- `NewGame` clears every cell to Free, gives the move to player 1 (Cross) and
  clears the ended flag.
- `Button_Click` restarts an ended game, ignores a click on an occupied cell,
  and otherwise places the mover's mark, passes the turn and runs the winner
  check.
- `CheckForWinner` tests the three rows, three columns and two diagonals, then
  tests for a full board. Either outcome sets the ended flag.

The model pulls this logic out of the window as pure functions over an
immutable `State(cells, p1Turn, ended)`:

- `marks.dfy` (module `Marks`): the `Mark` type, the assumed numeric
  encoding, and the bitwise line test as the window writes it.
- `board.dfy` (module `Board`): the nine-cell board, the (row, column) to
  index mapping, the eight winning lines, and mark counting.
- `game.dfy` (module `Game`): `NewGame`, `CheckForWinner` and `Click`.
- `game_proofs.dfy` (modules `GameProofs`, `GameExamples`): the invariant
  kept from a fresh game through every click, the fact that marks are never
  erased between restarts, a first click and its repeat, and two finished
  boards.

The button's row and column, which the window reads with
`Grid.GetRow`/`Grid.GetColumn`, are inputs of type `Coord` (0 to 2). The
window has no out-of-range handling, so the model has none either.

**Assumption about `MarkType`.** The enum's declaration is not part of this
model. The window's line test is
`mResults[a] != Free && (mResults[a] & mResults[b] & mResults[c]) == mResults[a]`,
whose meaning depends on the enum's values. The model assumes Free = 0,
Nought = 1 and Cross = 2 (declaration order, default numbering). It models the
test as written (`Marks.BitwiseMatch`) and proves that, under this encoding,
the test holds exactly when the three marks are equal and not Free. The
line-test clauses of `Game.CheckLines`, `Game.CheckForWinner` and
`Game.Click`, and the ended clause of the invariant in `GameProofs`, hold of
the window only under this assumption: their proofs rely on it through
`Marks.AndOfCodesIsEquality`.

**What the window records.** The window keeps only the boolean
`mGameEnded`. It does not tell a win from a draw. A move that completes a
line and fills the board sets the flag through both tests, with no
precedence between them. There is no bound check on the index. The model
does the same.

## Model

| member | source | states |
|---|---|---|
| Marks.BitwiseMatch | TicTacToe/MainWindow.xaml.cs:117 | the window's line test, written with the bitwise AND of the mark codes, holds iff the three marks are equal and not Free (the same test is repeated at lines 129, 141, 156, 168, 180, 195, 207) |
| Marks.AndOfCodesIsEquality | TicTacToe/MainWindow.xaml.cs:117 | under the assumed encoding Free = 0, Nought = 1, Cross = 2, for a non-Free first mark the AND of the three codes equals the first code iff all three marks are the same |
| Board.Index | TicTacToe/MainWindow.xaml.cs:84 | the button's position `column + row * 3` is a cell in 0..8 whose quotient and remainder by 3 are the row and the column |
| Board.IndexIsSource | TicTacToe/MainWindow.xaml.cs:84 | the model's sum form of the index equals the window's `column + (row * 3)` for every row and column |
| Board.IndexBijective | TicTacToe/MainWindow.xaml.cs:81-84 | `column + row * 3` maps the 3x3 grid one-to-one onto the cells 0..8: distinct buttons get distinct cells, and every cell is the index of its own row (`i / 3`) and column (`i % 3`) |
| Board.LinesAreGridLines | TicTacToe/MainWindow.xaml.cs:112-215 | the eight tested index triples are exactly the three rows, three columns and two diagonals, in the order the window tests them |
| Game.NewGame | TicTacToe/MainWindow.xaml.cs:39-61 | a fresh game has nine Free cells, player 1 to move and the ended flag clear, whatever the state before |
| Game.PlayerMark | TicTacToe/MainWindow.xaml.cs:91 | the placed mark is never Free, and it is Cross exactly on player 1's turn |
| Game.AnyFree | TicTacToe/MainWindow.xaml.cs:219 | the scan reports true iff some cell is Free |
| Game.CheckLines | TicTacToe/MainWindow.xaml.cs:112-215 | running the bitwise line tests from a given line onwards ends the game iff it had ended or one of those lines holds three equal non-Free marks |
| Game.CheckForWinner | TicTacToe/MainWindow.xaml.cs:110-231 | only the ended flag changes; it is set iff it was set, some line is uniformly marked, or the board is full |
| Game.Click | TicTacToe/MainWindow.xaml.cs:68-105 | on an ended game the result is exactly a fresh game; an occupied cell leaves the state unchanged; a Free cell gets the mover's mark, the other eight cells keep theirs, the turn flips, and the game ends iff a line is uniform or the board is full |
| GameProofs.NewGameInv | TicTacToe/MainWindow.xaml.cs:42-60 | a fresh game satisfies the invariant: equal counts, player 1 to move, not ended, no line and a board that is not full |
| GameProofs.ClickPreservesInv | TicTacToe/MainWindow.xaml.cs:68-105 | every click keeps the invariant: Cross count equals Nought count or exceeds it by one, player 1 moves iff the counts are equal, and ended holds iff a line is uniform or the board is full |
| GameProofs.ClickGrows | TicTacToe/MainWindow.xaml.cs:86-91 | a click on a game that has not ended never erases or changes an existing mark |
| GameProofs.UnendedHasMove | TicTacToe/MainWindow.xaml.cs:217-222 | a game that satisfies the invariant and has not ended always has a Free cell to click |
| GameProofs.PlayPreservesInv | TicTacToe/MainWindow.xaml.cs:68-105 | the invariant holds after any sequence of clicks from a state that satisfies it |
| GameProofs.ReachableInv | TicTacToe/MainWindow.xaml.cs:29-34 | every state reached by clicks from the window's initial game satisfies the invariant |
| GameProofs.PlayGrows | TicTacToe/MainWindow.xaml.cs:86-101 | along any sequence of clicks without a restart, filled cells keep their marks and never revert to Free |
| GameExamples.CentreThenRepeat | TicTacToe/MainWindow.xaml.cs:84-101 | from a fresh game, clicking the centre places a Cross at cell 4 and passes the turn, and clicking it again changes nothing |
| GameExamples.TopRowWin | TicTacToe/MainWindow.xaml.cs:117-120 | three crosses on the top row end the game although Free cells remain |
| GameExamples.FullBoardDraw | TicTacToe/MainWindow.xaml.cs:219-222 | a full board with no uniform line also ends the game |

## Left out

- WPF presentation: `InitializeComponent`, the iteration over the grid's buttons, button content, foreground and background brushes, and the cyan and orange highlighting. None of it affects the game state.
- The `(Button)sender` cast and the `Grid.GetRow`/`Grid.GetColumn` lookups. The row and column are inputs restricted to 0..2 instead.
- The numeric values of `MarkType`. They are an explicit assumption (Free = 0, Nought = 1, Cross = 2), proved upon only in `Marks.AndOfCodesIsEquality`; every contract that speaks of uniform lines describes the window only under it.
- Which lines are highlighted, and whether a game was won or drawn. The window records neither in its state; it only colours buttons.
- The enum's 32-bit width. `Marks.Code` yields 8-bit values; for codes 0, 1 and 2 the bitwise AND gives the same result at any width.
