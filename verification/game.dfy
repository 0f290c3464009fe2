/** The game-state machine of the main window: the results array, whose turn
    it is, and whether the game has ended, with its three operations. */
module Game {
  import opened Marks
  import opened Board

  /** mResults, mPlayer1Turn and mGameEnded. Player 1 plays Cross. */
  datatype State = State(cells: Cells, p1Turn: bool, ended: bool)

  /** A fresh game: every cell free, player 1 to move, not ended,
      whatever the state before. */
  function NewGame(): (r: State)
    ensures forall i :: 0 <= i < 9 ==> r.cells[i] == Free
    ensures r.p1Turn && !r.ended
  {
    State([Free, Free, Free, Free, Free, Free, Free, Free, Free], true, false)
  }

  /** The mark the player to move places: Cross for player 1, else Nought. */
  function PlayerMark(p1Turn: bool): (m: Mark)
    ensures m != Free
    ensures m == Cross <==> p1Turn
  {
    if p1Turn then Cross else Nought
  }

  /** The scan for a free cell: some cell of the sequence is Free. */
  function AnyFree(cells: seq<Mark>): (r: bool)
    ensures r <==> exists i :: 0 <= i < |cells| && cells[i] == Free
  {
    if |cells| == 0 then false
    else if cells[0] == Free then true
    else
      var rest := AnyFree(cells[1..]);
      assert forall i :: 1 <= i < |cells| ==> cells[i] == cells[1..][i - 1];
      rest
  }

  /** The line tests from line k on, in table order, each written with the
      bitwise test; a test that matches ends the game, none un-ends it. */
  function CheckLines(cells: Cells, k: nat, ended: bool): (r: bool)
    requires k <= |Lines|
    ensures r <==> ended || exists j :: k <= j < |Lines| && Uniform(cells, Lines[j])
    decreases |Lines| - k
  {
    if k == |Lines| then ended
    else
      var l := Lines[k];
      CheckLines(cells, k + 1, ended || BitwiseMatch(cells[l.a], cells[l.b], cells[l.c]))
  }

  /** The eight line tests, then the full-board test. Only the ended flag
      may change, and it ends up set exactly when it was already set, some
      line is uniformly marked, or no cell is free. Won and drawn are not
      told apart. */
  function CheckForWinner(s: State): (r: State)
    ensures r.cells == s.cells && r.p1Turn == s.p1Turn
    ensures r.ended <==> s.ended || HasWinningLine(s.cells) || IsFull(s.cells)
  {
    var ended := CheckLines(s.cells, 0, s.ended);
    s.(ended := ended || !AnyFree(s.cells))
  }

  /** A click on the button at (row, column). */
  function Click(s: State, row: Coord, column: Coord): (r: State)
    // an ended game is restarted and nothing is placed
    ensures s.ended ==> r == NewGame()
    // an occupied cell is ignored
    ensures !s.ended && s.cells[Index(row, column)] != Free ==> r == s
    // a free cell takes the mover's mark, nothing else on the board changes,
    // the turn passes, and the game ends exactly on a line or a full board
    ensures !s.ended && s.cells[Index(row, column)] == Free ==>
      && r.cells[Index(row, column)] == (if s.p1Turn then Cross else Nought)
      && (forall i :: 0 <= i < 9 && i != Index(row, column) ==> r.cells[i] == s.cells[i])
      && r.p1Turn == !s.p1Turn
      && (r.ended <==> HasWinningLine(r.cells) || IsFull(r.cells))
  {
    if s.ended then NewGame()
    else
      var index := Index(row, column);
      if s.cells[index] != Free then s
      else
        var placed := State(s.cells[index := PlayerMark(s.p1Turn)], !s.p1Turn, s.ended);
        CheckForWinner(placed)
  }
}
