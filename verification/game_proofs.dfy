/** Properties of whole games: the invariant every reachable state keeps,
    and that marks are never erased short of a restart. */
module GameProofs {
  import opened Marks
  import opened Board
  import opened Game

  /** What every state reached from a fresh game satisfies:
      Cross is level with Nought or one ahead, player 1 is to move exactly
      when they are level, and the game has ended exactly when some line is
      uniformly marked or the board is full. */
  predicate Inv(s: State)
  {
    && (Count(s.cells, Cross) == Count(s.cells, Nought)
        || Count(s.cells, Cross) == Count(s.cells, Nought) + 1)
    && (s.p1Turn <==> Count(s.cells, Cross) == Count(s.cells, Nought))
    && (s.ended <==> HasWinningLine(s.cells) || IsFull(s.cells))
  }

  /** A fresh game satisfies the invariant. */
  lemma NewGameInv()
    ensures Inv(NewGame())
  {
    var g := NewGame();
    CountAbsent(g.cells, Cross);
    CountAbsent(g.cells, Nought);
    assert g.cells[0] == Free;
    assert !HasWinningLine(g.cells);
  }

  /** Every click keeps the invariant. */
  lemma ClickPreservesInv(s: State, row: Coord, column: Coord)
    requires Inv(s)
    ensures Inv(Click(s, row, column))
  {
    var r := Click(s, row, column);
    var i := Index(row, column);
    if s.ended {
      NewGameInv();
    } else if s.cells[i] == Free {
      assert r.cells == s.cells[i := PlayerMark(s.p1Turn)];
      CountUpdate(s.cells, i, PlayerMark(s.p1Turn), Cross);
      CountUpdate(s.cells, i, PlayerMark(s.p1Turn), Nought);
    }
  }

  /** Outside a restart, a click never erases or changes a placed mark. */
  lemma ClickGrows(s: State, row: Coord, column: Coord)
    requires !s.ended
    ensures Grows(s.cells, Click(s, row, column).cells)
  {
  }

  /** In a game that has not ended and keeps the invariant there is always a
      free cell to click: the game cannot get stuck. */
  lemma UnendedHasMove(s: State)
    requires Inv(s) && !s.ended
    ensures exists i: CellIndex :: s.cells[i] == Free
  {
    assert !IsFull(s.cells);
  }

  /** A click, as the button at (row, column) delivers it. */
  datatype Move = Move(row: Coord, column: Coord)

  /** The state after a sequence of clicks. */
  function Play(s: State, moves: seq<Move>): State
    decreases |moves|
  {
    if |moves| == 0 then s
    else Play(Click(s, moves[0].row, moves[0].column), moves[1..])
  }

  /** No click of the sequence lands on an ended game, so none restarts it. */
  predicate NoRestart(s: State, moves: seq<Move>)
    decreases |moves|
  {
    |moves| == 0
    || (!s.ended && NoRestart(Click(s, moves[0].row, moves[0].column), moves[1..]))
  }

  /** Any sequence of clicks keeps the invariant. */
  lemma {:induction false} PlayPreservesInv(s: State, moves: seq<Move>)
    requires Inv(s)
    ensures Inv(Play(s, moves))
    decreases |moves|
  {
    if |moves| > 0 {
      ClickPreservesInv(s, moves[0].row, moves[0].column);
      PlayPreservesInv(Click(s, moves[0].row, moves[0].column), moves[1..]);
    }
  }

  /** Every state reachable from a fresh game satisfies the invariant. */
  lemma ReachableInv(moves: seq<Move>)
    ensures Inv(Play(NewGame(), moves))
  {
    NewGameInv();
    PlayPreservesInv(NewGame(), moves);
  }

  /** Filled cells never revert to Free, nor change mark, between restarts. */
  lemma {:induction false} PlayGrows(s: State, moves: seq<Move>)
    requires NoRestart(s, moves)
    ensures Grows(s.cells, Play(s, moves).cells)
    decreases |moves|
  {
    if |moves| > 0 {
      var next := Click(s, moves[0].row, moves[0].column);
      ClickGrows(s, moves[0].row, moves[0].column);
      PlayGrows(next, moves[1..]);
    }
  }
}

/** A first click, a repeated click, and two finished boards. */
module GameExamples {
  import opened Marks
  import opened Board
  import opened Game

  /** From a fresh game, player 1's click on the centre places a Cross
      there and passes the turn; clicking the centre again changes nothing. */
  lemma CentreThenRepeat()
    ensures var s := Click(NewGame(), 1, 1);
      && s.cells == [Free, Free, Free, Free, Cross, Free, Free, Free, Free]
      && !s.p1Turn && !s.ended
      && Click(s, 1, 1) == s
  {
    var s := Click(NewGame(), 1, 1);
    assert s.cells == [Free, Free, Free, Free, Cross, Free, Free, Free, Free];
    assert s.cells[0] == Free;
  }

  /** Three crosses along the top row end the game, with free cells left. */
  lemma TopRowWin()
    ensures var cells := [Cross, Cross, Cross, Nought, Nought, Free, Free, Free, Free];
      && Uniform(cells, Lines[0]) && !IsFull(cells)
      && CheckForWinner(State(cells, false, false)).ended
  {
    var cells := [Cross, Cross, Cross, Nought, Nought, Free, Free, Free, Free];
    assert Uniform(cells, Lines[0]);
    assert cells[5] == Free;
  }

  /** A full board with no uniform line ends the game as well: a draw,
      which the flag does not distinguish from a win. */
  lemma FullBoardDraw()
    ensures var cells := [Cross, Nought, Cross, Cross, Nought, Nought, Nought, Cross, Cross];
      && !HasWinningLine(cells) && IsFull(cells)
      && CheckForWinner(State(cells, false, false)).ended
  {
    var cells := [Cross, Nought, Cross, Cross, Nought, Nought, Nought, Cross, Cross];
    forall k | 0 <= k < |Lines|
      ensures !Uniform(cells, Lines[k])
    {
      assert Lines[k] in Lines;
    }
  }
}
