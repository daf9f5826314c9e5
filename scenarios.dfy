/** Clients of the game that play whole games through its public methods and
    state what the status line and the history show afterwards. */
module Scenarios {
  import opened Board
  import opened Engine

  /** Clicks square `i` on a game whose board under the cursor is `b` with
      no winning line and an empty square `i`: the click is taken. */
  method Play(g: Game, b: seq<Cell>, i: nat)
    requires g.Valid() && g.history[g.stepNumber].squares == b && i < Size && b[i] == Empty
    requires !LineWins(b, 0) && !LineWins(b, 1) && !LineWins(b, 2) && !LineWins(b, 3)
    requires !LineWins(b, 4) && !LineWins(b, 5) && !LineWins(b, 6) && !LineWins(b, 7)
    modifies g
    ensures g.Valid() && g.history[g.stepNumber].squares == b[i := MarkFor(old(g.xIsNext))]
    ensures g.xIsNext == !old(g.xIsNext)
    ensures g.stepNumber == old(g.stepNumber) + 1 == |g.history| - 1
  {
    NoLineWins(b);
    g.HandleClick(i);
  }

  /** X takes the top row with the moves 0, 4, 1, 3, 2: the status is
      "Winner: X" and the winning triple is 0, 1, 2. */
  method TopRowWin() returns (s: GameStatus, w: Option<(Cell, seq<nat>)>)
    ensures s == Won(X) && w == Some((X, [0, 1, 2]))
  {
    var g := new Game();
    var e := Empty;
    Play(g, [e, e, e, e, e, e, e, e, e], 0);
    Play(g, [X, e, e, e, e, e, e, e, e], 4);
    Play(g, [X, e, e, e, O, e, e, e, e], 1);
    Play(g, [X, X, e, e, O, e, e, e, e], 3);
    Play(g, [X, X, e, O, O, e, e, e, e], 2);
    assert g.history[g.stepNumber].squares == [X, X, X, O, O, e, e, e, e];
    assert FirstWinningLine(g.Current(), 0);
    s := g.Status();
    w := CalculateWinner(g.Current());
  }

  /** The first four moves of a drawn game, 0, 1, 2, 4, from a new game. */
  method DrawOpening() returns (g: Game)
    ensures fresh(g) && g.Valid() && g.stepNumber == 4 && |g.history| == 5
    ensures g.history[4].squares == [X, O, X, Empty, O, Empty, Empty, Empty, Empty]
  {
    g := new Game();
    var e := Empty;
    Play(g, [e, e, e, e, e, e, e, e, e], 0);
    Play(g, [X, e, e, e, e, e, e, e, e], 1);
    Play(g, [X, O, e, e, e, e, e, e, e], 2);
    Play(g, [X, O, X, e, e, e, e, e, e], 4);
  }

  /** The moves 0, 1, 2, 4, 3, 5, 7, 6, 8 fill the board with no line for
      either player: the status is "Draw", and it stays "Draw" after jumping
      back to the empty starting board. */
  method DrawThenJumpBack() returns (s: GameStatus, back: GameStatus, board: seq<Cell>)
    ensures s == Draw && back == Draw && board == EmptyBoard()
  {
    var g := DrawOpening();
    var e := Empty;
    Play(g, [X, O, X, e, O, e, e, e, e], 3);
    Play(g, [X, O, X, X, O, e, e, e, e], 5);
    Play(g, [X, O, X, X, O, O, e, e, e], 7);
    Play(g, [X, O, X, X, O, O, e, X, e], 6);
    Play(g, [X, O, X, X, O, O, O, X, e], 8);
    var full := [X, O, X, X, O, O, O, X, X];
    assert g.history[g.stepNumber].squares == full;
    NoLineWins(full);
    s := g.Status();
    g.JumpTo(0);
    back := g.Status();
    board := g.Current();
  }

  /** Time travel then a move: after two moves, jumping back to the start and
      playing square 8 discards both earlier entries, leaving two. */
  method BranchAfterJump() returns (length: nat, last: Entry)
    ensures length == 2
    ensures last == Entry(EmptyBoard()[8 := X], Some(8))
  {
    var g := new Game();
    g.HandleClick(0);
    g.HandleClick(4);
    g.JumpTo(0);
    g.HandleClick(8);
    length := |g.history|;
    last := g.history[length - 1];
  }
}
