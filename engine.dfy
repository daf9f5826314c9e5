/** The game-state engine: the history of boards, the cursor into it, the
    move, time travel, restart, the display-order flag, and the status line. */
module Engine {
  import opened Board

  /** One history entry: the squares after a move and the square that move
      filled (absent for the starting entry). */
  datatype Entry = Entry(squares: seq<Cell>, move: Option<nat>)

  /** What the status line shows: "Winner: m", "Draw" or "Next player: m". */
  datatype GameStatus = Won(mark: Cell) | Draw | NextPlayer(mark: Cell)

  /** The history a new or restarted game starts from: one empty board. */
  function InitialHistory(): (h: seq<Entry>)
    ensures ValidHistory(h) && |h| == 1 && h[0].move.None?
    ensures forall i :: 0 <= i < Size ==> h[0].squares[i] == Empty
  {
    [Entry(EmptyBoard(), None)]
  }

  /** The mark placed by the player whose turn it is: with the turn flag set
      from the parity of the number of moves made, it is the mark of the next
      move. */
  function MarkFor(xIsNext: bool): (m: Cell)
    ensures m != Empty
    ensures forall k: nat :: 1 <= k && (k % 2 == 1) == xIsNext ==> MarkOfMove(k) == m
  {
    if xIsNext then X else O
  }

  /** The mark placed by the k-th move of a game (k >= 1): X first, then alternating. */
  function MarkOfMove(k: nat): Cell
  {
    if k % 2 == 1 then X else O
  }

  /** A click on square `i` of board `b` is taken: nobody has won yet and the
      square is empty. */
  predicate Accepts(b: seq<Cell>, i: nat)
    requires IsBoard(b) && i < Size
    ensures Accepts(b, i) <==> b[i] == Empty && forall k :: 0 <= k < LineCount ==> !LineWins(b, k)
  {
    Winner(b).None? && b[i] == Empty
  }

  /** `next` is reached from `prev` by an accepted k-th move, which records
      the square it filled. */
  predicate IsMove(prev: Entry, next: Entry, k: nat)
  {
    && IsBoard(prev.squares)
    && next.move.Some? && next.move.value < Size
    && Accepts(prev.squares, next.move.value)
    && next.squares == prev.squares[next.move.value := MarkOfMove(k)]
  }

  /** The shape of every history the game can build: it starts from the empty
      board and each later entry is one accepted move after the one before. */
  predicate ValidHistory(h: seq<Entry>)
  {
    && |h| >= 1
    && h[0] == Entry(EmptyBoard(), None)
    && (forall k :: 0 <= k < |h| ==> IsBoard(h[k].squares))
    && (forall k :: 1 <= k < |h| ==> IsMove(h[k - 1], h[k], k))
  }

  /** The status computed from the board under the cursor, the full history
      length (not the cursor) for a draw, and the stored turn flag. */
  function StatusOf(h: seq<Entry>, step: nat, xIsNext: bool): (s: GameStatus)
    requires step < |h| && IsBoard(h[step].squares)
    ensures s.Won? <==> exists k :: 0 <= k < LineCount && LineWins(h[step].squares, k)
    ensures s.Won? ==> s.mark != Empty
    ensures s.Won? ==> forall k :: FirstWinningLine(h[step].squares, k) ==> s.mark == h[step].squares[Line(k).0]
    ensures s.Draw? ==> |h| == Size + 1
    ensures s.NextPlayer? ==> |h| != Size + 1 && s.mark == MarkFor(xIsNext)
  {
    var w := Winner(h[step].squares);
    WinnerMarkOnFirstLine(h[step].squares);
    if w.Some? then Won(w.value.0)
    else if |h| == 10 then Draw
    else NextPlayer(MarkFor(xIsNext))
  }

  /** Extending a valid history, cut just after `step`, by the move at square
      `i` keeps it valid. */
  lemma MoveKeepsHistoryValid(h: seq<Entry>, step: nat, i: nat)
    requires ValidHistory(h) && step < |h| && i < Size
    requires Accepts(h[step].squares, i)
    ensures ValidHistory(h[..step + 1] + [Entry(h[step].squares[i := MarkOfMove(step + 1)], Some(i))])
  {
    var h' := h[..step + 1] + [Entry(h[step].squares[i := MarkOfMove(step + 1)], Some(i))];
    forall k | 1 <= k < |h'|
      ensures IsMove(h'[k - 1], h'[k], k)
    {
      if k <= step {
        assert h'[k - 1] == h[k - 1] && h'[k] == h[k];
      }
    }
  }

  /** The board after k moves holds (k+1)/2 X marks, k/2 O marks and 9-k
      empty squares. */
  lemma {:induction false} MarkCounts(h: seq<Entry>, k: nat)
    requires ValidHistory(h) && k < |h|
    ensures Count(h[k].squares, X) == (k + 1) / 2
    ensures Count(h[k].squares, O) == k / 2
    ensures Count(h[k].squares, Empty) == Size - k
  {
    if k == 0 {
      EmptyBoardCounts();
    } else {
      MarkCounts(h, k - 1);
      var prev, i := h[k - 1].squares, h[k].move.value;
      assert IsMove(h[k - 1], h[k], k);
      CountUpdate(prev, i, MarkOfMove(k), X);
      CountUpdate(prev, i, MarkOfMove(k), O);
      CountUpdate(prev, i, MarkOfMove(k), Empty);
    }
  }

  /** On every board of a valid history X is level with O or one ahead, and
      level exactly when it is X's turn (an even entry). */
  lemma MarkBalance(h: seq<Entry>, k: nat)
    requires ValidHistory(h) && k < |h|
    ensures Count(h[k].squares, X) - Count(h[k].squares, O) == if k % 2 == 0 then 0 else 1
  {
    MarkCounts(h, k);
  }

  /** Nine squares allow at most nine moves: a history has at most ten entries. */
  lemma HistoryAtMostTen(h: seq<Entry>)
    requires ValidHistory(h)
    ensures |h| <= Size + 1
  {
    MarkCounts(h, |h| - 1);
  }

  /** Every entry that a later move was made from has no winner. */
  lemma NoWinnerBeforeLast(h: seq<Entry>, k: nat)
    requires ValidHistory(h) && k + 1 < |h|
    ensures Winner(h[k].squares).None?
  {
    assert IsMove(h[k], h[k + 1], k + 1);
  }

  /** A won board is always the last entry of the history, and the winning
      mark is that of the player who made the last move. */
  lemma WinnerIsLastMover(h: seq<Entry>, k: nat)
    requires ValidHistory(h) && k < |h| && Winner(h[k].squares).Some?
    ensures k == |h| - 1
    ensures k >= 1 && Winner(h[k].squares).value.0 == MarkOfMove(k)
  {
    if k + 1 < |h| {
      NoWinnerBeforeLast(h, k);
      assert false;
    }
    if k == 0 {
      assert false;
    }
    assert IsMove(h[k - 1], h[k], k);
    NewWinnerIsMover(h[k - 1].squares, h[k].move.value, MarkOfMove(k));
  }

  /** A "Winner" status freezes the board: no square is accepted any more. */
  lemma WonStatusBlocksMoves(h: seq<Entry>, step: nat, xIsNext: bool)
    requires ValidHistory(h) && step < |h|
    requires StatusOf(h, step, xIsNext).Won?
    ensures step == |h| - 1 && StatusOf(h, step, xIsNext).mark == MarkOfMove(step)
    ensures forall i :: 0 <= i < Size ==> !Accepts(h[step].squares, i)
  {
    WinnerIsLastMover(h, step);
  }

  /** A "Next player" status always has a move available: some square of
      the board under the cursor is accepted. */
  lemma NextPlayerHasMove(h: seq<Entry>, step: nat, xIsNext: bool)
    requires ValidHistory(h) && step < |h|
    requires StatusOf(h, step, xIsNext).NextPlayer?
    ensures exists i :: 0 <= i < Size && Accepts(h[step].squares, i)
  {
    HistoryAtMostTen(h);
    MarkCounts(h, step);
    CountZero(h[step].squares, Empty);
    var i :| 0 <= i < Size && h[step].squares[i] == Empty;
    assert Accepts(h[step].squares, i);
  }

  /** With the cursor on the newest entry, "Draw" means exactly a full board
      with no winning line. */
  lemma DrawAtEndMeansFullBoard(h: seq<Entry>, xIsNext: bool)
    requires ValidHistory(h)
    ensures var b := h[|h| - 1].squares;
            StatusOf(h, |h| - 1, xIsNext) == Draw <==>
            Winner(b).None? && forall i :: 0 <= i < Size ==> b[i] != Empty
  {
    MarkCounts(h, |h| - 1);
    CountZero(h[|h| - 1].squares, Empty);
  }

  /** The draw test looks at the history length, not the cursor: after any
      nine-move game, drawn or won on the last move, jumping back to any earlier entry still
      shows "Draw", although that board has an empty square a click is
      accepted on. */
  lemma DrawIgnoresCursor(h: seq<Entry>, step: nat, xIsNext: bool)
    requires ValidHistory(h) && |h| == Size + 1 && step < Size
    ensures StatusOf(h, step, xIsNext) == Draw
    ensures exists i :: 0 <= i < Size && Accepts(h[step].squares, i)
  {
    assert IsMove(h[step], h[step + 1], step + 1);
    MarkCounts(h, step);
    CountZero(h[step].squares, Empty);
    var i :| 0 <= i < Size && h[step].squares[i] == Empty;
    assert Accepts(h[step].squares, i);
  }

  /** The game component: the history, the cursor `stepNumber`, the stored
      turn flag and the move-list display order. */
  class Game {
    var history: seq<Entry>
    var stepNumber: nat
    var xIsNext: bool
    var isAscending: bool

    /** The history is one the game can build, the cursor points into it and
        the turn flag agrees with the cursor's parity. */
    ghost predicate Valid()
      reads this
    {
      ValidHistory(history) && stepNumber < |history| && xIsNext == (stepNumber % 2 == 0)
    }

    constructor ()
      ensures Valid()
      ensures history == InitialHistory() && stepNumber == 0 && xIsNext && isAscending
    {
      history := InitialHistory();
      stepNumber := 0;
      xIsNext := true;
      isAscending := true;
    }

    /** The board under the cursor. */
    function Current(): (b: seq<Cell>)
      reads this
      requires Valid()
      ensures IsBoard(b)
    {
      history[stepNumber].squares
    }

    /** The status line shown by the game. A win is always on the newest
        entry and belongs to the player who moved last; while a next player
        is announced some square can still be played. */
    function Status(): (s: GameStatus)
      reads this
      requires Valid()
      ensures s.Won? ==> stepNumber == |history| - 1 && s.mark == MarkFor(!xIsNext)
      ensures s.NextPlayer? ==> exists i :: 0 <= i < Size && Accepts(history[stepNumber].squares, i)
    {
      var s := StatusOf(history, stepNumber, xIsNext);
      if s.Won? then
        WonStatusBlocksMoves(history, stepNumber, xIsNext);
        s
      else if s.NextPlayer? then
        NextPlayerHasMove(history, stepNumber, xIsNext);
        s
      else s
    }

    /** Flips the move-list order and touches nothing else. */
    method ToggleOrder()
      modifies this
      ensures isAscending == !old(isAscending)
      ensures history == old(history) && stepNumber == old(stepNumber) && xIsNext == old(xIsNext)
    {
      isAscending := !isAscending;
    }

    /** Back to the state of a new game, whatever came before. */
    method Restart()
      modifies this
      ensures Valid()
      ensures history == InitialHistory() && stepNumber == 0 && xIsNext && isAscending
    {
      history := InitialHistory();
      stepNumber := 0;
      xIsNext := true;
      isAscending := true;
    }

    /** A click on square `i`. Ignored once the board under the cursor has a
        winner or when the square is taken; otherwise the history beyond the
        cursor is dropped and one entry with the current player's mark at `i`
        is appended, and the cursor moves onto it. */
    method HandleClick(i: nat)
      requires Valid() && i < Size
      modifies this
      ensures Valid() && isAscending == old(isAscending)
      ensures var board := old(history[stepNumber].squares);
              if Accepts(board, i) then
                && history == old(history[..stepNumber + 1]) + [Entry(board[i := MarkFor(old(xIsNext))], Some(i))]
                && stepNumber == old(stepNumber) + 1 == |history| - 1
                && xIsNext == !old(xIsNext)
              else
                history == old(history) && stepNumber == old(stepNumber) && xIsNext == old(xIsNext)
    {
      var h := history[..stepNumber + 1];
      var current := h[|h| - 1];
      assert current == history[stepNumber];
      var squares := current.squares;
      var w := CalculateWinner(squares);
      if w.Some? || squares[i] != Empty {
        return;
      }
      squares := squares[i := if xIsNext then X else O];
      assert MarkFor(xIsNext) == MarkOfMove(stepNumber + 1);
      MoveKeepsHistoryValid(history, stepNumber, i);
      history := h + [Entry(squares, Some(i))];
      stepNumber := |h|;
      xIsNext := !xIsNext;
    }

    /** Time travel: moves the cursor to entry `step` and sets the turn from
        its parity; the history, including entries after `step`, is kept. */
    method JumpTo(step: nat)
      requires Valid() && step < |history|
      modifies this
      ensures history == old(history) && isAscending == old(isAscending)
      ensures stepNumber == step && xIsNext == (step % 2 == 0)
      ensures Valid() && Current() == history[step].squares
    {
      stepNumber := step;
      xIsNext := step % 2 == 0;
    }
  }
}
