/** Squares of a 3x3 tic-tac-toe board and detection of a winning line. */
module Board {

  /** The content of one square: empty (`null` in the game), or a player's mark. */
  datatype Cell = Empty | X | O

  datatype Option<+T> = None | Some(value: T)

  /** Number of squares on a board, indexed 0..8 in row-major order. */
  const Size: nat := 9

  /** Three square indices. */
  type Triple = t: (nat, nat, nat) | t.0 < Size && t.1 < Size && t.2 < Size witness (0, 1, 2)

  /** Number of winning triples. */
  const LineCount: nat := 8

  /** The table of winning triples, in the order they are scanned: three rows,
      three columns, then the two diagonals. Each triple is three distinct,
      equally spaced squares; the first three stay within one row, the next
      three within one column, and the last two cross the centre diagonally. */
  function Line(k: nat): (t: Triple)
    requires k < LineCount
    ensures t.0 < t.1 < t.2 && t.1 - t.0 == t.2 - t.1
    ensures k < 3 ==> t.0 / 3 == t.2 / 3
    ensures 3 <= k < 6 ==> t.0 % 3 == t.2 % 3
    ensures 6 <= k ==> t.1 == 4 && t.0 % 3 != t.1 % 3 && t.0 / 3 != t.1 / 3
  {
    match k
    case 0 => (0, 1, 2)
    case 1 => (3, 4, 5)
    case 2 => (6, 7, 8)
    case 3 => (0, 3, 6)
    case 4 => (1, 4, 7)
    case 5 => (2, 5, 8)
    case 6 => (0, 4, 8)
    case _ => (2, 4, 6)
  }

  predicate IsBoard(b: seq<Cell>) { |b| == Size }

  function EmptyBoard(): (b: seq<Cell>)
    ensures IsBoard(b)
    ensures forall i :: 0 <= i < Size ==> b[i] == Empty
  {
    [Empty, Empty, Empty, Empty, Empty, Empty, Empty, Empty, Empty]
  }

  /** Line `k` is filled with three equal, non-empty marks. */
  predicate LineWins(b: seq<Cell>, k: nat)
    requires IsBoard(b) && k < LineCount
  {
    var (a, c, d) := Line(k);
    b[a] != Empty && b[a] == b[c] && b[a] == b[d]
  }

  /** Line `k` wins and no line scanned before it does. */
  predicate FirstWinningLine(b: seq<Cell>, k: nat)
    requires IsBoard(b)
  {
    k < LineCount && LineWins(b, k) && forall j :: 0 <= j < k ==> !LineWins(b, j)
  }

  /** The value the scan returns when it stops at line `k`: the mark and the triple. */
  function Hit(b: seq<Cell>, k: nat): (r: (Cell, seq<nat>))
    requires IsBoard(b) && k < LineCount
    ensures |r.1| == 3 && r.1[0] < Size && r.1[1] < Size && r.1[2] < Size
    ensures r.0 == b[r.1[0]]
    ensures LineWins(b, k) <==> r.0 != Empty && b[r.1[1]] == r.0 && b[r.1[2]] == r.0
  {
    var (a, c, d) := Line(k);
    (b[a], [a, c, d])
  }

  /** The result of scanning lines `k`, `k+1`, ... for the first winning one. */
  function WinnerFrom(b: seq<Cell>, k: nat): (r: Option<(Cell, seq<nat>)>)
    requires IsBoard(b) && k <= LineCount
    ensures r.None? <==> forall j :: k <= j < LineCount ==> !LineWins(b, j)
    ensures r.Some? ==> r.value.0 != Empty
    decreases LineCount - k
  {
    if k == LineCount then None
    else if LineWins(b, k) then Some(Hit(b, k))
    else WinnerFrom(b, k + 1)
  }

  /** A scan from line `k` stops at the first winning line at or after `k`. */
  lemma {:induction false} ScanStopsAtFirst(b: seq<Cell>, k: nat, j: nat)
    requires IsBoard(b) && k <= j < LineCount && LineWins(b, j)
    requires forall l :: k <= l < j ==> !LineWins(b, l)
    ensures WinnerFrom(b, k) == Some(Hit(b, j))
    decreases j - k
  {
    if k < j {
      ScanStopsAtFirst(b, k + 1, j);
    }
  }

  /** The winner of a board: the mark and triple of the first winning line in
      scan order, or None when no line wins. */
  function Winner(b: seq<Cell>): (r: Option<(Cell, seq<nat>)>)
    requires IsBoard(b)
    ensures r.None? <==> forall k :: 0 <= k < LineCount ==> !LineWins(b, k)
    ensures r.Some? ==> r.value.0 != Empty
  {
    WinnerFrom(b, 0)
  }

  /** The winner is the mark and triple of the first winning line in scan order. */
  lemma WinnerIsFirstLine(b: seq<Cell>, k: nat)
    requires IsBoard(b) && FirstWinningLine(b, k)
    ensures Winner(b) == Some(Hit(b, k))
  {
    ScanStopsAtFirst(b, 0, k);
  }

  /** When some line wins, there is a first one. */
  lemma FirstWinningLineExists(b: seq<Cell>, k: nat) returns (m: nat)
    requires IsBoard(b) && k < LineCount && LineWins(b, k)
    ensures m <= k && FirstWinningLine(b, m)
  {
    m := 0;
    while !LineWins(b, m)
      invariant m <= k
      invariant forall j :: 0 <= j < m ==> !LineWins(b, j)
      decreases k - m
    {
      m := m + 1;
    }
  }

  /** Every first winning line in scan order carries the winner's mark. */
  lemma WinnerMarkOnFirstLine(b: seq<Cell>)
    requires IsBoard(b)
    ensures forall k :: FirstWinningLine(b, k) ==> Winner(b) == Some(Hit(b, k))
  {
    forall k | FirstWinningLine(b, k)
      ensures Winner(b) == Some(Hit(b, k))
    {
      WinnerIsFirstLine(b, k);
    }
  }

  /** A non-None winner is the mark and triple of the first winning line, so
      its three squares hold that same non-empty mark. */
  lemma WinningLineOf(b: seq<Cell>) returns (k: nat)
    requires IsBoard(b) && Winner(b).Some?
    ensures FirstWinningLine(b, k) && Winner(b) == Some(Hit(b, k))
    ensures var (mark, line) := Winner(b).value;
            mark != Empty && |line| == 3 && line[0] < Size && line[1] < Size && line[2] < Size &&
            b[line[0]] == mark && b[line[1]] == mark && b[line[2]] == mark
  {
    var j :| 0 <= j < LineCount && LineWins(b, j);
    k := FirstWinningLineExists(b, j);
    WinnerIsFirstLine(b, k);
  }

  /** Writing square `i` leaves every line not through `i` as it was. */
  lemma LineAwayFromMove(prev: seq<Cell>, i: nat, m: Cell, k: nat)
    requires IsBoard(prev) && i < Size && k < LineCount
    ensures i != Line(k).0 && i != Line(k).1 && i != Line(k).2 ==>
              LineWins(prev[i := m], k) == LineWins(prev, k)
  {
  }

  /** A move into square `i` of a board without a winner can only complete
      lines through `i`, so any winner afterwards holds the mark just placed. */
  lemma NewWinnerIsMover(prev: seq<Cell>, i: nat, m: Cell)
    requires IsBoard(prev) && i < Size && Winner(prev).None?
    requires Winner(prev[i := m]).Some?
    ensures Winner(prev[i := m]).value.0 == m
  {
    var next := prev[i := m];
    var k := WinningLineOf(next);
    assert !LineWins(prev, k);
    LineAwayFromMove(prev, i, m, k);
  }

  /** A board with none of the eight lines filled has no winner. */
  lemma NoLineWins(b: seq<Cell>)
    requires IsBoard(b)
    requires !LineWins(b, 0) && !LineWins(b, 1) && !LineWins(b, 2) && !LineWins(b, 3)
    requires !LineWins(b, 4) && !LineWins(b, 5) && !LineWins(b, 6) && !LineWins(b, 7)
    ensures Winner(b).None?
  {
    forall k | 0 <= k < LineCount ensures !LineWins(b, k) {
      assert k in {0, 1, 2, 3, 4, 5, 6, 7};
    }
  }

  /** calculateWinner: scan the table in order and return at the first winning line. */
  method CalculateWinner(squares: seq<Cell>) returns (r: Option<(Cell, seq<nat>)>)
    requires IsBoard(squares)
    ensures r == Winner(squares)
  {
    var i := 0;
    while i < LineCount
      invariant 0 <= i <= LineCount
      invariant forall j :: 0 <= j < i ==> !LineWins(squares, j)
    {
      var (a, b, c) := Line(i);
      if squares[a] != Empty && squares[a] == squares[b] && squares[a] == squares[c] {
        WinnerIsFirstLine(squares, i);
        return Some((squares[a], [a, b, c]));
      }
      i := i + 1;
    }
    return None;
  }

  /** Number of squares holding `c`. */
  function Count(s: seq<Cell>, c: Cell): nat
  {
    if s == [] then 0 else (if s[0] == c then 1 else 0) + Count(s[1..], c)
  }

  /** Writing `v` into square `i` moves one square from the count of the old
      value to the count of `v`. */
  lemma {:induction false} CountUpdate(s: seq<Cell>, i: nat, v: Cell, c: Cell)
    requires i < |s|
    ensures Count(s[i := v], c) ==
            Count(s, c) - (if s[i] == c then 1 else 0) + (if v == c then 1 else 0)
  {
    if i == 0 {
      assert s[i := v][1..] == s[1..];
    } else {
      assert s[i := v][1..] == s[1..][i - 1 := v];
      CountUpdate(s[1..], i - 1, v, c);
    }
  }

  /** A count is zero exactly when no square holds the value. */
  lemma {:induction false} CountZero(s: seq<Cell>, c: Cell)
    ensures Count(s, c) == 0 <==> forall i :: 0 <= i < |s| ==> s[i] != c
  {
    if s != [] {
      CountZero(s[1..], c);
      assert forall i :: 1 <= i < |s| ==> s[i] == s[1..][i - 1];
    }
  }

  lemma EmptyBoardCounts()
    ensures Count(EmptyBoard(), Empty) == Size
    ensures Count(EmptyBoard(), X) == 0 && Count(EmptyBoard(), O) == 0
  {
    var e := EmptyBoard();
    assert e[1..][1..][1..][1..][1..][1..][1..][1..][1..] == [];
  }
}
