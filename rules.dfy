/** The rules of Triqui (tic-tac-toe): squares, boards, the eight winning
    lines, the winner of a board, whose turn it is, and the status line. */
module Rules {

  datatype Option<T> = None | Some(value: T)

  /** A square of the grid. The source's `null` and `""` (both falsy) are `Empty`. */
  datatype Cell = Empty | X | O

  /** A snapshot of the 3×3 grid, row-major: square (row, col) is at row * 3 + col. */
  type Board = b: seq<Cell> | |b| == 9
    witness [Empty, Empty, Empty, Empty, Empty, Empty, Empty, Empty, Empty]

  /** The board the game starts from: `Array(9).fill(null)`. */
  const EmptyBoard: Board := [Empty, Empty, Empty, Empty, Empty, Empty, Empty, Empty, Empty]

  /** The winning triples in the order they are scanned: rows, columns, diagonals. */
  const Lines: seq<(nat, nat, nat)> :=
    [(0, 1, 2), (3, 4, 5), (6, 7, 8),
     (0, 3, 6), (1, 4, 7), (2, 5, 8),
     (0, 4, 8), (2, 4, 6)]

  /** Line `i` holds three equal marks. */
  predicate LineWon(b: Board, i: nat)
    requires i < |Lines|
  {
    var (p, q, r) := Lines[i];
    b[p] != Empty && b[p] == b[q] && b[p] == b[r]
  }

  /** The mark on the first square of line `i`. */
  function LineMark(b: Board, i: nat): Cell
    requires i < |Lines|
  {
    b[Lines[i].0]
  }

  /** Line `i` is won by `p` and no earlier line is won. */
  ghost predicate FirstWonBy(b: Board, i: nat, p: Cell)
  {
    i < |Lines| && LineWon(b, i) && LineMark(b, i) == p &&
    forall j :: 0 <= j < i ==> !LineWon(b, j)
  }

  /** The result of scanning the lines from `from` on. */
  function WinnerFrom(b: Board, from: nat): (w: Option<Cell>)
    requires from <= |Lines|
    ensures w.Some? ==> w.value != Empty
    decreases |Lines| - from
  {
    if from == |Lines| then None
    else if LineWon(b, from) then Some(LineMark(b, from))
    else WinnerFrom(b, from + 1)
  }

  /** What `calculateWinner` returns for `b`: `None` stands for `null`. */
  function Winner(b: Board): Option<Cell>
  {
    WinnerFrom(b, 0)
  }

  /** `calculateWinner`: an indexed scan over the lines with an early return. */
  method CalculateWinner(squares: Board) returns (winner: Option<Cell>)
    ensures winner == Winner(squares)
    ensures winner.Some? ==> winner.value != Empty
  {
    var i := 0;
    while i < |Lines|
      invariant 0 <= i <= |Lines|
      invariant WinnerFrom(squares, i) == Winner(squares)
    {
      var (a, b, c) := Lines[i];
      if squares[a] != Empty && squares[a] == squares[b] && squares[a] == squares[c] {
        return Some(squares[a]);
      }
      i := i + 1;
    }
    return None;
  }

  lemma {:induction false} WinnerFromNone(b: Board, from: nat)
    requires from <= |Lines|
    ensures WinnerFrom(b, from) == None <==> forall j :: from <= j < |Lines| ==> !LineWon(b, j)
    decreases |Lines| - from
  {
    if from < |Lines| {
      WinnerFromNone(b, from + 1);
    }
  }

  lemma {:induction false} WinnerFromFirst(b: Board, from: nat, i: nat)
    requires from <= i < |Lines| && LineWon(b, i)
    requires forall j :: from <= j < i ==> !LineWon(b, j)
    ensures WinnerFrom(b, from) == Some(LineMark(b, i))
    decreases i - from
  {
    if from < i {
      WinnerFromFirst(b, from + 1, i);
    }
  }

  lemma {:induction false} WinnerFromSome(b: Board, from: nat)
    requires from <= |Lines| && WinnerFrom(b, from).Some?
    ensures exists i :: (from <= i < |Lines| && LineWon(b, i) &&
      LineMark(b, i) == WinnerFrom(b, from).value &&
      forall j :: from <= j < i ==> !LineWon(b, j))
    decreases |Lines| - from
  {
    if !LineWon(b, from) {
      WinnerFromSome(b, from + 1);
      var i :| from + 1 <= i < |Lines| && LineWon(b, i) &&
        LineMark(b, i) == WinnerFrom(b, from).value &&
        forall j :: from + 1 <= j < i ==> !LineWon(b, j);
      assert forall j :: from <= j < i ==> !LineWon(b, j);
    }
  }

  /** The winner is `null` exactly when no line is won. */
  lemma WinnerNoneIff(b: Board)
    ensures Winner(b) == None <==> forall i :: 0 <= i < |Lines| ==> !LineWon(b, i)
  {
    WinnerFromNone(b, 0);
  }

  /** The winner is `p` exactly when the first won line, in scan order, is `p`'s. */
  lemma WinnerIsFirstWonLine(b: Board, p: Cell)
    ensures Winner(b) == Some(p) <==> exists i :: FirstWonBy(b, i, p)
  {
    if Winner(b) == Some(p) {
      WinnerFromSome(b, 0);
      var i :| 0 <= i < |Lines| && LineWon(b, i) && LineMark(b, i) == p &&
        forall j :: 0 <= j < i ==> !LineWon(b, j);
      assert FirstWonBy(b, i, p);
    }
    if i :| FirstWonBy(b, i, p) {
      WinnerFromFirst(b, 0, i);
    }
  }

  /** When every won line on the board carries `p`, the winner is `p`
      exactly when some line is won by `p`. */
  lemma WinnerWhenOneMarkWins(b: Board, p: Cell)
    requires forall i :: 0 <= i < |Lines| && LineWon(b, i) ==> LineMark(b, i) == p
    ensures Winner(b) == Some(p) <==> exists i :: 0 <= i < |Lines| && LineWon(b, i) && LineMark(b, i) == p
  {
    WinnerIsFirstWonLine(b, p);
    WinnerNoneIff(b);
    if Winner(b).Some? {
      WinnerFromSome(b, 0);
    }
  }

  /** The mark placed by the player to move: `xIsNext ? "X" : "O"`. */
  function PlayerMark(xIsNext: bool): (mark: Cell)
    ensures mark != Empty
    ensures mark == X <==> xIsNext
  {
    if xIsNext then X else O
  }

  /** X is to move exactly when the current move number is even. */
  function Turn(currentMove: nat): (mark: Cell)
    ensures mark != Empty
    ensures mark == X <==> currentMove % 2 == 0
  {
    PlayerMark(currentMove % 2 == 0)
  }

  /** How a mark is written: "X" or "O". */
  function MarkText(c: Cell): string
  {
    match c
    case Empty => ""
    case X => "X"
    case O => "O"
  }

  /** The status line shown above the board. Note the two spaces after "Next player:". */
  function Status(squares: Board, xIsNext: bool): string
  {
    match Winner(squares)
    case Some(w) => "Winner: " + MarkText(w)
    case None => "Next player:  " + MarkText(PlayerMark(xIsNext))
  }

  /** The status line announces a winner exactly when there is one; it names
      the winner, or else the player to move, in its last character; and
      two equal status lines stand for the same outcome. */
  lemma StatusMeaning(b1: Board, x1: bool, b2: Board, x2: bool)
    ensures var s := Status(b1, x1);
      && (Winner(b1).Some? <==> |s| == 9 && s[..8] == "Winner: ")
      && (Winner(b1).None? <==> |s| == 15 && s[..14] == "Next player:  ")
      && MarkText(if Winner(b1).Some? then Winner(b1).value else PlayerMark(x1)) == [s[|s| - 1]]
    ensures Status(b1, x1) == Status(b2, x2) ==>
      Winner(b1) == Winner(b2) && (Winner(b1).None? ==> x1 == x2)
  {
    var s1, s2 := Status(b1, x1), Status(b2, x2);
    if s1 == s2 {
      assert |s1| == |s2| && s1[|s1| - 1] == s2[|s2| - 1];
    }
  }
}
