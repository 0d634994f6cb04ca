/** The `Game` component's state and the handlers that change it, with the
    board's click handler wired to `handlePlay` as its `onPlay`. */
module GameState {
  import opened Rules
  import opened Timeline
  import opened MoveList

  class Game {
    /** The board snapshots of the line of play being shown. */
    var history: seq<Board>
    /** The move being shown, a position in `history`. */
    var currentMove: nat
    var currentOrder: Order

    /** The pointer stays inside the history. */
    predicate Valid()
      reads this
    {
      currentMove < |history|
    }

    /** A fresh game: only the empty board, move 0, ascending order. */
    constructor ()
      ensures Valid() && IsPlayHistory(history)
      ensures history == [EmptyBoard] && currentMove == 0 && currentOrder == Asc
    {
      history := [EmptyBoard];
      currentMove := 0;
      currentOrder := Asc;
    }

    /** `xIsNext`: X moves on even move numbers. */
    function XIsNext(): bool
      reads this
    {
      currentMove % 2 == 0
    }

    /** `currentSquares`: the snapshot being shown. */
    function CurrentSquares(): Board
      reads this
      requires Valid()
    {
      history[currentMove]
    }

    /** `handlePlay`: drops the snapshots after the current move, appends
        `nextSquares` and shows it. When `nextSquares` is a legal move from
        the current board, a history built by legal play stays one. */
    method HandlePlay(nextSquares: Board)
      requires Valid()
      modifies this
      ensures Valid()
      ensures history == Play(old(history), old(currentMove), nextSquares)
      ensures currentMove == |history| - 1 == old(currentMove) + 1
      ensures currentOrder == old(currentOrder)
      ensures (old(IsPlayHistory(history)) && Winner(old(CurrentSquares())) == None &&
        IsMove(old(CurrentSquares()), nextSquares, Turn(old(currentMove)))) ==> IsPlayHistory(history)
    {
      if IsPlayHistory(history) && Winner(CurrentSquares()) == None &&
        IsMove(CurrentSquares(), nextSquares, Turn(currentMove)) {
        PlayKeepsPlayHistory(history, currentMove, nextSquares);
      }
      var nextHistory := history[..currentMove + 1] + [nextSquares];
      history := nextHistory;
      currentMove := |nextHistory| - 1;
    }

    /** `jumpTo`: shows move `nextMove`, keeping the later snapshots. */
    method JumpTo(nextMove: nat)
      requires Valid() && nextMove < |history|
      modifies this
      ensures Valid()
      ensures currentMove == nextMove
      ensures history == old(history) && currentOrder == old(currentOrder)
    {
      currentMove := nextMove;
    }

    /** `toggleOrder`: flips the order of the move list and nothing else. */
    method ToggleOrder()
      modifies this
      ensures currentOrder == Toggled(old(currentOrder))
      ensures history == old(history) && currentMove == old(currentMove)
    {
      currentOrder := Toggled(currentOrder);
    }

    /** The board's `handleClick` on square `idx`: ignored when the square is
        taken or the board already has a winner; otherwise a copy of the board
        with the mover's mark at `idx` goes to `handlePlay`. */
    method HandleClick(idx: nat)
      requires Valid() && idx < 9
      modifies this
      ensures Valid() && currentOrder == old(currentOrder)
      ensures old(CurrentSquares())[idx] != Empty || Winner(old(CurrentSquares())).Some? ==>
        history == old(history) && currentMove == old(currentMove)
      ensures old(CurrentSquares())[idx] == Empty && Winner(old(CurrentSquares())) == None ==>
        && history == Play(old(history), old(currentMove), old(CurrentSquares())[idx := Turn(old(currentMove))])
        && currentMove == old(currentMove) + 1
        && CurrentSquares()[idx] == Turn(old(currentMove))
        && (forall j :: 0 <= j < 9 && j != idx ==> CurrentSquares()[j] == old(CurrentSquares())[j])
      ensures old(IsPlayHistory(history)) ==> IsPlayHistory(history)
    {
      var squares := CurrentSquares();
      var winner := CalculateWinner(squares);
      if squares[idx] != Empty || winner.Some? {
        return;
      }
      var nextSquares := squares[idx := PlayerMark(XIsNext())];
      assert PlacedAt(squares, nextSquares, idx, Turn(currentMove));
      HandlePlay(nextSquares);
    }

    /** The status line for the board being shown. */
    function StatusLine(): (s: string)
      reads this
      requires Valid()
      ensures Winner(CurrentSquares()).Some? <==> |s| == 9 && s[..8] == "Winner: "
    {
      StatusMeaning(CurrentSquares(), XIsNext(), CurrentSquares(), XIsNext());
      Status(CurrentSquares(), XIsNext())
    }

    /** The move list for the current state. */
    function MoveEntries(): (entries: seq<Entry>)
      reads this
      requires Valid()
      ensures |entries| == |history|
      ensures forall m :: 0 <= m < |entries| ==> (entries[m].jump == None <==> entries[m].key == currentMove)
    {
      MovesEntries(history, currentMove, currentOrder);
      Moves(history, currentMove, currentOrder)
    }
  }

  /** Time travel: after a jump back to move `k`, a legal click keeps the
      first `k + 1` snapshots, appends one, and leaves `k + 2` in all. */
  method JumpThenClick(g: Game, k: nat, idx: nat)
    requires g.Valid() && IsPlayHistory(g.history) && k < |g.history| && idx < 9
    requires g.history[k][idx] == Empty && Winner(g.history[k]) == None
    modifies g
    ensures g.Valid() && IsPlayHistory(g.history)
    ensures |g.history| == k + 2 && g.currentMove == k + 1
    ensures g.history[..k + 1] == old(g.history[..k + 1])
    ensures g.history[k + 1] == old(g.history[k])[idx := Turn(k)]
  {
    g.JumpTo(k);
    g.HandleClick(idx);
  }

  /** A game X wins on the top row, then a jump back to move 2 and a new
      move there, which cuts the history back to four snapshots. */
  method TopRowThenTimeTravel()
  {
    var g := new Game();
    g.HandleClick(0);
    assert g.CurrentSquares() == [X, Empty, Empty, Empty, Empty, Empty, Empty, Empty, Empty];
    g.HandleClick(4);
    assert g.CurrentSquares() == [X, Empty, Empty, Empty, O, Empty, Empty, Empty, Empty];
    g.HandleClick(1);
    assert g.CurrentSquares() == [X, X, Empty, Empty, O, Empty, Empty, Empty, Empty];
    g.HandleClick(5);
    assert g.CurrentSquares() == [X, X, Empty, Empty, O, O, Empty, Empty, Empty];
    g.HandleClick(2);
    var top := g.CurrentSquares();
    assert top == [X, X, X, Empty, O, O, Empty, Empty, Empty];
    assert LineWon(top, 0);
    WinnerIsFirstWonLine(top, X);
    assert FirstWonBy(top, 0, X);
    assert Winner(top) == Some(X);
    assert g.StatusLine() == "Winner: X";
    assert |g.history| == 6;
    g.HandleClick(8);
    assert |g.history| == 6 && g.currentMove == 5;
    g.JumpTo(2);
    assert g.CurrentSquares() == [X, Empty, Empty, Empty, O, Empty, Empty, Empty, Empty];
    assert g.StatusLine() == "Next player:  X";
    g.HandleClick(1);
    assert |g.history| == 4 && g.currentMove == 3;
  }
}
