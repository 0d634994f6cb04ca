/** The history of board snapshots that the game keeps, as a value: what a
    history built by legal play looks like, the play step that truncates and
    appends, and what follows for every snapshot in it. */
module Timeline {
  import opened Rules

  /** `after` is `before` with the empty square `k` now holding `mark`. */
  predicate PlacedAt(before: Board, after: Board, k: nat, mark: Cell)
  {
    k < 9 && before[k] == Empty && after == before[k := mark]
  }

  /** `after` is `before` with exactly one empty square now holding `mark`. */
  ghost predicate IsMove(before: Board, after: Board, mark: Cell)
  {
    exists k :: PlacedAt(before, after, k, mark)
  }

  /** A history built by legal play from the empty board: snapshot `i` is
      snapshot `i - 1` plus the mark of the player whose turn it was at move
      `i - 1`, and play only ever continued from boards without a winner. */
  ghost predicate IsPlayHistory(h: seq<Board>)
  {
    && |h| > 0
    && h[0] == EmptyBoard
    && (forall i :: 0 < i < |h| ==> IsMove(h[i - 1], h[i], Turn(i - 1)))
    && (forall i :: 0 <= i < |h| - 1 ==> Winner(h[i]) == None)
  }

  /** `handlePlay`'s new history: the entries up to the current move, then `next`. */
  function Play(h: seq<Board>, currentMove: nat, next: Board): (r: seq<Board>)
    requires currentMove < |h|
    ensures |r| == currentMove + 2
    ensures r[|r| - 1] == next
    ensures forall i :: 0 <= i <= currentMove ==> r[i] == h[i]
  {
    h[..currentMove + 1] + [next]
  }

  /** A legal move from the current snapshot keeps the history one built by legal play. */
  lemma PlayKeepsPlayHistory(h: seq<Board>, currentMove: nat, next: Board)
    requires IsPlayHistory(h) && currentMove < |h|
    requires Winner(h[currentMove]) == None
    requires IsMove(h[currentMove], next, Turn(currentMove))
    ensures IsPlayHistory(Play(h, currentMove, next))
  {
    var r := Play(h, currentMove, next);
    forall i | 0 < i < |r|
      ensures IsMove(r[i - 1], r[i], Turn(i - 1))
    {
      if i <= currentMove {
        assert r[i - 1] == h[i - 1] && r[i] == h[i];
      }
    }
    forall i | 0 <= i < |r| - 1
      ensures Winner(r[i]) == None
    {
      assert r[i] == h[i];
    }
  }

  /** Keeping only the entries up to `k` keeps the history one built by legal play. */
  lemma PrefixIsPlayHistory(h: seq<Board>, k: nat)
    requires IsPlayHistory(h) && k < |h|
    ensures IsPlayHistory(h[..k + 1])
  {
    var r := h[..k + 1];
    forall i | 0 < i < |r|
      ensures IsMove(r[i - 1], r[i], Turn(i - 1))
    {
      assert r[i - 1] == h[i - 1] && r[i] == h[i];
    }
  }

  /** Placing a mark changes the counts of the three kinds of square by one each way. */
  lemma PlacedCounts(before: Board, after: Board, k: nat, mark: Cell)
    requires PlacedAt(before, after, k, mark) && mark != Empty
    ensures multiset(after)[mark] == multiset(before)[mark] + 1
    ensures multiset(after)[Empty] == multiset(before)[Empty] - 1
    ensures forall c :: c != mark && c != Empty ==> multiset(after)[c] == multiset(before)[c]
  {
    assert before == before[..k] + [Empty] + before[k + 1..];
    assert after == before[..k] + [mark] + before[k + 1..];
  }

  lemma EmptyBoardCounts()
    ensures multiset(EmptyBoard)[X] == 0 && multiset(EmptyBoard)[O] == 0
    ensures multiset(EmptyBoard)[Empty] == 9
  {
    var m := multiset(EmptyBoard);
    assert m == multiset{Empty, Empty, Empty, Empty, Empty, Empty, Empty, Empty, Empty};
  }

  /** One move on from move `i - 1`: the counts for `i - 1` become those for `i`. */
  lemma CountsStep(before: Board, after: Board, k: nat, i: nat)
    requires i > 0 && PlacedAt(before, after, k, Turn(i - 1))
    requires multiset(before)[X] == i / 2 && multiset(before)[O] == (i - 1) / 2
    requires multiset(before)[Empty] == 10 - i
    ensures multiset(after)[X] == (i + 1) / 2 && multiset(after)[O] == i / 2
    ensures multiset(after)[Empty] == 9 - i
  {
    PlacedCounts(before, after, k, Turn(i - 1));
    if i % 2 == 1 {
      assert Turn(i - 1) == X;
      assert (i + 1) / 2 == i / 2 + 1 && i / 2 == (i - 1) / 2;
    } else {
      assert Turn(i - 1) == O;
      assert (i + 1) / 2 == i / 2 && i / 2 == (i - 1) / 2 + 1;
    }
  }

  /** After `i` moves, X has made (i + 1) / 2 of them, O has made i / 2, and
      9 - i squares are still empty. */
  lemma {:induction false} MarkCounts(h: seq<Board>, i: nat)
    requires IsPlayHistory(h) && i < |h|
    ensures multiset(h[i])[X] == (i + 1) / 2
    ensures multiset(h[i])[O] == i / 2
    ensures multiset(h[i])[Empty] == 9 - i
  {
    if i == 0 {
      EmptyBoardCounts();
    } else {
      MarkCounts(h, i - 1);
      assert IsMove(h[i - 1], h[i], Turn(i - 1));
      var k :| PlacedAt(h[i - 1], h[i], k, Turn(i - 1));
      CountsStep(h[i - 1], h[i], k, i);
    }
  }

  /** A history built by legal play holds at most ten snapshots. */
  lemma PlayHistoryAtMostTen(h: seq<Board>)
    requires IsPlayHistory(h)
    ensures |h| <= 10
  {
    MarkCounts(h, |h| - 1);
  }

  /** A mark placed on a board without a winner can only complete lines of its own mark. */
  lemma NewLinesCarryMark(before: Board, after: Board, k: nat, mark: Cell)
    requires PlacedAt(before, after, k, mark) && Winner(before) == None
    ensures forall j :: 0 <= j < |Lines| && LineWon(after, j) ==> LineMark(after, j) == mark
  {
    WinnerNoneIff(before);
    forall j | 0 <= j < |Lines| && LineWon(after, j)
      ensures LineMark(after, j) == mark
    {
      assert !LineWon(before, j);
    }
  }

  /** On a snapshot of a history built by legal play, all won lines carry the
      same mark, so the winner is `p` exactly when some line holds three `p`s. */
  lemma PlayedBoardWinner(h: seq<Board>, i: nat, p: Cell)
    requires IsPlayHistory(h) && i < |h|
    ensures Winner(h[i]) == Some(p) <==>
      exists j :: 0 <= j < |Lines| && LineWon(h[i], j) && LineMark(h[i], j) == p
  {
    if i == 0 {
      assert forall j :: 0 <= j < |Lines| ==> !LineWon(h[0], j);
      WinnerNoneIff(h[0]);
    } else {
      assert IsMove(h[i - 1], h[i], Turn(i - 1));
      var k :| PlacedAt(h[i - 1], h[i], k, Turn(i - 1));
      NewLinesCarryMark(h[i - 1], h[i], k, Turn(i - 1));
      if p == Turn(i - 1) {
        WinnerWhenOneMarkWins(h[i], p);
      } else {
        WinnerWhenOneMarkWins(h[i], Turn(i - 1));
      }
    }
  }
}
