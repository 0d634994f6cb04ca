/** The move list shown beside the board: one entry per history snapshot,
    listed in ascending or descending order, each with its description and,
    for every entry but the current move, a jump to its move. */
module MoveList {
  import opened Rules
  import opened Decimal

  /** `OrderEnum`: the order the move list is listed in. */
  datatype Order = Asc | Desc

  /** `toggleOrder`'s new order. */
  function Toggled(order: Order): (r: Order)
    ensures r != order
  {
    if order == Asc then Desc else Asc
  }

  /** Toggling the order twice gives back the order it started from. */
  lemma ToggledTwice(order: Order)
    ensures Toggled(Toggled(order)) == order
  {
  }

  /** The move shown at position `move` of a list of `length` entries. In
      descending order move 0 stays first and every later position
      `move` shows move `length - move`. */
  function DisplayIndex(order: Order, length: nat, move: nat): (index: nat)
    requires move < length
    ensures index < length
    ensures index == 0 <==> move == 0
  {
    if order == Desc && move > 0 then length - move else move
  }

  /** The position-to-move mapping is its own inverse. */
  lemma DisplayIndexInvolution(order: Order, length: nat, move: nat)
    requires move < length
    ensures DisplayIndex(order, length, DisplayIndex(order, length, move)) == move
  {
  }

  /** Ascending order lists the moves as they were made; descending order
      lists move 0 first and the remaining moves latest first. */
  lemma DisplayIndexOrder(order: Order, length: nat, m1: nat, m2: nat)
    requires m1 < m2 < length
    ensures order == Asc ==> DisplayIndex(order, length, m1) < DisplayIndex(order, length, m2)
    ensures order == Desc && m1 > 0 ==> DisplayIndex(order, length, m1) > DisplayIndex(order, length, m2)
    ensures order == Desc && m1 == 0 ==> DisplayIndex(order, length, m1) < DisplayIndex(order, length, m2)
  {
  }

  /** In either order every move from 0 to `length - 1` is listed exactly
      once (move `k` at position `DisplayIndex(order, length, k)`), and move
      0 comes first. */
  lemma DisplayIndexIsPermutation(order: Order, length: nat)
    ensures forall k :: 0 <= k < length ==>
      DisplayIndex(order, length, k) < length &&
      DisplayIndex(order, length, DisplayIndex(order, length, k)) == k
    ensures forall m1, m2 :: (0 <= m1 < length && 0 <= m2 < length &&
      DisplayIndex(order, length, m1) == DisplayIndex(order, length, m2)) ==> m1 == m2
    ensures length > 0 ==> DisplayIndex(order, length, 0) == 0
  {
    forall k | 0 <= k < length
      ensures DisplayIndex(order, length, DisplayIndex(order, length, k)) == k
    {
      DisplayIndexInvolution(order, length, k);
    }
    forall m1, m2 | 0 <= m1 < length && 0 <= m2 < length &&
      DisplayIndex(order, length, m1) == DisplayIndex(order, length, m2)
      ensures m1 == m2
    {
      DisplayIndexInvolution(order, length, m1);
      DisplayIndexInvolution(order, length, m2);
    }
  }

  /** The text of the entry for move `index`. */
  function Description(index: nat, currentMove: nat): string
  {
    if index == currentMove then "You are at move #" + NatToString(index)
    else if index > 0 then "Go to move #" + NatToString(index)
    else "Go to game start"
  }

  /** What a description says: the move it names and whether it is the current one. */
  datatype Reading = Reading(index: nat, isCurrent: bool)

  /** Reads a description back: "Go to game start", "Go to move #" and a
      number above 0, or "You are at move #" and a number, each number
      written without leading zeros; `None` for any other text. */
  function ReadDescription(s: string): Option<Reading>
  {
    if s == "Go to game start" then Some(Reading(0, false))
    else if |s| > 12 && s[..12] == "Go to move #" && IsCanonical(s[12..]) && s[12] != '0' then
      Some(Reading(DigitsValue(s[12..]), false))
    else if |s| > 17 && s[..17] == "You are at move #" && IsCanonical(s[17..]) then
      Some(Reading(DigitsValue(s[17..]), true))
    else None
  }

  /** Every description names its own move, and says "You are at" exactly for the current move. */
  lemma ReadDescriptionOf(index: nat, currentMove: nat)
    ensures ReadDescription(Description(index, currentMove)) == Some(Reading(index, index == currentMove))
  {
    var s := Description(index, currentMove);
    var n := NatToString(index);
    ReadNatToString(index);
    if index == currentMove {
      assert s[0] == 'Y' && s[17..] == n;
    } else if index > 0 {
      assert s[6] == 'm' && s[12..] == n;
    }
  }

  /** The description of move `index` is the only text that reads as move
      `index`'s entry: so the current move reads "You are at move #i", move 0
      otherwise reads "Go to game start", and move i > 0 "Go to move #i". */
  lemma DescriptionIsOnlyReading(s: string, index: nat, currentMove: nat)
    ensures ReadDescription(s) == Some(Reading(index, index == currentMove)) <==>
      s == Description(index, currentMove)
  {
    ReadDescriptionOf(index, currentMove);
    if ReadDescription(s) == Some(Reading(index, index == currentMove)) && s != "Go to game start" {
      if |s| > 12 && s[..12] == "Go to move #" && IsCanonical(s[12..]) && s[12] != '0' {
        WriteDigitsValue(s[12..]);
        LeadingDigitPositive(s[12..]);
        assert s == s[..12] + s[12..];
      } else {
        WriteDigitsValue(s[17..]);
        assert s == s[..17] + s[17..];
      }
    }
  }

  /** Entries for different moves have different descriptions. */
  lemma DescriptionsDistinct(i: nat, j: nat, currentMove: nat)
    requires i != j
    ensures Description(i, currentMove) != Description(j, currentMove)
  {
    ReadDescriptionOf(i, currentMove);
    ReadDescriptionOf(j, currentMove);
  }

  /** One list item: its key, its text, and the move its button jumps to
      (`None` where the item is plain text). */
  datatype Entry = Entry(key: nat, description: string, jump: Option<nat>)

  /** The list item for move `index`. */
  function EntryFor(index: nat, currentMove: nat): Entry
  {
    Entry(index, Description(index, currentMove), if currentMove == index then None else Some(index))
  }

  /** The `moves` list that `history.map` builds. */
  function Moves(history: seq<Board>, currentMove: nat, order: Order): seq<Entry>
  {
    seq(|history|, m requires 0 <= m < |history| => EntryFor(DisplayIndex(order, |history|, m), currentMove))
  }

  /** There is one entry per snapshot; every move appears exactly once (move
      `k` at position `DisplayIndex(order, |history|, k)`), move 0 first; the current move's entry is plain text reading "You are at move
      #i", and every other entry jumps to its own move. */
  lemma MovesEntries(history: seq<Board>, currentMove: nat, order: Order)
    ensures var entries := Moves(history, currentMove, order);
      && |entries| == |history|
      && (|history| > 0 ==> entries[0].key == 0)
      && (forall k :: 0 <= k < |history| ==> entries[DisplayIndex(order, |history|, k)].key == k)
      && (forall m1, m2 :: (0 <= m1 < |history| && 0 <= m2 < |history| &&
            entries[m1].key == entries[m2].key) ==> m1 == m2)
      && (forall m :: 0 <= m < |history| ==>
            (entries[m].jump == None <==> entries[m].key == currentMove) &&
            (entries[m].jump != None ==> entries[m].jump == Some(entries[m].key)) &&
            ReadDescription(entries[m].description) == Some(Reading(entries[m].key, entries[m].key == currentMove)))
  {
    var n := |history|;
    var entries := Moves(history, currentMove, order);
    DisplayIndexIsPermutation(order, n);
    forall m | 0 <= m < n
      ensures ReadDescription(entries[m].description) == Some(Reading(entries[m].key, entries[m].key == currentMove))
    {
      ReadDescriptionOf(DisplayIndex(order, n, m), currentMove);
    }
  }

  /** When the current move is in the history, exactly one entry is plain text. */
  lemma OneCurrentEntry(history: seq<Board>, currentMove: nat, order: Order)
    requires currentMove < |history|
    ensures var entries := Moves(history, currentMove, order);
      && (exists m :: 0 <= m < |entries| && entries[m].jump == None)
      && (forall m1, m2 :: (0 <= m1 < |entries| && 0 <= m2 < |entries| &&
            entries[m1].jump == None && entries[m2].jump == None) ==> m1 == m2)
  {
    var n := |history|;
    var entries := Moves(history, currentMove, order);
    DisplayIndexIsPermutation(order, n);
    DisplayIndexInvolution(order, n, currentMove);
    assert entries[DisplayIndex(order, n, currentMove)].jump == None;
  }

  /** Toggling the order reorders the entries without changing any of them:
      position `m` of the toggled list holds the entry at position
      `DisplayIndex(Desc, n, m)` of the other; toggling twice restores the list. */
  lemma ToggleReorders(history: seq<Board>, currentMove: nat, order: Order)
    ensures var n := |history|;
      var before, after := Moves(history, currentMove, order), Moves(history, currentMove, Toggled(order));
      && |after| == |before| == n
      && (forall m :: 0 <= m < n ==> after[m] == before[DisplayIndex(Desc, n, m)])
      && Moves(history, currentMove, Toggled(Toggled(order))) == before
  {
    var n := |history|;
    forall m | 0 <= m < n
      ensures Moves(history, currentMove, Toggled(order))[m] == Moves(history, currentMove, order)[DisplayIndex(Desc, n, m)]
    {
      DisplayIndexInvolution(Desc, n, m);
    }
  }
}
