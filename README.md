# Triqui (tic-tac-toe) game rules and move history, modelled in Dafny

The original is a React component for 3×3 tic-tac-toe ("Triqui"). This model
covers its logic:

- the winner of a board;
- when a click on a square is accepted and what board it produces;
- whose turn it is, and the status line;
- the `Game` state (`history`, `currentMove`, `currentOrder`) with its
  handlers `handlePlay`, `jumpTo` and `toggleOrder`;
- the move list built from the history, in ascending or descending order,
  with a description and a jump action for each entry.

Squares are a closed datatype `Empty | X | O`. The source's `null` and `""`
are both falsy and both count as `Empty`. Boards are immutable 9-element
sequences in row-major order (square (row, col) is at `row * 3 + col`). The
source copies the array with `slice` and then sets one element. The copy is
never changed afterwards, so a sequence update models it exactly: the
snapshot already in the history is never touched.

Modules:

- `Rules` (rules.dfy): squares, boards, the eight winning lines in scan order,
  `Winner` (the specification of `calculateWinner`), the loop method
  `CalculateWinner`, whose turn it is, and the status line.
- `Decimal` (decimal.dfy): how `${n}` writes a move number, and reading it back.
- `Timeline` (timeline.dfy): `IsPlayHistory`, the invariant a history built by
  legal play satisfies. Also the truncate-and-append step `Play` and what
  follows for every snapshot: mark counts, at most ten snapshots, and a
  single winning mark.
- `MoveList` (movelist.dfy): the display order, the descriptions and the list entries.
- `GameState` (game.dfy): class `Game` with the three state fields and the
  handlers. `HandleClick` is the board's click handler wired to
  `HandlePlay`, as `Board` receives it through `onPlay`. It ends with
  `TopRowThenTimeTravel`, a client that only uses the contracts: X wins on
  the top row, a further click is ignored, then a jump to move 2 and a new
  move cut the history to four snapshots.

The model follows what the code does, not what its comments claim:

- The code has no draw status.
- `calculateWinner` returns only the mark, not the winning line.
- The move labels carry no (row, col) location, although the file's header
  comments claim all three features.
- In descending order the code keeps move 0's entry first and lists
  positions `m > 0` as move `length - m`. That is move 0 followed by the
  other moves latest first, not a full reversal. `DisplayIndexOrder` proves
  exactly this, and `DisplayIndexIsPermutation` proves that every move is
  still listed once.

## Model

| member | source | states |
|---|---|---|
| `Rules.CalculateWinner` | src/App.tsx:69-89 | The indexed scan with its early return gives exactly the result of `Winner`; a winner is never `Empty` |
| `Rules.WinnerFrom` | src/App.tsx:81-86 | The mark found by scanning from any line onwards is never `Empty` (a winner is a real mark) |
| `Rules.WinnerIsFirstWonLine` | src/App.tsx:81-86 | On any board, the winner is `p` exactly when the first won line in scan order (rows, columns, diagonals) is `p`'s |
| `Rules.WinnerNoneIff` | src/App.tsx:81-88 | The result is `null` exactly when no line of the eight holds three equal marks |
| `Rules.WinnerWhenOneMarkWins` | src/App.tsx:70-88 | If every won line carries `p`, the winner is `p` exactly when some line holds three `p`s |
| `Rules.PlayerMark` | src/App.tsx:38 | The placed mark is never empty, and it is X exactly when `xIsNext` |
| `Rules.Turn` | src/App.tsx:95 | The mover's mark is X exactly when the move number is even, O otherwise |
| `Rules.StatusMeaning` | src/App.tsx:42-45 | The status starts with "Winner: " exactly when there is a winner, and with "Next player:  " (two spaces) otherwise. Its last character names the winner or the mover. Equal status lines mean the same winner, and with no winner the same mover |
| `Decimal.NatToString` | src/App.tsx:120-122 | A move number is written as a non-empty string of decimal digits with no leading zero |
| `Decimal.ReadNatToString` | src/App.tsx:120-122 | The written number reads back as the number |
| `Decimal.LeadingDigitPositive` | src/App.tsx:120-122 | A digit string that does not start with '0' stands for a number above 0 |
| `Decimal.WriteDigitsValue` | src/App.tsx:120-122 | A digit string without leading zeros is exactly how its value is written, so reading and writing are inverse both ways |
| `Decimal.NatToStringInjective` | src/App.tsx:120-122 | Different move numbers are written differently |
| `Timeline.Play` | src/App.tsx:99 | The new history has `currentMove + 2` entries: the old entries up to `currentMove`, unchanged, then the new board |
| `Timeline.PlayKeepsPlayHistory` | src/App.tsx:98-102 | Suppose the current board has no winner and the next board adds the mover's mark on one empty square. Then, after truncating and appending, the history still starts from the empty board, each snapshot adds exactly one mark of the player whose turn it was, and only the last snapshot may have a winner |
| `Timeline.PrefixIsPlayHistory` | src/App.tsx:99 | Cutting a legal history after any move leaves a legal history |
| `Timeline.EmptyBoardCounts` | src/App.tsx:92 | The starting board has nine empty squares and no marks |
| `Timeline.PlacedCounts` | src/App.tsx:37-38 | Placing a mark on an empty square adds one of that mark, removes one empty square, and leaves the other mark's count alone |
| `Timeline.CountsStep` | src/App.tsx:37-38 | One move by the player whose turn it is at move `i - 1` turns the mark counts for `i - 1` moves into those for `i` moves |
| `Timeline.MarkCounts` | src/App.tsx:91-102 | After `i` moves of legal play, X has (i+1)/2 marks, O has i/2, and 9-i squares are empty |
| `Timeline.PlayHistoryAtMostTen` | src/App.tsx:91-102 | A legal history never holds more than ten snapshots |
| `Timeline.NewLinesCarryMark` | src/App.tsx:34-38 | A mark placed on a board without a winner can only complete lines of that mark |
| `Timeline.PlayedBoardWinner` | src/App.tsx:69-89 | On every snapshot of a legal history, the winner is `p` exactly when some line holds three `p`s |
| `MoveList.Toggled` | src/App.tsx:107-111 | Toggling always changes the order |
| `MoveList.ToggledTwice` | src/App.tsx:107-111 | Toggling twice restores the order |
| `MoveList.DisplayIndex` | src/App.tsx:114-117 | The displayed move index stays inside the history, and it is 0 exactly at position 0 |
| `MoveList.DisplayIndexInvolution` | src/App.tsx:114-117 | The position-to-move mapping is its own inverse in either order |
| `MoveList.DisplayIndexOrder` | src/App.tsx:114-117 | Ascending lists moves in increasing order. Descending lists move 0 first, then the other moves in decreasing order |
| `MoveList.DisplayIndexIsPermutation` | src/App.tsx:113-117 | In either order the displayed indices are a permutation of `0..length-1`: every move at exactly one position (move `k` at position `DisplayIndex(k)`), with 0 first |
| `MoveList.ReadDescriptionOf` | src/App.tsx:118-123 | Each description reads back, with a reader that accepts only "Go to game start", "Go to move #" plus a number above 0, or "You are at move #" plus a number, with no leading zeros, as its own move, marked current exactly when it is the current move |
| `MoveList.DescriptionIsOnlyReading` | src/App.tsx:118-123 | A text reads as move `i`'s entry exactly when it is move `i`'s description. So the current move reads "You are at move #i", move 0 otherwise reads "Go to game start", and any other move reads "Go to move #i" |
| `MoveList.DescriptionsDistinct` | src/App.tsx:118-123 | Entries for different moves have different descriptions |
| `MoveList.MovesEntries` | src/App.tsx:113-134 | There is one entry per snapshot, and every move appears exactly once, move 0 first. An entry is plain text exactly when its key is the current move; every other entry jumps to its own key. Each description reads back as its key and whether it is current |
| `MoveList.OneCurrentEntry` | src/App.tsx:126-131 | When the current move is in the history, exactly one entry is plain text |
| `MoveList.ToggleReorders` | src/App.tsx:107-117 | Toggling only reorders the entries: each position of the toggled list holds an unchanged entry of the other list. Toggling twice restores the list |
| `GameState.Game.constructor` | src/App.tsx:92-94 | The game starts with only the empty board, move 0 and ascending order; this history satisfies the legal-play invariant |
| `GameState.Game.HandlePlay` | src/App.tsx:98-102 | The history becomes the old entries up to `currentMove` followed by the new board. `currentMove` becomes the new length - 1 (the old value plus 1). The order is unchanged. The legal-play invariant is kept when the board is a legal move |
| `GameState.Game.JumpTo` | src/App.tsx:104-106 | Only the pointer changes; the history keeps its later entries, so a later jump forward still reaches them |
| `GameState.Game.ToggleOrder` | src/App.tsx:107-111 | Only the order changes, to the other order |
| `GameState.Game.HandleClick` | src/App.tsx:33-40 | A click on a taken square, or on a board with a winner, leaves history and pointer unchanged. Otherwise the new current board equals the old one except at `idx`, which now holds X on even moves and O on odd ones. The old snapshot stays in the history unchanged, and the legal-play invariant is kept |
| `GameState.Game.StatusLine` | src/App.tsx:42-45 | The status of the shown board starts with "Winner: " exactly when that board has a winner |
| `GameState.Game.MoveEntries` | src/App.tsx:113-134 | The list has one entry per snapshot, and an entry is plain text exactly when it is the current move |
| `GameState.JumpThenClick` | src/App.tsx:98-106 | A jump back to move `k` followed by a legal click leaves `k + 2` snapshots. The first `k + 1` are unchanged and the last is snapshot `k` plus the mover's mark |

## Left out

- Rendering (the `Square` and `Board` markup, the row and column loops that lay out the buttons, the CSS import): presentation only. Its one fact, square index `row * 3 + col`, is the board's indexing.
- React's `useState` hooks and batched updates: the three pieces of state are plain fields of class `Game`, and each handler updates them at once.
- Draw detection, highlighting of the winning squares and (row, col) labels: the code does not implement them.
- Out-of-range square indices and `jumpTo` targets: the buttons only ever supply valid ones, so they are preconditions (`idx < 9`, `nextMove < |history|`).
- `GameState.Game.HandlePlay`: it accepts any board, as the source does, so it promises the legal-play invariant only when the board is a legal move from the current one. Its only caller, `HandleClick`, always passes such a board.
- `Rules.WinnerWhenOneMarkWins`: on an arbitrary board where both marks complete a line, the winner is the mark of the first line in scan order (`Rules.WinnerIsFirstWonLine`), not "the" player with a line. The unconditional "winner is `p` exactly when `p` has a line" holds only on boards reached by play (`Timeline.PlayedBoardWinner`).
