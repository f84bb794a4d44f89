# Sudoku cell, board and rules — a Dafny model

This project models the constraint core of a small Sudoku program. It covers
three parts:

- the `Cell` class, which tracks a value and nine candidate flags, with a
  candidate count kept separately;
- the `Board` class, a 9×9 grid of cells, and the rule classes, which remove
  a placed digit from the rest of its row, column and 3×3 box;
- the puzzle-text converter `board_to_coords.py`, which turns nine text
  lines into 1-based `row col value` triples.

The model follows the code as written. Three of its behaviours shape every
result below:

- `Board.MarkInvalid` forwards to one cell and nothing else. A peer that
  collapses to one candidate does not set off further eliminations. No
  fixpoint is computed anywhere.
- `Cell.MarkInvalid` always clears the flag and always decrements the
  count. This happens even when the digit was already ruled out and even
  when the cell is fixed. A fixed cell therefore throws on any elimination.
- `new Cell()` flags only candidate 0 but counts nine. The constructor's
  loop writes slot 0 on every pass.

Modules:

- `Outcomes`: `Outcome<T> = Done(value) | Thrown(fault, state)`. C#
  exceptions leave behind whatever was already written, so `Thrown` carries
  that partial state.
- `Cells`: the cell and its operations. `Eliminated(before, after, v, k)`
  describes exactly what `k` successful eliminations of `v` do to a cell.
- `Boards`: the grid, `MarkInvalid`, and `MarkAll`. `MarkAll` is the loop
  every rule runs: `MarkInvalid` on a list of coordinates in order, stopping
  at the first exception.
- `Rules`: the closed rule set `Base | ColumnInvalidate | RowInvalidate |
  BoxInvalidate`, with the coordinates each rule visits, in visiting order.
- `Placement`: `Board.SetValue`. Its central results are
  `StandardSetValueDoneIff` and `StandardSetValueEffect`. Take a placement
  under the row, column and box rules, each once, in any order
  (`AllUnits`). `Board.SetValue` accepts any sequence of rules, and no order
  is fixed anywhere, so none is assumed. It completes exactly when every peer
  counts more candidates than the number of rules that visit it. A peer in
  the same row and box is visited twice. When the placement completes, any
  given cell other than the placed one has gone through exactly as many
  eliminations as rules visit it, so a cell outside the row, column and box
  is unchanged.
- `BoardToCoords`: the pure part of the converter, which is parsing and
  triple emission, with the rebuild round trip.
- `Intended`: corrected versions of the two cell defects listed under
  Findings. It also proves that the count equals the number of set flags
  over a cell's whole life under the corrected versions: from either
  constructor, through any series of `SetValue` and `MarkInvalid` calls. It
  shows that the code as written breaks this.

The read accessors `IsValid`, `HasValue` and `GetValue` are pure functions
of the board (`Boards.Board`). In this model, reading cannot change
anything.

## Model

| member | source | states |
|---|---|---|
| Cells.NewCell | Sudoku/Board.cs:14-40 | `new Cell(v)` for a digit gives a fixed cell: value v, count 1, and only v flagged. `new Cell()` has no value and count 9, but flags only candidate 0. |
| Cells.EmptyCellCountDisagrees | Sudoku/Board.cs:19-27 | after `new Cell()` the count says 9 while exactly one flag is set |
| Cells.SetValue | Sudoku/Board.cs:65-76 | after `SetValue(v)` the cell holds v, counts 1, and flags exactly v, whatever its prior state |
| Cells.SetValueForgetsPriorState | Sudoku/Board.cs:65-76 | `SetValue(v)` on any cell gives the same cell as `new Cell(v)` |
| Cells.Cell.IsValid | Sudoku/Board.cs:78 | reads flag v; changes nothing |
| Cells.Cell.HasValue | Sudoku/Board.cs:80 | the cell holds a value exactly when its value is not the sentinel; changes nothing |
| Cells.MarkInvalid | Sudoku/Board.cs:42-63 | Clears flag v and no other, and lowers the count by exactly one. Throws exactly when the count was at most 1, with flag and count already written. On a count of 1 the value becomes the lowest set flag, or none. Otherwise the value is unchanged. |
| Cells.FirstValidFrom | Sudoku/Board.cs:49-55 | the collapse scan returns the lowest set flag at or after the start, or the sentinel when none is set |
| Cells.MarkInvalidNotIdempotent | Sudoku/Board.cs:44-45 | a second elimination of the same digit leaves the flags alone but lowers the count again |
| Cells.CollapseIsUniqueCandidate | Sudoku/Board.cs:47-57 | if the count matched the flags and v was a candidate, a collapse fixes the cell on its single remaining candidate |
| Cells.CollapseWithoutFlagHasNoValue | Sudoku/Board.cs:47-57 | a collapse with no flag left set leaves count 1 and no value |
| Cells.EliminatedTrans | Sudoku/Board.cs:42-63 | j eliminations followed by k eliminations amount to j + k eliminations |
| Boards.MarkInvalid | Sudoku/Board.cs:105-108 | only cell (r, c) changes: it becomes what `Cell.MarkInvalid` makes of it. The call throws exactly when that cell's count was at most 1. |
| Boards.MarkAll | Sudoku/Rules.cs:21-26 | the loop each rule runs (also Rules.cs:34-39 and 51-62): `MarkInvalid` on each coordinate in turn, the first throw ends it, and the board stays a 9×9 grid of cells either way; its effect is stated by the four `MarkAll…` rows below |
| Boards.Board.IsValid | Sudoku/Board.cs:110-113 | reads candidate v of the cell at p; a pure function of the board, so reading changes nothing |
| Boards.Board.HasValue | Sudoku/Board.cs:115-118 | reads whether the cell at p holds a value; changes nothing |
| Boards.Board.GetValue | Sudoku/Board.cs:120-123 | reads the value of the cell at p, which is a digit or the no-value sentinel; changes nothing |
| Boards.MarkAllFrame | Sudoku/Rules.cs:21-26 | a cell a rule does not visit is the same afterwards, even if the rule threw |
| Boards.MarkAllDoneIff | Sudoku/Rules.cs:21-26 | a rule's loop completes exactly when every visited cell counts more candidates than the number of times it is visited |
| Boards.MarkAllEffect | Sudoku/Rules.cs:21-26 | when the loop completes, each cell has gone through one elimination per visit |
| Boards.MarkAllAppend | Sudoku/Board.cs:99-102 | running the loop on two lists one after the other equals running it on their concatenation |
| Rules.ColumnPeers | Sudoku/Rules.cs:21-26 | visits (r, col) for every r other than row, with r increasing: 8 cells |
| Rules.RowPeers | Sudoku/Rules.cs:34-39 | visits (row, c) for every c other than col, with c increasing: 8 cells |
| Rules.BoxPeers | Sudoku/Rules.cs:47-61 | visits the 8 cells of the origin's 3×3 box other than the origin, in row-major order; every coordinate lies in 0..8 |
| Rules.BoxCell | Sudoku/Rules.cs:48-56 | step `off` of the nested loops is (row/3·3 + off/3, col/3·3 + off%3) and lies in the origin's box |
| Rules.Execute | Sudoku/Rules.cs:11-14 | the base rule throws `NotImplemented` and leaves the board as it was; no rule touches the origin cell |
| Placement.ExecuteAll | Sudoku/Board.cs:99-102 | running the rules in order never changes the origin cell, whether the run completes or throws |
| Placement.SetValue | Sudoku/Board.cs:96-103 | the placed cell holds v as its only candidate, and `GetValue`/`HasValue` read it back, whether the call returns or throws |
| Placement.ExecuteAllIsMarkAll | Sudoku/Board.cs:99-102 | running rules other than the base rule equals one `MarkAll` over every coordinate they visit, in order |
| Placement.BaseRuleThrows | Sudoku/Rules.cs:11-14 | a rule list that contains the base rule never completes |
| Placement.StandardPeersCount | Sudoku/Rules.cs:19-63 | the row, column and box rules, in any order, together visit a cell once per unit it shares with the origin, and never visit the origin |
| Placement.AllPeersCount | Sudoku/Rules.cs:19-63 | any rule list without the base rule visits a cell once for each row rule if it is elsewhere in the origin's row, and likewise for each column rule and each box rule |
| Placement.AllUnitsNoBase | Sudoku/Board.cs:96-103 | a list holding the row, column and box rules once each, in any order, holds no base rule |
| Placement.PlacementIsMarkAll | Sudoku/Board.cs:96-103 | a placement under rules without the base one equals fixing the cell and then one `MarkAll` over every coordinate the rules visit |
| Placement.StandardSetValueDoneIff | Sudoku/Board.cs:96-103 | a placement under the row, column and box rules, in any order, completes exactly when every peer counts more candidates than the number of rules that visit it |
| Placement.StandardSetValueEffect | Sudoku/Board.cs:96-103 | when a placement under the row, column and box rules completes, in any order, any given cell other than the origin has gone through one elimination of v per rule that visits it (none for a cell outside the row, column and box) |
| Placement.RoomyBoardTakesPlacement | Sudoku/Board.cs:96-103 | a placement under the row, column and box rules, in any order, always completes on a board where every cell counts at least three candidates |
| Placement.PlacementEliminatesFromPeers | Sudoku/Rules.cs:19-63 | After a completed placement under the row, column and box rules, in any order, v is no longer a candidate in any peer. Cells outside the row, column and box are unchanged, and the origin reads back v. |
| Placement.PeerWithOneCandidateThrows | Sudoku/Board.cs:59-62 | a placement under the row, column and box rules, in any order, throws if any peer already counts only one candidate |
| Placement.SecondPlacementAmongPeersThrows | Sudoku/Rules.cs:36-38 | after one placement completes, a second placement into any of its peers throws, whatever the two digits and whatever order each placement runs the three rules in |
| Placement.FirstPlacementOnEmptyBoard | Sudoku/Board.cs:19-27 | Placing 0 at (0,0) on a board of `new Cell()`s, with the three rules in any order, completes. It clears 0 from (0,5), (5,0) and (1,1), leaves 0 at (5,5), and (5,5) never had 3 as a candidate. |
| Placement.Placed | Sudoku/Board.cs:98 | the first statement of `Board.SetValue`: the placed cell is fixed on v, and every other cell is as it was |
| BoardToCoords.DigitOf | Sudoku/tools/board_to_coords.py:10-11 | '1'..'9' map to the digit they spell; every other character, '0' included, maps to 0 |
| BoardToCoords.ParseLine | Sudoku/tools/board_to_coords.py:6-11 | a line of at least 9 characters gives 9 entries in 0..9 from positions 0..8; a shorter line fails with an index error |
| BoardToCoords.ParseLineIgnoresTail | Sudoku/tools/board_to_coords.py:8-9 | characters after position 8 do not affect the row |
| BoardToCoords.ParseRows | Sudoku/tools/board_to_coords.py:4-12 | the read loop from row k on: succeeds exactly when lines k..8 exist and each has at least 9 characters, giving those rows in order; otherwise the first failure in reading order |
| BoardToCoords.ParseBoard | Sudoku/tools/board_to_coords.py:4-12 | Succeeds exactly when there are 9 lines, each of at least 9 characters. The result is then a 9×9 grid of the characters' digits. Otherwise it reports the first failure in reading order: end of input when fewer than 9 lines come and all of them are long enough; an index error when some line among the first 9 is short and every line before it is long enough. |
| BoardToCoords.EmitRow | Sudoku/tools/board_to_coords.py:15-17 | the inner loop over one row from column c on, one triple per positive entry; what it emits is stated by the three `EmitRow…` rows below |
| BoardToCoords.EmitRowSound | Sudoku/tools/board_to_coords.py:15-17 | every triple the inner loop prints reports a positive entry of its row, at the starting column or later |
| BoardToCoords.EmitRowComplete | Sudoku/tools/board_to_coords.py:15-17 | every positive entry of the row at the starting column or later is printed |
| BoardToCoords.EmitRowOrdered | Sudoku/tools/board_to_coords.py:15-17 | the inner loop prints in increasing column order |
| BoardToCoords.EmitRows | Sudoku/tools/board_to_coords.py:14-17 | the outer loop from row i on; what it emits is stated by the three `EmitRows…` rows below |
| BoardToCoords.EmitRowsSound | Sudoku/tools/board_to_coords.py:14-17 | every triple the loops print from row i on reports a positive entry of a later row |
| BoardToCoords.EmitRowsComplete | Sudoku/tools/board_to_coords.py:14-17 | every positive entry after row i is printed |
| BoardToCoords.EmitRowsInOrder | Sudoku/tools/board_to_coords.py:14-17 | the loops print in row-major order |
| BoardToCoords.Triples | Sudoku/tools/board_to_coords.py:14-17 | Every triple has 1-based row and column in 1..9 and carries that cell's positive entry unchanged. Every positive entry has a triple. The order is row-major, so each cell is reported at most once. |
| BoardToCoords.RebuildTriples | Sudoku/tools/board_to_coords.py:14-17 | rebuilding a 9×9 grid from the triples, with zeros elsewhere, returns the original grid |
| BoardToCoords.ParsedBoardRoundTrip | Sudoku/tools/board_to_coords.py:4-17 | for a parsed board, every triple's value is in 1..9 and the triples rebuild the parsed grid |
| Intended.NewEmptyCell | Sudoku/Board.cs:21-24 | the corrected empty cell has every digit as a candidate, and its count matches its flags |
| Intended.MarkInvalid | Sudoku/Board.cs:42-46 | the corrected elimination keeps the count equal to the number of set flags; eliminating a digit already ruled out changes nothing |
| Intended.MarkInvalidIdempotent | Sudoku/Board.cs:42-46 | with the correction, eliminating the same digit twice gives the same cell as eliminating it once |
| Intended.CollapseHoldsLastCandidate | Sudoku/Board.cs:42-57 | with the corrections, an elimination on a consistent two-candidate cell reaches count 1 exactly when it removes one of the two, and a cell it brings to count 1 is fixed on its last candidate |
| Intended.AsWrittenCollapseKeepsTwoFlags | Sudoku/Board.cs:44-57 | as written, eliminating a ruled-out digit from a consistent two-candidate cell collapses it to count 1 while two flags stay set |
| Intended.FixedIsConsistent | Sudoku/Board.cs:28-37 | a cell fixed on one digit has its count equal to its number of set flags |
| Intended.NewFixedCellConsistent | Sudoku/Board.cs:28-37 | `new Cell(v)` for a digit has its count equal to its number of set flags |
| Intended.SetValueConsistent | Sudoku/Board.cs:65-76 | after `SetValue(v)` the count equals the number of set flags, whatever the cell held before |
| Intended.RunKeepsCount | Sudoku/Board.cs:42-76 | from a consistent cell, any series of `SetValue` and corrected `MarkInvalid` calls ends in a consistent cell, including when it ends in an exception |
| Intended.CorrectedCellStaysConsistent | Sudoku/Board.cs:14-76 | with both corrections, a cell built by either constructor stays consistent through any series of calls |
| Intended.AsWrittenFixedCellThrows | Sudoku/Board.cs:42-62 | as written, `new Cell(3)` then `MarkInvalid(5)` throws with 3 still a candidate; the corrected elimination returns the cell unchanged |
| Intended.AsWrittenEmptyCellInconsistent | Sudoku/Board.cs:19-27 | as written, `new Cell()` has a count that does not match its flags |
| Intended.AsWrittenMarkInvalidBreaksCount | Sudoku/Board.cs:44-45 | as written, eliminating a digit already ruled out makes a consistent cell inconsistent |
| Intended.AsWrittenPlacementMiscountsDoublePeer | Sudoku/Rules.cs:34-61 | as written, a placement under the row, column and box rules, in any order, leaves a consistent candidate-holding peer in the same row and box inconsistent: its count drops by 2 for one candidate |

## Left out

- Console rendering (`Sudoku/View.cs`): presentation that only reads the board.
- `MockBoard` and `Main` (`Sudoku/Program.cs`): they are driven by `System.Random` and only wire things together.
- The parameterless `Board()` constructor: it allocates a grid of null cells, and any call on that grid would throw a null reference exception. The model builds a board from a full 9×9 grid of cells instead.
- Out-of-range indices and digits: these are preconditions (the `Digit` type, and `NewCell`'s requires) rather than modelled `IndexOutOfRangeException`s. This includes `new Cell(v)` for v outside -1..8.
- Shared cells: `Board(Cell[,] cells)` (Sudoku/Board.cs:89-92) keeps the caller's array, so two slots, or a caller, could hold the same `Cell` object. The model's grid is 81 independent cell values. Every frame result ("other cells are unchanged") therefore assumes 81 distinct `Cell` objects that nothing outside the board mutates.
- Virtual dispatch: replaced by the closed `Rule` datatype. A subclass that overrides the board accessors is not modelled.
- `input()` and `print()` in the converter: the lines come in as a sequence of strings, and the triples go out as a sequence of `Triple` values. The `"{} {} {}"` text formatting is not modelled.

## Findings

| source | as written | input that shows it | evidently intended | confidence | as-written member | corrected member |
|---|---|---|---|---|---|---|
| Sudoku/Board.cs:21-24 | the loop assigns `_valid[0] = true` on every pass | `new Cell()` flags only 0 but counts 9 | assign `_valid[i] = true`, so all nine digits are candidates | high (not executed) | Intended.AsWrittenEmptyCellInconsistent | Intended.NewEmptyCell |
| Sudoku/Board.cs:44-45 | the count is decremented even when the flag was already clear | `new Cell(3)` then `MarkInvalid(5)`: the count falls to 0 and the call throws, though 3 is still a candidate (`Intended.AsWrittenFixedCellThrows`) | decrement only when a candidate is actually removed | medium (not executed) | Intended.AsWrittenMarkInvalidBreaksCount | Intended.MarkInvalid |

The board model keeps the cell as written, because its purpose is to
describe what the program does. The corrected definitions, and the
count-equals-flags invariant proved for them over a cell's whole life, are
in module `Intended`.
