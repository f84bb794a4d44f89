/** The cell as its count evidently means it to behave: the count equals the
    number of flags set. Two places in Sudoku/Board.cs break that: the empty
    constructor flags only candidate 0 while counting nine, and `MarkInvalid`
    counts an elimination even when the flag was already clear. This module
    gives the corrected definitions and proves the count stays honest under
    them, from both constructors and through any series of `SetValue` and
    `MarkInvalid` calls; the board model keeps the cell as written. */
module Intended {
  import opened Outcomes
  import opened Cells
  import opened Boards
  import opened Rules
  import opened Placement

  /** The count is the number of candidates flagged. */
  ghost predicate Consistent(c: Cell) {
    c.Wf() && c.validCount == NumValid(c.valid)
  }

  /** `new Cell()` with the loop writing slot i: every digit a candidate. */
  function NewEmptyCell(): (c: Cell)
    ensures Consistent(c)
    ensures !c.HasValue() && forall u: Digit :: c.IsValid(u)
  {
    var flags := seq(Size, _ => true);
    NumValidAllSet(flags);
    Cell(NoValue, flags, Size)
  }

  /** All flags set, all counted. */
  lemma {:induction false} NumValidAllSet(flags: seq<bool>)
    requires forall i :: 0 <= i < |flags| ==> flags[i]
    ensures NumValid(flags) == |flags|
  {
    if flags != [] {
      NumValidAllSet(flags[1..]);
    }
  }

  /** Exactly one flag set, one counted. */
  lemma {:induction false} NumValidSingle(flags: seq<bool>, v: nat)
    requires v < |flags| && forall i :: 0 <= i < |flags| ==> (flags[i] <==> i == v)
    ensures NumValid(flags) == 1
  {
    if v == 0 {
      NumValidAllClear(flags[1..]);
    } else {
      NumValidSingle(flags[1..], v - 1);
    }
  }

  /** A cell fixed on one digit counts exactly its one flag. */
  lemma FixedIsConsistent(c: Cell, v: Digit)
    requires Fixed(c, v)
    ensures Consistent(c)
  {
    forall i | 0 <= i < |c.valid|
      ensures c.valid[i] <==> i == v
    {
      assert c.IsValid(i) <==> i == v;
    }
    NumValidSingle(c.valid, v);
  }

  /** `new Cell(v)` for a digit is consistent, as written. */
  lemma NewFixedCellConsistent(v: Digit)
    ensures Consistent(NewCell(v))
  {
    FixedIsConsistent(NewCell(v), v);
  }

  /** `Cell.SetValue` leaves a consistent cell, as written, whatever it
      replaced. */
  lemma SetValueConsistent(c: Cell, v: Digit)
    ensures Consistent(Cells.SetValue(c, v))
  {
    FixedIsConsistent(Cells.SetValue(c, v), v);
  }

  /** `Cell.MarkInvalid` that only counts an elimination that removes a
      candidate; a digit already ruled out leaves the cell alone. */
  function MarkInvalid(c: Cell, v: Digit): (r: Outcome<Cell>)
    requires c.Wf()
    ensures r.State().Wf() && !r.State().IsValid(v)
    ensures forall u: Digit :: u != v ==> r.State().IsValid(u) == c.IsValid(u)
    ensures Consistent(c) ==> Consistent(r.State())
    ensures !c.IsValid(v) ==> r == Done(c)
  {
    if !c.valid[v] then
      assert c.valid[v := false] == c.valid;
      Done(c)
    else
      NumValidClear(c.valid, v);
      Cells.MarkInvalid(c, v)
  }

  /** With the correction a repeated elimination is a no-op. */
  lemma MarkInvalidIdempotent(c: Cell, v: Digit)
    requires c.Wf() && MarkInvalid(c, v).Done?
    ensures MarkInvalid(MarkInvalid(c, v).value, v) == MarkInvalid(c, v)
  {
  }

  /** With both corrections, an elimination on a consistent cell with two
      candidates brings the count to one exactly when it removes one of them,
      and a cell it brings to one holds its last candidate as its value. */
  lemma CollapseHoldsLastCandidate(c: Cell, v: Digit)
    requires Consistent(c) && c.validCount == 2
    ensures MarkInvalid(c, v).Done?
    ensures MarkInvalid(c, v).value.validCount == 1 <==> c.IsValid(v)
    ensures var d := MarkInvalid(c, v).value; d.validCount == 1 ==> 0 <= d.value < Size && Fixed(d, d.value)
  {
    if c.IsValid(v) {
      CollapseIsUniqueCandidate(c, v);
    }
  }

  /** As written, the same cell with `v` already ruled out collapses anyway:
      the count says one while both candidates are still flagged. */
  lemma AsWrittenCollapseKeepsTwoFlags(c: Cell, v: Digit)
    requires Consistent(c) && c.validCount == 2 && !c.IsValid(v)
    ensures Cells.MarkInvalid(c, v).Done?
    ensures Cells.MarkInvalid(c, v).value.validCount == 1
    ensures NumValid(Cells.MarkInvalid(c, v).value.valid) == 2
  {
    assert Cells.MarkInvalid(c, v).value.valid == c.valid;
  }

  /** A call on a cell: `SetValue(v)` or `MarkInvalid(v)`. */
  datatype CellCall = Place(v: Digit) | Eliminate(v: Digit)

  /** A cell put through a series of calls with the corrected elimination,
      stopping at the first exception. */
  function Run(c: Cell, calls: seq<CellCall>): (r: Outcome<Cell>)
    requires c.Wf()
    ensures r.State().Wf()
    decreases |calls|
  {
    if calls == [] then Done(c)
    else
      match calls[0]
      case Place(v) => Run(Cells.SetValue(c, v), calls[1..])
      case Eliminate(v) =>
        match MarkInvalid(c, v)
        case Thrown(f, s) => Thrown(f, s)
        case Done(d) => Run(d, calls[1..])
  }

  /** Every call keeps the count honest, so any series of them does, even
      one that ends in an exception. */
  lemma {:induction false} RunKeepsCount(c: Cell, calls: seq<CellCall>)
    requires Consistent(c)
    ensures Consistent(Run(c, calls).State())
    decreases |calls|
  {
    if calls != [] {
      match calls[0]
      case Place(v) =>
        SetValueConsistent(c, v);
        RunKeepsCount(Cells.SetValue(c, v), calls[1..]);
      case Eliminate(v) =>
        match MarkInvalid(c, v)
        case Thrown(_, _) =>
        case Done(d) => RunKeepsCount(d, calls[1..]);
    }
  }

  /** With both corrections, the count equals the number of set flags over a
      cell's whole life: from either constructor, through any series of
      calls. */
  lemma CorrectedCellStaysConsistent(calls: seq<CellCall>, v: Digit)
    ensures Consistent(Run(NewEmptyCell(), calls).State())
    ensures Consistent(Run(NewCell(v), calls).State())
  {
    RunKeepsCount(NewEmptyCell(), calls);
    NewFixedCellConsistent(v);
    RunKeepsCount(NewCell(v), calls);
  }

  /** The reachable instance of the counting slip: `new Cell(3)` then
      `MarkInvalid(5)` throws although 3 is still a candidate, where the
      corrected elimination leaves the cell as it was. */
  lemma AsWrittenFixedCellThrows()
    ensures Cells.MarkInvalid(NewCell(3), 5).Thrown?
    ensures Cells.MarkInvalid(NewCell(3), 5).state.IsValid(3)
    ensures MarkInvalid(NewCell(3), 5) == Done(NewCell(3))
  {
  }

  /** As written, `new Cell()` is not consistent. */
  lemma AsWrittenEmptyCellInconsistent()
    ensures !Consistent(NewCell(NoValue))
  {
    EmptyCellCountDisagrees();
  }

  /** As written, eliminating a digit that is no longer a candidate makes a
      consistent cell inconsistent: the flags stay, the count drops. */
  lemma AsWrittenMarkInvalidBreaksCount(c: Cell, v: Digit)
    requires Consistent(c) && !c.IsValid(v)
    ensures !Consistent(Cells.MarkInvalid(c, v).State())
  {
    assert Cells.MarkInvalid(c, v).State().valid == c.valid;
  }

  /** The same slip on the board: a consistent peer in the placed cell's row
      and box (or column and box) that still had `v` as a candidate is
      visited by two rules and loses two from its count for one candidate. */
  lemma AsWrittenPlacementMiscountsDoublePeer(b: Board, o: Coord, v: Digit, rules: seq<Rule>, p: Coord)
    requires b.Wf() && AllUnits(rules) && Consistent(b.At(p)) && b.At(p).IsValid(v)
    requires Multiplicity(o, p) == 2
    requires Placement.SetValue(b, o, v, rules).Done?
    ensures !Consistent(Placement.SetValue(b, o, v, rules).value.At(p))
  {
    StandardSetValueEffect(b, o, v, rules, p);
    DoubleEliminationMiscounts(b.At(p), Placement.SetValue(b, o, v, rules).value.At(p), v);
  }

  /** Two eliminations of a digit that was a candidate remove one flag but
      two from the count. */
  lemma DoubleEliminationMiscounts(before: Cell, after: Cell, v: Digit)
    requires Consistent(before) && before.IsValid(v) && Eliminated(before, after, v, 2)
    ensures !Consistent(after)
  {
    assert after.valid == before.valid[v := false] by {
      forall u: Digit
        ensures after.valid[u] == before.valid[v := false][u]
      {
        assert after.IsValid(u) == (before.IsValid(u) && u != v);
      }
    }
    NumValidClear(before.valid, v);
  }
}
