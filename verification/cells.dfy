/** The `Cell` class of Sudoku/Board.cs: one square of the grid with its value
    (or the "no value" sentinel), a flag per candidate digit and a separately
    kept count of candidates. The count is NOT derived from the flags; the two
    can disagree, and the model keeps them apart exactly as the class does. */
module Cells {
  import opened Outcomes

  /** The value a cell stores when it has none. */
  const NoValue: int := -1

  /** Number of digits, and length of the candidate array. */
  const Size: int := 9

  /** A 0-based digit, row or column index. */
  type Digit = v: int | 0 <= v < Size

  datatype Cell = Cell(value: int, valid: seq<bool>, validCount: int)
  {
    /** Nine flags, and a value that is a digit or the sentinel. */
    ghost predicate Wf() {
      |valid| == Size && (value == NoValue || 0 <= value < Size)
    }

    predicate IsValid(v: Digit)
      requires Wf()
    {
      valid[v]
    }

    predicate HasValue() {
      value != NoValue
    }
  }

  /** A cell that holds `v` and has `v` as its only candidate. */
  ghost predicate Fixed(c: Cell, v: Digit) {
    && c.Wf()
    && c.HasValue() && c.value == v
    && c.validCount == 1
    && forall u: Digit :: c.IsValid(u) <==> u == v
  }

  /** Number of flags that are set. */
  function NumValid(flags: seq<bool>): (n: nat)
    ensures n <= |flags|
  {
    if flags == [] then 0
    else (if flags[0] then 1 else 0) + NumValid(flags[1..])
  }

  /** The scan `MarkInvalid` performs on a collapse: the lowest index at or
      after `from` whose flag is set, or the sentinel if there is none. */
  function FirstValidFrom(flags: seq<bool>, from: nat): (r: int)
    requires |flags| == Size && from <= Size
    ensures r == NoValue ==> forall u :: from <= u < Size ==> !flags[u]
    ensures r != NoValue ==> from <= r < Size && flags[r]
    ensures r != NoValue ==> forall u :: from <= u < r ==> !flags[u]
    decreases Size - from
  {
    if from == Size then NoValue
    else if flags[from] then from
    else FirstValidFrom(flags, from + 1)
  }

  function FirstValid(flags: seq<bool>): (r: int)
    requires |flags| == Size
    ensures r == NoValue || 0 <= r < Size
  {
    FirstValidFrom(flags, 0)
  }

  /** `new Cell(value)`, and `new Cell()` for `value == NoValue`. The array
      starts all false. In the empty case every pass of the constructor's
      loop writes slot 0 (not slot i), so only candidate 0 ends up set while
      the count says nine; in the valued case the loop clears slot 0 and then
      slot `value` is set. */
  function NewCell(value: int): (c: Cell)
    requires value == NoValue || 0 <= value < Size
    ensures c.Wf()
    ensures value == NoValue ==> !c.HasValue() && c.validCount == Size
    ensures value == NoValue ==> forall u: Digit :: c.IsValid(u) <==> u == 0
    ensures value != NoValue ==> Fixed(c, value)
  {
    var blank := seq(Size, _ => false);
    if value == NoValue then Cell(value, blank[0 := true], Size)
    else Cell(value, blank[0 := false][value := true], 1)
  }

  /** `Cell.SetValue`: forces `v` whatever the cell held before. */
  function SetValue(c: Cell, v: Digit): (r: Cell)
    ensures Fixed(r, v)
  {
    Cell(v, seq(Size, i => i == v), 1)
  }

  /** `Cell.MarkInvalid`: clears flag `v` and decrements the count, both
      unconditionally. A count of exactly one afterwards sets the value to the
      lowest flag still set (the sentinel if none is); a count below one
      throws, after flag and count have been written. */
  function MarkInvalid(c: Cell, v: Digit): (r: Outcome<Cell>)
    requires c.Wf()
    ensures r.State().Wf()
    ensures !r.State().IsValid(v)
    ensures forall u: Digit :: u != v ==> r.State().IsValid(u) == c.IsValid(u)
    ensures r.State().validCount == c.validCount - 1
    ensures r.Thrown? <==> c.validCount <= 1
    ensures r.Thrown? ==> r.fault == NoMoreValidValues
    ensures r.State().validCount == 1 ==> r.State().value == FirstValid(r.State().valid)
    ensures c.validCount != 2 ==> r.State().value == c.value
  {
    var flags := c.valid[v := false];
    var count := c.validCount - 1;
    if count == 1 then Done(Cell(FirstValid(flags), flags, count))
    else if count < 1 then Thrown(NoMoreValidValues, Cell(c.value, flags, count))
    else Done(Cell(c.value, flags, count))
  }

  /** `after` is what `k` successful eliminations of `v` make of `before`:
      none leave the cell as it was; one or more are described by `Reduced`. */
  ghost predicate Eliminated(before: Cell, after: Cell, v: Digit, k: nat) {
    if k == 0 then after == before else Reduced(before, after, v, k)
  }

  /** The effect of `k > 0` eliminations of `v`: flag `v` cleared and no
      other, the count down by `k` and still at least one, and the value
      replaced only if the count ended at one. */
  ghost predicate Reduced(before: Cell, after: Cell, v: Digit, k: nat) {
    && before.Wf() && after.Wf()
    && after.validCount == before.validCount - k
    && after.validCount >= 1
    && (forall u: Digit :: after.IsValid(u) == (before.IsValid(u) && u != v))
    && after.value == (if after.validCount == 1 then FirstValid(after.valid) else before.value)
  }

  /** At least one elimination of `v` leaves `v` flagged no more. */
  lemma EliminatedClears(before: Cell, after: Cell, v: Digit, k: nat)
    requires Eliminated(before, after, v, k) && k > 0
    ensures after.Wf() && !after.IsValid(v)
  {
  }

  /** One successful `MarkInvalid` is one elimination. */
  lemma MarkInvalidEliminates(c: Cell, v: Digit)
    requires c.Wf()
    ensures MarkInvalid(c, v).Done? ==> Eliminated(c, MarkInvalid(c, v).value, v, 1)
  {
  }

  /** Eliminations compose: `j` then `k` of them are `j + k`. */
  lemma EliminatedTrans(a: Cell, b: Cell, c: Cell, v: Digit, j: nat, k: nat)
    requires Eliminated(a, b, v, j) && Eliminated(b, c, v, k)
    ensures Eliminated(a, c, v, j + k)
  {
    if j > 0 && k > 0 {
      assert b.validCount >= 2;
      forall u: Digit
        ensures c.IsValid(u) == (a.IsValid(u) && u != v)
      {
        assert c.IsValid(u) == (b.IsValid(u) && u != v);
      }
    }
  }

  /** The prior state of a cell plays no part in `SetValue`: the result is the
      cell `new Cell(v)` would build. */
  lemma SetValueForgetsPriorState(c: Cell, v: Digit)
    ensures SetValue(c, v) == NewCell(v)
  {
    assert SetValue(c, v).valid == NewCell(v).valid;
  }

  /** The count is not the number of flags after `new Cell()`: it says nine
      while only candidate 0 is flagged. */
  lemma EmptyCellCountDisagrees()
    ensures NewCell(NoValue).validCount == Size
    ensures NumValid(NewCell(NoValue).valid) == 1
  {
    var flags := NewCell(NoValue).valid;
    NumValidAllClear(flags[1..]);
  }

  /** No set flag, no candidates counted. */
  lemma {:induction false} NumValidAllClear(flags: seq<bool>)
    requires forall i :: 0 <= i < |flags| ==> !flags[i]
    ensures NumValid(flags) == 0
  {
    if flags != [] {
      NumValidAllClear(flags[1..]);
    }
  }

  /** A second `MarkInvalid` of the same digit is not a no-op: the flags stay
      as they were but the count falls again. */
  lemma MarkInvalidNotIdempotent(c: Cell, v: Digit)
    requires c.Wf() && c.validCount >= 3
    ensures MarkInvalid(c, v).Done?
    ensures MarkInvalid(MarkInvalid(c, v).value, v).Done?
    ensures MarkInvalid(MarkInvalid(c, v).value, v).value.valid == MarkInvalid(c, v).value.valid
    ensures MarkInvalid(MarkInvalid(c, v).value, v).value.validCount == c.validCount - 2
  {
  }

  /** A collapse with no flag left set (reachable from `new Cell()`, whose
      count overstates its flags) leaves the cell without a value although
      its count is one. */
  lemma CollapseWithoutFlagHasNoValue(c: Cell, v: Digit)
    requires c.Wf() && c.validCount == 2
    requires forall u: Digit :: u != v ==> !c.IsValid(u)
    ensures MarkInvalid(c, v).Done?
    ensures MarkInvalid(c, v).value.validCount == 1 && !MarkInvalid(c, v).value.HasValue()
  {
    var flags := c.valid[v := false];
    forall u | 0 <= u < Size
      ensures !flags[u]
    {
      if u != v {
        assert !c.IsValid(u);
      }
    }
  }

  /** Clearing a set flag removes exactly one from the number of set flags. */
  lemma {:induction false} NumValidClear(flags: seq<bool>, v: nat)
    requires v < |flags| && flags[v]
    ensures NumValid(flags[v := false]) == NumValid(flags) - 1
  {
    if v == 0 {
      assert flags[v := false][1..] == flags[1..];
    } else {
      assert flags[v := false][1..] == flags[1..][v - 1 := false];
      NumValidClear(flags[1..], v - 1);
    }
  }

  /** With exactly one flag set, every set flag is that one. */
  lemma {:induction false} NumValidOne(flags: seq<bool>, i: nat, j: nat)
    requires i < |flags| && j < |flags| && flags[i] && flags[j]
    requires NumValid(flags) == 1
    ensures i == j
  {
    if i != 0 && j != 0 {
      if flags[0] {
        NumValidPositive(flags[1..], i - 1);
      } else {
        NumValidOne(flags[1..], i - 1, j - 1);
      }
    } else if i == 0 && j != 0 {
      assert flags[1..][j - 1];
      NumValidPositive(flags[1..], j - 1);
    } else if i != 0 && j == 0 {
      assert flags[1..][i - 1];
      NumValidPositive(flags[1..], i - 1);
    }
  }

  /** A set flag makes the number of set flags positive. */
  lemma {:induction false} NumValidPositive(flags: seq<bool>, i: nat)
    requires i < |flags| && flags[i]
    ensures NumValid(flags) >= 1
  {
    if i > 0 {
      NumValidPositive(flags[1..], i - 1);
    }
  }

  /** When the count agreed with the flags and `v` was still a candidate, the
      value chosen on a collapse is the one remaining candidate. */
  lemma CollapseIsUniqueCandidate(c: Cell, v: Digit)
    requires c.Wf() && c.IsValid(v)
    requires c.validCount == NumValid(c.valid) && c.validCount == 2
    ensures MarkInvalid(c, v).Done?
    ensures var d := MarkInvalid(c, v).value; 0 <= d.value < Size && Fixed(d, d.value)
  {
    var d := MarkInvalid(c, v).value;
    assert d.valid == c.valid[v := false];
    NumValidClear(c.valid, v);
    assert NumValid(d.valid) == 1;
    if d.value == NoValue {
      NumValidWitness(d.valid);
      assert false;
    }
    forall u: Digit
      ensures d.IsValid(u) <==> u == d.value
    {
      if d.IsValid(u) {
        NumValidOne(d.valid, u, d.value);
      }
    }
  }

  /** A positive number of set flags has a witness. */
  lemma {:induction false} NumValidWitness(flags: seq<bool>)
    requires NumValid(flags) >= 1
    ensures exists w :: 0 <= w < |flags| && flags[w]
  {
    if !flags[0] {
      NumValidWitness(flags[1..]);
      var w :| 0 <= w < |flags[1..]| && flags[1..][w];
      assert flags[w + 1];
    }
  }
}
