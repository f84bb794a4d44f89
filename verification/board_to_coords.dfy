/** The pure part of Sudoku/tools/board_to_coords.py: nine text lines become a
    9x9 grid of digits, and the grid becomes the list of `row col value`
    triples (1-based row and column) for its non-zero entries. Reading the
    lines and printing the triples are left to the caller; the lines arrive
    as a sequence of strings. */
module BoardToCoords {

  /** What the script dies of: `input()` with no line left (`EOFError`),
      or `line[idx]` past the end of a short line (`IndexError`). */
  datatype InputError = EndOfInput | IndexOutOfRange

  datatype Result<T> = Ok(value: T) | Err(error: InputError)

  /** One emitted line: 1-based row, 1-based column, the entry itself. */
  datatype Triple = Triple(row: int, col: int, value: int)

  type Grid = seq<seq<int>>

  ghost predicate IsGrid(g: Grid) {
    |g| == 9 && forall i :: 0 <= i < |g| ==> |g[i]| == 9
  }

  /** `ord(c) - ord('0')` kept when it lies in 1..9, otherwise 0. */
  function DigitOf(ch: char): (n: int)
    ensures 0 <= n <= 9
    ensures '1' <= ch <= '9' ==> 1 <= n && "0123456789"[n] == ch
    ensures !('1' <= ch <= '9') ==> n == 0
  {
    var num := ch as int - '0' as int;
    if 1 <= num <= 9 then num else 0
  }

  /** The row parsed from one line: characters 0 to 8, each through
      `DigitOf`. */
  function ParseLine(line: string): (r: Result<seq<int>>)
    ensures r.Ok? <==> |line| >= 9
    ensures r.Err? ==> r.error == IndexOutOfRange
    ensures r.Ok? ==> |r.value| == 9
    ensures r.Ok? ==> forall j :: 0 <= j < 9 ==> r.value[j] == DigitOf(line[j]) && 0 <= r.value[j] <= 9
  {
    if |line| < 9 then Err(IndexOutOfRange)
    else Ok(seq(9, j requires 0 <= j < 9 => DigitOf(line[j])))
  }

  /** Characters after position 8 play no part. */
  lemma ParseLineIgnoresTail(line: string, tail: string)
    requires |line| >= 9
    ensures ParseLine(line + tail) == ParseLine(line)
    ensures ParseLine(line) == ParseLine(line[..9])
  {
    assert ParseLine(line + tail).value == ParseLine(line).value;
    assert ParseLine(line[..9]).value == ParseLine(line).value;
  }

  /** Lines `k` to 8 read and parsed in order; the first line that is
      missing or too short ends the run. */
  function ParseRows(lines: seq<string>, k: nat): (r: Result<Grid>)
    requires k <= 9
    ensures r.Ok? <==> (k == 9 || |lines| >= 9) && forall i :: k <= i < 9 && i < |lines| ==> |lines[i]| >= 9
    ensures r.Ok? ==> |r.value| == 9 - k
    ensures r.Ok? ==> forall i :: 0 <= i < |r.value| ==> k + i < |lines| && Ok(r.value[i]) == ParseLine(lines[k + i])
    ensures r.Err? && r.error == EndOfInput ==> |lines| < 9 && forall j :: k <= j < |lines| ==> |lines[j]| >= 9
    ensures r.Err? && r.error == IndexOutOfRange ==>
              exists i :: k <= i < 9 && i < |lines| && |lines[i]| < 9 && forall j :: k <= j < i ==> |lines[j]| >= 9
    decreases 9 - k
  {
    if k == 9 then Ok([])
    else if k >= |lines| then Err(EndOfInput)
    else
      var line := ParseLine(lines[k]);
      if line.Err? then Err(line.error)
      else
        var rest := ParseRows(lines, k + 1);
        if rest.Err? then Err(rest.error)
        else
          assert forall i :: 0 <= i < |rest.value| ==> ([line.value] + rest.value)[i + 1] == rest.value[i];
          Ok([line.value] + rest.value)
  }

  /** The first loop of `main`: the grid read from the input lines. */
  function ParseBoard(lines: seq<string>): (r: Result<Grid>)
    ensures r.Ok? <==> |lines| >= 9 && forall i :: 0 <= i < 9 ==> |lines[i]| >= 9
    ensures r.Ok? ==> IsGrid(r.value)
    ensures r.Ok? ==> forall i, j :: 0 <= i < 9 && 0 <= j < 9 ==>
                        r.value[i][j] == DigitOf(lines[i][j]) && 0 <= r.value[i][j] <= 9
    ensures r.Err? && r.error == EndOfInput ==> |lines| < 9 && forall j :: 0 <= j < |lines| ==> |lines[j]| >= 9
    ensures r.Err? && r.error == IndexOutOfRange ==>
              exists i :: 0 <= i < 9 && i < |lines| && |lines[i]| < 9 && forall j :: 0 <= j < i ==> |lines[j]| >= 9
  {
    ParseRows(lines, 0)
  }

  /** `a` names a cell before `b` in row-major order. */
  predicate Before(a: Triple, b: Triple) {
    a.row < b.row || (a.row == b.row && a.col < b.col)
  }

  /** Every triple names a cell before that of any later triple. */
  ghost predicate InOrder(ts: seq<Triple>) {
    forall n, m :: 0 <= n < m < |ts| ==> Before(ts[n], ts[m])
  }

  /** The grid entry at 1-based row `r` and column `c`, the numbering the
      triples use. */
  function Entry(g: Grid, r: int, c: int): int
    requires IsGrid(g) && 1 <= r <= 9 && 1 <= c <= 9
  {
    g[r - 1][c - 1]
  }

  /** `t` names a cell of the grid and carries its entry, which is positive. */
  ghost predicate Reports(g: Grid, t: Triple)
    requires IsGrid(g)
  {
    1 <= t.row <= 9 && 1 <= t.col <= 9 && t.value == Entry(g, t.row, t.col) > 0
  }

  /** Every triple in the list reports a positive entry of the grid. */
  ghost predicate Sound(g: Grid, ts: seq<Triple>)
    requires IsGrid(g)
  {
    forall t :: t in ts ==> Reports(g, t)
  }

  /** Every positive entry of the grid is reported by a triple in the list. */
  ghost predicate Complete(g: Grid, ts: seq<Triple>)
    requires IsGrid(g)
  {
    forall r, c :: 1 <= r <= 9 && 1 <= c <= 9 && Entry(g, r, c) > 0 ==> Triple(r, c, Entry(g, r, c)) in ts
  }

  /** The inner loop of `main`'s second half over row `r`, from column `c`
      on; rows and columns are counted from 1 here, as they are printed (the
      script adds one to its 0-based counters). One triple per positive
      entry. */
  function EmitRow(g: Grid, r: int, c: int): seq<Triple>
    requires IsGrid(g) && 1 <= r <= 9 && 1 <= c <= 10
    decreases 10 - c
  {
    if c == 10 then []
    else if Entry(g, r, c) > 0 then [Triple(r, c, Entry(g, r, c))] + EmitRow(g, r, c + 1)
    else EmitRow(g, r, c + 1)
  }

  /** Every triple of row `r` from column `c` on reports an entry of that
      row at column `c` or later. */
  lemma {:induction false} EmitRowSound(g: Grid, r: int, c: int)
    requires IsGrid(g) && 1 <= r <= 9 && 1 <= c <= 10
    ensures forall t :: t in EmitRow(g, r, c) ==> Reports(g, t) && t.row == r && c <= t.col
    decreases 10 - c
  {
    if c < 10 {
      EmitRowSound(g, r, c + 1);
    }
  }

  /** Every positive entry of row `r` from column `c` on has its triple. */
  lemma {:induction false} EmitRowComplete(g: Grid, r: int, c: int, c': int)
    requires IsGrid(g) && 1 <= r <= 9 && 1 <= c <= c' <= 9 && Entry(g, r, c') > 0
    ensures Triple(r, c', Entry(g, r, c')) in EmitRow(g, r, c)
    decreases 10 - c
  {
    if c < c' {
      EmitRowComplete(g, r, c + 1, c');
    }
  }

  /** The triples of one row are in column order. */
  lemma {:induction false} EmitRowOrdered(g: Grid, r: int, c: int)
    requires IsGrid(g) && 1 <= r <= 9 && 1 <= c <= 10
    ensures InOrder(EmitRow(g, r, c))
    decreases 10 - c
  {
    if c < 10 {
      EmitRowOrdered(g, r, c + 1);
      if Entry(g, r, c) > 0 {
        EmitRowSound(g, r, c + 1);
        ConcatInOrder([Triple(r, c, Entry(g, r, c))], EmitRow(g, r, c + 1));
      }
    }
  }

  /** The outer loop from 0-based row `i` on. */
  function EmitRows(g: Grid, i: nat): (ts: seq<Triple>)
    requires IsGrid(g) && i <= 9
    decreases 9 - i
  {
    if i == 9 then [] else EmitRow(g, i + 1, 1) + EmitRows(g, i + 1)
  }

  /** Every triple from row `i` on reports an entry of row `i` or later. */
  lemma {:induction false} EmitRowsSound(g: Grid, i: nat)
    requires IsGrid(g) && i <= 9
    ensures forall t :: t in EmitRows(g, i) ==> Reports(g, t) && i < t.row
    decreases 9 - i
  {
    if i < 9 {
      EmitRowSound(g, i + 1, 1);
      EmitRowsSound(g, i + 1);
    }
  }

  /** Every positive entry from row `i` on has its triple. */
  lemma {:induction false} EmitRowsComplete(g: Grid, i: nat, r: int, c: int)
    requires IsGrid(g) && i < r <= 9 && 1 <= c <= 9 && Entry(g, r, c) > 0
    ensures Triple(r, c, Entry(g, r, c)) in EmitRows(g, i)
    decreases 9 - i
  {
    if r > i + 1 {
      EmitRowsComplete(g, i + 1, r, c);
    } else {
      assert r == i + 1;
      EmitRowComplete(g, i + 1, 1, c);
    }
  }

  /** The triples from row `i` on are in row-major order. */
  lemma {:induction false} EmitRowsInOrder(g: Grid, i: nat)
    requires IsGrid(g) && i <= 9
    ensures InOrder(EmitRows(g, i))
    decreases 9 - i
  {
    if i < 9 {
      EmitRowOrdered(g, i + 1, 1);
      EmitRowSound(g, i + 1, 1);
      EmitRowsInOrder(g, i + 1);
      EmitRowsSound(g, i + 1);
      ConcatInOrder(EmitRow(g, i + 1, 1), EmitRows(g, i + 1));
    }
  }

  /** Two lists in order, each triple of the first before each of the
      second, concatenate to a list in order. */
  lemma ConcatInOrder(a: seq<Triple>, b: seq<Triple>)
    requires InOrder(a) && InOrder(b)
    requires forall x, y :: x in a && y in b ==> Before(x, y)
    ensures InOrder(a + b)
  {
    forall n, m | 0 <= n < m < |a + b|
      ensures Before((a + b)[n], (a + b)[m])
    {
      if m < |a| {
        assert Before(a[n], a[m]);
      } else if n >= |a| {
        assert Before(b[n - |a|], b[m - |a|]);
      } else {
        assert a[n] in a && b[m - |a|] in b;
      }
    }
  }

  /** The triples `main` prints for a grid, in printing order: each reports a
      positive entry, each positive entry is reported, and the order is
      row-major, so no cell is reported twice. */
  function Triples(g: Grid): (ts: seq<Triple>)
    requires IsGrid(g)
    ensures Sound(g, ts) && Complete(g, ts) && InOrder(ts)
  {
    var ts := EmitRows(g, 0);
    EmitRowsSound(g, 0);
    EmitRowsInOrder(g, 0);
    forall r, c | 1 <= r <= 9 && 1 <= c <= 9 && Entry(g, r, c) > 0
      ensures Triple(r, c, Entry(g, r, c)) in ts
    {
      EmitRowsComplete(g, 0, r, c);
    }
    ts
  }

  /** The value the first triple naming cell (r, c) gives it, 0 if none does. */
  function ValueAt(ts: seq<Triple>, r: int, c: int): int {
    if ts == [] then 0
    else if ts[0].row == r && ts[0].col == c then ts[0].value
    else ValueAt(ts[1..], r, c)
  }

  /** The grid a reader of the triples rebuilds: zeros except where a triple
      names the cell. */
  function Rebuild(ts: seq<Triple>): (g: Grid)
    ensures IsGrid(g)
  {
    seq(9, i => seq(9, j => ValueAt(ts, i + 1, j + 1)))
  }

  /** A triple that no earlier triple shadows is the one `ValueAt` finds. */
  lemma {:induction false} ValueAtFound(ts: seq<Triple>, n: nat)
    requires n < |ts|
    requires forall m :: 0 <= m < n ==> !(ts[m].row == ts[n].row && ts[m].col == ts[n].col)
    ensures ValueAt(ts, ts[n].row, ts[n].col) == ts[n].value
  {
    if n > 0 {
      assert !(ts[0].row == ts[n].row && ts[0].col == ts[n].col);
      assert ts[1..][n - 1] == ts[n];
      ValueAtFound(ts[1..], n - 1);
    }
  }

  /** A cell no triple names reads as 0. */
  lemma {:induction false} ValueAtMissing(ts: seq<Triple>, r: int, c: int)
    requires forall n :: 0 <= n < |ts| ==> !(ts[n].row == r && ts[n].col == c)
    ensures ValueAt(ts, r, c) == 0
  {
    if ts != [] {
      assert forall n :: 0 <= n < |ts[1..]| ==> ts[1..][n] == ts[n + 1];
      ValueAtMissing(ts[1..], r, c);
    }
  }

  /** Rebuilding the grid from the emitted triples gives back the grid,
      provided it has no negative entries (a parsed grid has none). */
  lemma RebuildTriples(g: Grid)
    requires IsGrid(g)
    requires forall i, j :: 0 <= i < 9 && 0 <= j < 9 ==> g[i][j] >= 0
    ensures Rebuild(Triples(g)) == g
  {
    RebuildReported(g, Triples(g));
  }

  /** Any list that reports exactly the positive entries of a grid with no
      negative entries, in row-major order, rebuilds that grid. */
  lemma RebuildReported(g: Grid, ts: seq<Triple>)
    requires IsGrid(g)
    requires forall i, j :: 0 <= i < 9 && 0 <= j < 9 ==> g[i][j] >= 0
    requires Sound(g, ts) && Complete(g, ts) && InOrder(ts)
    ensures Rebuild(ts) == g
  {
    var b := Rebuild(ts);
    forall i | 0 <= i < 9
      ensures b[i] == g[i]
    {
      forall j | 0 <= j < 9
        ensures b[i][j] == g[i][j]
      {
        RebuildCell(g, ts, i + 1, j + 1);
      }
    }
  }

  /** One cell of the rebuilt grid. */
  lemma RebuildCell(g: Grid, ts: seq<Triple>, r: int, c: int)
    requires IsGrid(g) && 1 <= r <= 9 && 1 <= c <= 9 && Entry(g, r, c) >= 0
    requires Sound(g, ts) && Complete(g, ts) && InOrder(ts)
    ensures ValueAt(ts, r, c) == Entry(g, r, c)
  {
    if Entry(g, r, c) > 0 {
      var n :| 0 <= n < |ts| && ts[n] == Triple(r, c, Entry(g, r, c));
      forall m | 0 <= m < n
        ensures !(ts[m].row == ts[n].row && ts[m].col == ts[n].col)
      {
        assert Before(ts[m], ts[n]);
      }
      ValueAtFound(ts, n);
    } else {
      forall n | 0 <= n < |ts|
        ensures !(ts[n].row == r && ts[n].col == c)
      {
        assert ts[n] in ts;
      }
      ValueAtMissing(ts, r, c);
    }
  }

  /** End to end: the triples of a parsed board carry values 1 to 9 and
      rebuild the parsed grid. */
  lemma ParsedBoardRoundTrip(lines: seq<string>)
    requires ParseBoard(lines).Ok?
    ensures forall t :: t in Triples(ParseBoard(lines).value) ==> 1 <= t.value <= 9
    ensures Rebuild(Triples(ParseBoard(lines).value)) == ParseBoard(lines).value
  {
    RebuildTriples(ParseBoard(lines).value);
  }
}
