/** The `Board` class of Sudoku/Board.cs: a 9x9 grid of cells addressed by
    (row, column). `MarkInvalid` forwards to one cell and does nothing else;
    in particular a cell that collapses does not set off any further
    elimination. `MarkAll` is the loop every rule runs: `MarkInvalid` on a
    list of coordinates in order, stopping at the first exception. */
module Boards {
  import opened Outcomes
  import opened Cells

  datatype Coord = Coord(row: Digit, col: Digit)

  datatype Board = Board(cells: seq<seq<Cell>>)
  {
    ghost predicate Wf() {
      && |cells| == Size
      && forall i :: 0 <= i < |cells| ==>
           |cells[i]| == Size && forall j :: 0 <= j < |cells[i]| ==> cells[i][j].Wf()
    }

    function At(p: Coord): Cell
      requires Wf()
    {
      cells[p.row][p.col]
    }

    /** The grid with the cell at `p` replaced. */
    function With(p: Coord, c: Cell): (b: Board)
      requires Wf() && c.Wf()
      ensures b.Wf()
      ensures b.At(p) == c
      ensures forall q :: q != p ==> b.At(q) == At(q)
    {
      Board(cells[p.row := cells[p.row][p.col := c]])
    }

    /** `Board.IsValid`, `Board.HasValue` and `Board.GetValue`: reads of one cell. */
    predicate IsValid(p: Coord, v: Digit)
      requires Wf()
    {
      At(p).IsValid(v)
    }

    predicate HasValue(p: Coord)
      requires Wf()
    {
      At(p).HasValue()
    }

    function GetValue(p: Coord): (r: int)
      requires Wf()
      ensures r == NoValue || 0 <= r < Size
    {
      At(p).value
    }
  }

  /** `Board.MarkInvalid`: `Cell.MarkInvalid` on the cell at `p`; every other
      cell is left as it was, returned or thrown. */
  function MarkInvalid(b: Board, p: Coord, v: Digit): (r: Outcome<Board>)
    requires b.Wf()
    ensures r.State().Wf()
    ensures r.State().At(p) == Cells.MarkInvalid(b.At(p), v).State()
    ensures r.Thrown? <==> b.At(p).validCount <= 1
    ensures forall q :: q != p ==> r.State().At(q) == b.At(q)
  {
    match Cells.MarkInvalid(b.At(p), v)
    case Done(c) => Done(b.With(p, c))
    case Thrown(f, c) => Thrown(f, b.With(p, c))
  }

  /** `MarkInvalid` of `v` on each of `ps` in turn; the first exception ends it. */
  function MarkAll(b: Board, ps: seq<Coord>, v: Digit): (r: Outcome<Board>)
    requires b.Wf()
    ensures r.State().Wf()
    decreases |ps|
  {
    if ps == [] then Done(b)
    else
      match MarkInvalid(b, ps[0], v)
      case Thrown(f, b') => Thrown(f, b')
      case Done(b') => MarkAll(b', ps[1..], v)
  }

  /** Continue with `qs` after an outcome, unless it threw. */
  function Then(o: Outcome<Board>, qs: seq<Coord>, v: Digit): Outcome<Board>
    requires o.State().Wf()
  {
    match o
    case Thrown(_, _) => o
    case Done(b) => MarkAll(b, qs, v)
  }

  /** Every listed cell has more candidates counted than the times it is
      listed: the room the eliminations need. */
  ghost predicate Enough(b: Board, ps: seq<Coord>)
    requires b.Wf()
  {
    forall k :: 0 <= k < |ps| ==> b.At(ps[k]).validCount > multiset(ps)[ps[k]]
  }

  /** A cell not in the list is the same after the loop, even when it threw. */
  lemma {:induction false} MarkAllFrame(b: Board, ps: seq<Coord>, v: Digit, q: Coord)
    requires b.Wf() && q !in ps
    ensures MarkAll(b, ps, v).State().At(q) == b.At(q)
    decreases |ps|
  {
    if ps != [] {
      assert q != ps[0];
      match MarkInvalid(b, ps[0], v)
      case Thrown(_, _) =>
      case Done(b') =>
        assert q !in ps[1..];
        MarkAllFrame(b', ps[1..], v, q);
    }
  }

  /** The loop completes exactly when every listed cell can afford each of
      the eliminations aimed at it. */
  lemma {:induction false} MarkAllDoneIff(b: Board, ps: seq<Coord>, v: Digit)
    requires b.Wf()
    ensures MarkAll(b, ps, v).Done? <==> Enough(b, ps)
    decreases |ps|
  {
    if ps != [] {
      var p, rest := ps[0], ps[1..];
      assert ps == [p] + rest;
      match MarkInvalid(b, p, v)
      case Thrown(_, _) =>
        assert multiset(ps)[p] >= 1;
        assert b.At(ps[0]).validCount <= multiset(ps)[ps[0]];
      case Done(b') =>
        MarkAllDoneIff(b', rest, v);
        EnoughStep(b, b', p, rest);
    }
  }

  /** After one elimination on `p`, the room left for the rest of the list is
      the room there was for the whole of it. */
  lemma EnoughStep(b: Board, b': Board, p: Coord, rest: seq<Coord>)
    requires b.Wf() && b'.Wf()
    requires b.At(p).validCount >= 2
    requires b'.At(p).validCount == b.At(p).validCount - 1
    requires forall q :: q != p ==> b'.At(q) == b.At(q)
    ensures Enough(b, [p] + rest) <==> Enough(b', rest)
  {
    var ps := [p] + rest;
    assert multiset(ps) == multiset{p} + multiset(rest);
    if Enough(b', rest) {
      forall k | 0 <= k < |ps|
        ensures b.At(ps[k]).validCount > multiset(ps)[ps[k]]
      {
        if k > 0 {
          assert ps[k] == rest[k - 1];
          assert b'.At(rest[k - 1]).validCount > multiset(rest)[rest[k - 1]];
        } else if p in rest {
          var k' :| 0 <= k' < |rest| && rest[k'] == p;
          assert b'.At(rest[k']).validCount > multiset(rest)[rest[k']];
        }
      }
    }
    if Enough(b, ps) {
      forall k | 0 <= k < |rest|
        ensures b'.At(rest[k]).validCount > multiset(rest)[rest[k]]
      {
        assert rest[k] == ps[k + 1];
      }
    }
  }

  /** What a completed loop did: each cell went through one elimination of
      `v` per time it is listed. */
  lemma {:induction false} MarkAllEffect(b: Board, ps: seq<Coord>, v: Digit)
    requires b.Wf() && MarkAll(b, ps, v).Done?
    ensures forall q :: Eliminated(b.At(q), MarkAll(b, ps, v).value.At(q), v, multiset(ps)[q])
    decreases |ps|
  {
    var r := MarkAll(b, ps, v).value;
    if ps != [] {
      var p, rest := ps[0], ps[1..];
      assert ps == [p] + rest;
      assert multiset(ps) == multiset{p} + multiset(rest);
      var b' := MarkInvalid(b, p, v).value;
      MarkAllEffect(b', rest, v);
      forall q
        ensures Eliminated(b.At(q), r.At(q), v, multiset(ps)[q])
      {
        if q == p {
          MarkInvalidEliminates(b.At(p), v);
          EliminatedTrans(b.At(p), b'.At(p), r.At(p), v, 1, multiset(rest)[p]);
        }
      }
    }
  }

  /** Running the loop over two lists back to back is running it over their
      concatenation. */
  lemma {:induction false} MarkAllAppend(b: Board, ps: seq<Coord>, qs: seq<Coord>, v: Digit)
    requires b.Wf()
    ensures MarkAll(b, ps + qs, v) == Then(MarkAll(b, ps, v), qs, v)
    decreases |ps|
  {
    if ps == [] {
      assert ps + qs == qs;
    } else {
      assert (ps + qs)[0] == ps[0];
      assert (ps + qs)[1..] == ps[1..] + qs;
      match MarkInvalid(b, ps[0], v)
      case Thrown(_, _) =>
      case Done(b') => MarkAllAppend(b', ps[1..], qs, v);
    }
  }
}
