/** Sudoku/Rules.cs. Each rule walks the cells of one unit around the cell
    just fixed, skips that cell, and calls `Board.MarkInvalid` on the others.
    The class hierarchy becomes a closed datatype; the base class, whose
    `Execute` throws, is the `Base` variant. A rule is thus its list of
    visited coordinates folded through `MarkAll`. */
module Rules {
  import opened Outcomes
  import opened Cells
  import opened Boards

  datatype Rule = Base | ColumnInvalidate | RowInvalidate | BoxInvalidate

  /** Same 3x3 box: rows and columns agree after division by three. Indices
      are never negative, so the source's truncating division is Dafny's. */
  predicate SameBox(p: Coord, q: Coord) {
    p.row / 3 == q.row / 3 && p.col / 3 == q.col / 3
  }

  /** Position in row-major order. */
  function Key(p: Coord): nat {
    p.row * Size + p.col
  }

  /** The column rule's loop from row `r` on: every row except the origin's. */
  function ColumnPeersFrom(o: Coord, r: nat): (ps: seq<Coord>)
    requires r <= Size
    ensures |ps| == Size - r - (if r <= o.row then 1 else 0)
    ensures forall k :: 0 <= k < |ps| ==> ps[k].col == o.col && ps[k].row != o.row && r <= ps[k].row
    ensures forall i: Digit :: r <= i && i != o.row ==> Coord(i, o.col) in ps
    ensures forall k, l :: 0 <= k < l < |ps| ==> ps[k].row < ps[l].row
    decreases Size - r
  {
    if r == Size then []
    else if r == o.row then ColumnPeersFrom(o, r + 1)
    else [Coord(r, o.col)] + ColumnPeersFrom(o, r + 1)
  }

  /** The row rule's loop from column `c` on: every column except the origin's. */
  function RowPeersFrom(o: Coord, c: nat): (ps: seq<Coord>)
    requires c <= Size
    ensures |ps| == Size - c - (if c <= o.col then 1 else 0)
    ensures forall k :: 0 <= k < |ps| ==> ps[k].row == o.row && ps[k].col != o.col && c <= ps[k].col
    ensures forall j: Digit :: c <= j && j != o.col ==> Coord(o.row, j) in ps
    ensures forall k, l :: 0 <= k < l < |ps| ==> ps[k].col < ps[l].col
    decreases Size - c
  {
    if c == Size then []
    else if c == o.col then RowPeersFrom(o, c + 1)
    else [Coord(o.row, c)] + RowPeersFrom(o, c + 1)
  }

  /** The cell the box rule's two nested loops reach at step `off`, that is
      at row offset `off / 3` and column offset `off % 3` from the box's
      top-left corner `(row / 3 * 3, col / 3 * 3)`. */
  function BoxCell(o: Coord, off: nat): (p: Coord)
    requires off < Size
    ensures SameBox(p, o)
    ensures p.row == o.row / 3 * 3 + off / 3 && p.col == o.col / 3 * 3 + off % 3
  {
    Coord(o.row / 3 * 3 + off / 3, o.col / 3 * 3 + off % 3)
  }

  /** Offset of a cell of the origin's box from the box's corner. */
  function BoxOffset(o: Coord, p: Coord): (off: nat)
    requires SameBox(p, o)
    ensures off < Size && BoxCell(o, off) == p
  {
    (p.row - o.row / 3 * 3) * 3 + (p.col - o.col / 3 * 3)
  }

  /** Moving to a later step of the box walk moves later in row-major order. */
  lemma BoxCellOrdered(o: Coord, a: nat, b: nat)
    requires a < b < Size
    ensures Key(BoxCell(o, a)) < Key(BoxCell(o, b))
  {
  }

  /** The box rule's nested loops from step `off` on: every cell of the
      origin's box except the origin. */
  function BoxPeersFrom(o: Coord, off: nat): (ps: seq<Coord>)
    requires off <= Size
    ensures |ps| == Size - off - (if off <= BoxOffset(o, o) then 1 else 0)
    ensures forall k :: 0 <= k < |ps| ==> SameBox(ps[k], o) && ps[k] != o && off <= BoxOffset(o, ps[k])
    ensures forall k, l :: 0 <= k < l < |ps| ==> BoxOffset(o, ps[k]) < BoxOffset(o, ps[l])
    decreases Size - off
  {
    if off == Size then []
    else
      var p, rest := BoxCell(o, off), BoxPeersFrom(o, off + 1);
      BoxOffsetOfCell(o, off);
      if p == o then rest else [p] + rest
  }

  /** The walk from step `off` on reaches every other cell of the box at
      offset `off` or later. */
  lemma {:induction false} BoxPeersFromCovers(o: Coord, off: nat, q: Coord)
    requires off <= Size && SameBox(q, o) && q != o && off <= BoxOffset(o, q)
    ensures q in BoxPeersFrom(o, off)
    decreases Size - off
  {
    if BoxOffset(o, q) == off {
      assert BoxPeersFrom(o, off)[0] == BoxCell(o, off) == q;
    } else {
      BoxPeersFromCovers(o, off + 1, q);
    }
  }

  /** Step `off` of the box walk sits at offset `off` from the box's corner. */
  lemma BoxOffsetOfCell(o: Coord, off: nat)
    requires off < Size
    ensures BoxOffset(o, BoxCell(o, off)) == off
  {
  }

  function ColumnPeers(o: Coord): (ps: seq<Coord>)
    ensures |ps| == 8
    ensures forall q :: q in ps <==> q.col == o.col && q.row != o.row
    ensures forall k, l :: 0 <= k < l < |ps| ==> ps[k].row < ps[l].row
  {
    ColumnPeersFrom(o, 0)
  }

  function RowPeers(o: Coord): (ps: seq<Coord>)
    ensures |ps| == 8
    ensures forall q :: q in ps <==> q.row == o.row && q.col != o.col
    ensures forall k, l :: 0 <= k < l < |ps| ==> ps[k].col < ps[l].col
  {
    RowPeersFrom(o, 0)
  }

  function BoxPeers(o: Coord): (ps: seq<Coord>)
    ensures |ps| == 8
    ensures forall q :: q in ps <==> SameBox(q, o) && q != o
    ensures forall k, l :: 0 <= k < l < |ps| ==> Key(ps[k]) < Key(ps[l])
  {
    var ps := BoxPeersFrom(o, 0);
    forall q | SameBox(q, o) && q != o
      ensures q in ps
    {
      BoxPeersFromCovers(o, 0, q);
    }
    forall k, l | 0 <= k < l < |ps|
      ensures Key(ps[k]) < Key(ps[l])
    {
      BoxCellOrdered(o, BoxOffset(o, ps[k]), BoxOffset(o, ps[l]));
    }
    ps
  }

  /** The coordinates a rule other than the base one hands to `MarkInvalid`,
      in the order it does so. */
  function Peers(rule: Rule, o: Coord): seq<Coord>
    requires !rule.Base?
  {
    match rule
    case ColumnInvalidate => ColumnPeers(o)
    case RowInvalidate => RowPeers(o)
    case BoxInvalidate => BoxPeers(o)
  }

  /** `Rule.Execute` and its overrides. */
  function Execute(rule: Rule, b: Board, o: Coord, v: Digit): (r: Outcome<Board>)
    requires b.Wf()
    ensures r.State().Wf()
    ensures rule.Base? ==> r == Thrown(NotImplemented, b)
    ensures r.State().At(o) == b.At(o)
  {
    if rule.Base? then Thrown(NotImplemented, b)
    else
      var ps := Peers(rule, o);
      MarkAllFrame(b, ps, v, o);
      MarkAll(b, ps, v)
  }
}
