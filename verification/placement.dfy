/** `Board.SetValue` of Sudoku/Board.cs: fix one cell, then execute each rule
    of the given list in turn against that cell. Nothing is propagated from a
    peer that collapses along the way; the only eliminations are the ones the
    rules aim at the peers of the placed cell. */
module Placement {
  import opened Outcomes
  import opened Cells
  import opened Boards
  import opened Rules

  /** The rule set that covers rows, columns and boxes, in one of the orders
      it can be handed over in. */
  const StandardRules: seq<Rule> := [RowInvalidate, ColumnInvalidate, BoxInvalidate]

  /** The `foreach` over the rules; the first exception ends it. */
  function ExecuteAll(rules: seq<Rule>, b: Board, o: Coord, v: Digit): (r: Outcome<Board>)
    requires b.Wf()
    ensures r.State().Wf()
    ensures r.State().At(o) == b.At(o)
    decreases |rules|
  {
    if rules == [] then Done(b)
    else
      match Execute(rules[0], b, o, v)
      case Thrown(f, b') => Thrown(f, b')
      case Done(b') => ExecuteAll(rules[1..], b', o, v)
  }

  /** `Board.SetValue(row, col, value, rules)`. Whether it returns or throws,
      the placed cell holds `v` as its one candidate: no rule touches it. */
  function SetValue(b: Board, o: Coord, v: Digit, rules: seq<Rule>): (r: Outcome<Board>)
    requires b.Wf()
    ensures r.State().Wf()
    ensures Fixed(r.State().At(o), v)
    ensures r.State().GetValue(o) == v && r.State().HasValue(o)
  {
    ExecuteAll(rules, Placed(b, o, v), o, v)
  }

  /** Every coordinate the rules visit, in visiting order. */
  function AllPeers(rules: seq<Rule>, o: Coord): seq<Coord>
    requires NoBase(rules)
  {
    if rules == [] then [] else Peers(rules[0], o) + AllPeers(rules[1..], o)
  }

  /** Executing a list of rules without the base one is one `MarkAll` over
      all the coordinates they visit. */
  lemma {:induction false} ExecuteAllIsMarkAll(rules: seq<Rule>, b: Board, o: Coord, v: Digit, ps: seq<Coord>)
    requires b.Wf() && NoBase(rules)
    requires ps == AllPeers(rules, o)
    ensures ExecuteAll(rules, b, o, v) == MarkAll(b, ps, v)
    decreases |rules|
  {
    if rules != [] {
      var rest := AllPeers(rules[1..], o);
      MarkAllAppend(b, Peers(rules[0], o), rest, v);
      match MarkAll(b, Peers(rules[0], o), v)
      case Thrown(_, _) =>
      case Done(b') => ExecuteAllIsMarkAll(rules[1..], b', o, v, rest);
    }
  }

  /** A list containing the base rule never completes: the first rule that
      throws is at the latest the base one. */
  lemma {:induction false} BaseRuleThrows(rules: seq<Rule>, b: Board, o: Coord, v: Digit)
    requires b.Wf()
    requires exists k :: 0 <= k < |rules| && rules[k].Base?
    ensures ExecuteAll(rules, b, o, v).Thrown?
    decreases |rules|
  {
    if !rules[0].Base? {
      var k :| 0 <= k < |rules| && rules[k].Base?;
      assert rules[1..][k - 1].Base?;
      match Execute(rules[0], b, o, v)
      case Thrown(_, _) =>
      case Done(b') => BaseRuleThrows(rules[1..], b', o, v);
    }
  }

  /** Peers of `o` under the standard rules: another cell in its row, its
      column or its box. */
  predicate IsPeer(o: Coord, p: Coord) {
    p != o && (p.row == o.row || p.col == o.col || SameBox(p, o))
  }

  /** How many of the standard rules visit `p` when `o` is placed. A cell in
      the same row and box (or column and box) is visited twice. */
  function Multiplicity(o: Coord, p: Coord): (n: nat)
    ensures n <= 2
    ensures n > 0 <==> IsPeer(o, p)
  {
    if p == o then 0
    else
      (if p.row == o.row then 1 else 0)
      + (if p.col == o.col then 1 else 0)
      + (if SameBox(p, o) then 1 else 0)
  }

  /** In a list without repeats an element occurs once or not at all. */
  lemma {:induction false} DistinctCount(s: seq<Coord>, q: Coord)
    requires forall k, l :: 0 <= k < l < |s| ==> s[k] != s[l]
    ensures multiset(s)[q] == if q in s then 1 else 0
  {
    if s != [] {
      assert s == [s[0]] + s[1..];
      assert multiset(s) == multiset{s[0]} + multiset(s[1..]);
      forall k, l | 0 <= k < l < |s[1..]|
        ensures s[1..][k] != s[1..][l]
      {
        assert s[k + 1] != s[l + 1];
      }
      DistinctCount(s[1..], q);
      if q == s[0] {
        forall k | 0 <= k < |s[1..]|
          ensures s[1..][k] != q
        {
          assert s[0] != s[k + 1];
        }
      }
    }
  }

  /** The row, column and box rules, each exactly once, in any order: the
      rule sets `Board.SetValue` can be handed that cover every unit. */
  ghost predicate AllUnits(rules: seq<Rule>) {
    multiset(rules) == multiset(StandardRules)
  }

  /** No entry is the base rule. */
  predicate NoBase(rules: seq<Rule>) {
    forall k :: 0 <= k < |rules| ==> !rules[k].Base?
  }

  /** How often the rules visit `q` when `o` is placed: once for every row
      rule if `q` is elsewhere in the origin's row, and likewise for the
      column and the box. */
  function Visits(rules: seq<Rule>, o: Coord, q: Coord): nat {
    (if q.row == o.row && q.col != o.col then multiset(rules)[RowInvalidate] else 0)
    + (if q.col == o.col && q.row != o.row then multiset(rules)[ColumnInvalidate] else 0)
    + (if SameBox(q, o) && q != o then multiset(rules)[BoxInvalidate] else 0)
  }

  /** Any list of rules without the base one visits each cell as often as
      `Visits` says. */
  lemma {:induction false} AllPeersCount(rules: seq<Rule>, o: Coord, q: Coord)
    requires NoBase(rules)
    ensures multiset(AllPeers(rules, o))[q] == Visits(rules, o, q)
    decreases |rules|
  {
    if rules != [] {
      assert NoBase(rules[1..]) by {
        forall k | 0 <= k < |rules[1..]|
          ensures !rules[1..][k].Base?
        {
          assert rules[1..][k] == rules[k + 1];
        }
      }
      AllPeersCount(rules[1..], o, q);
      PeersCount(rules[0], o, q);
      VisitsSplit(rules, o, q);
    }
  }

  /** One rule visits each cell as often as `Visits` says of it alone. */
  lemma PeersCount(rule: Rule, o: Coord, q: Coord)
    requires !rule.Base?
    ensures multiset(Peers(rule, o))[q] == Visits([rule], o, q)
  {
    match rule
    case RowInvalidate => RowRuleVisits(o, q);
    case ColumnInvalidate => ColumnRuleVisits(o, q);
    case BoxInvalidate => BoxRuleVisits(o, q);
  }

  lemma RowRuleVisits(o: Coord, q: Coord)
    ensures multiset(Peers(RowInvalidate, o))[q] == Visits([RowInvalidate], o, q)
  {
    var m := multiset([RowInvalidate]);
    assert m == multiset{RowInvalidate};
    assert m[RowInvalidate] == 1 && m[ColumnInvalidate] == 0 && m[BoxInvalidate] == 0;
    RowPeersCount(o, q);
  }

  lemma ColumnRuleVisits(o: Coord, q: Coord)
    ensures multiset(Peers(ColumnInvalidate, o))[q] == Visits([ColumnInvalidate], o, q)
  {
    var m := multiset([ColumnInvalidate]);
    assert m == multiset{ColumnInvalidate};
    assert m[RowInvalidate] == 0 && m[ColumnInvalidate] == 1 && m[BoxInvalidate] == 0;
    ColumnPeersCount(o, q);
  }

  lemma BoxRuleVisits(o: Coord, q: Coord)
    ensures multiset(Peers(BoxInvalidate, o))[q] == Visits([BoxInvalidate], o, q)
  {
    var m := multiset([BoxInvalidate]);
    assert m == multiset{BoxInvalidate};
    assert m[RowInvalidate] == 0 && m[ColumnInvalidate] == 0 && m[BoxInvalidate] == 1;
    BoxPeersCount(o, q);
  }

  /** `Visits` adds up over the first rule and the rest. */
  lemma VisitsSplit(rules: seq<Rule>, o: Coord, q: Coord)
    requires rules != []
    ensures Visits(rules, o, q) == Visits([rules[0]], o, q) + Visits(rules[1..], o, q)
  {
    assert rules == [rules[0]] + rules[1..];
    assert multiset(rules) == multiset([rules[0]]) + multiset(rules[1..]);
  }

  /** The three unit rules in any order contain no base rule. */
  lemma AllUnitsNoBase(rules: seq<Rule>)
    requires AllUnits(rules)
    ensures NoBase(rules)
  {
    forall k | 0 <= k < |rules|
      ensures !rules[k].Base?
    {
      assert rules[k] in multiset(rules);
      assert rules[k] in multiset(StandardRules);
    }
  }

  /** The three unit rules, in any order, visit each cell as often as
      `Multiplicity` says. */
  lemma StandardPeersCount(rules: seq<Rule>, o: Coord, q: Coord)
    requires AllUnits(rules)
    ensures NoBase(rules) && multiset(AllPeers(rules, o))[q] == Multiplicity(o, q)
  {
    AllUnitsNoBase(rules);
    AllPeersCount(rules, o, q);
    assert multiset(StandardRules) == multiset{RowInvalidate, ColumnInvalidate, BoxInvalidate};
  }

  lemma RowPeersCount(o: Coord, q: Coord)
    ensures multiset(RowPeers(o))[q] == if q.row == o.row && q.col != o.col then 1 else 0
  {
    var rs := RowPeers(o);
    forall k, l | 0 <= k < l < |rs|
      ensures rs[k] != rs[l]
    {
      assert rs[k].col < rs[l].col;
    }
    DistinctCount(rs, q);
  }

  lemma ColumnPeersCount(o: Coord, q: Coord)
    ensures multiset(ColumnPeers(o))[q] == if q.col == o.col && q.row != o.row then 1 else 0
  {
    var cs := ColumnPeers(o);
    forall k, l | 0 <= k < l < |cs|
      ensures cs[k] != cs[l]
    {
      assert cs[k].row < cs[l].row;
    }
    DistinctCount(cs, q);
  }

  lemma BoxPeersCount(o: Coord, q: Coord)
    ensures multiset(BoxPeers(o))[q] == if SameBox(q, o) && q != o then 1 else 0
  {
    AscendingCount(BoxPeers(o), q);
  }

  /** A list ascending in row-major order has no repeats. */
  lemma AscendingCount(s: seq<Coord>, q: Coord)
    requires forall k, l :: 0 <= k < l < |s| ==> Key(s[k]) < Key(s[l])
    ensures multiset(s)[q] == if q in s then 1 else 0
  {
    forall k, l | 0 <= k < l < |s|
      ensures s[k] != s[l]
    {
      assert Key(s[k]) < Key(s[l]);
    }
    DistinctCount(s, q);
  }

  lemma StandardPeersCounts(rules: seq<Rule>, o: Coord)
    requires AllUnits(rules)
    ensures NoBase(rules) && forall q :: multiset(AllPeers(rules, o))[q] == Multiplicity(o, q)
  {
    AllUnitsNoBase(rules);
    forall q
      ensures multiset(AllPeers(rules, o))[q] == Multiplicity(o, q)
    {
      StandardPeersCount(rules, o, q);
    }
  }

  /** The board after the placed cell is fixed and before any rule runs. */
  function Placed(b: Board, o: Coord, v: Digit): (b1: Board)
    requires b.Wf()
    ensures b1.Wf() && Fixed(b1.At(o), v)
    ensures forall p :: p != o ==> b1.At(p) == b.At(p)
  {
    b.With(o, Cells.SetValue(b.At(o), v))
  }

  /** A placement under rules without the base one is one `MarkAll` over
      the peers, which never lists the placed cell. */
  lemma PlacementIsMarkAll(b: Board, o: Coord, v: Digit, rules: seq<Rule>, ps: seq<Coord>)
    requires b.Wf() && NoBase(rules) && ps == AllPeers(rules, o)
    ensures SetValue(b, o, v, rules) == MarkAll(Placed(b, o, v), ps, v)
  {
    ExecuteAllIsMarkAll(rules, Placed(b, o, v), o, v, ps);
  }

  /** Every peer of `o` has more candidates counted than the unit rules
      visit it. */
  ghost predicate Room(b: Board, o: Coord)
    requires b.Wf()
  {
    forall p :: IsPeer(o, p) ==> b.At(p).validCount > Multiplicity(o, p)
  }

  /** A placement under the row, column and box rules, in any order,
      completes exactly when every peer has more candidates counted than the
      rules visit it. */
  lemma StandardSetValueDoneIff(b: Board, o: Coord, v: Digit, rules: seq<Rule>)
    requires b.Wf() && AllUnits(rules)
    ensures SetValue(b, o, v, rules).Done? <==> Room(b, o)
  {
    AllUnitsNoBase(rules);
    var ps := AllPeers(rules, o);
    PlacementIsMarkAll(b, o, v, rules, ps);
    StandardMarkAllRoom(b, o, v, rules, ps);
  }

  /** `MarkAll` over the peers of a placed board completes exactly when
      `Room` holds. */
  lemma StandardMarkAllRoom(b: Board, o: Coord, v: Digit, rules: seq<Rule>, ps: seq<Coord>)
    requires b.Wf() && AllUnits(rules) && NoBase(rules) && ps == AllPeers(rules, o)
    ensures MarkAll(Placed(b, o, v), ps, v).Done? <==> Room(b, o)
  {
    StandardPeersCounts(rules, o);
    MarkAllRoom(b, Placed(b, o, v), o, ps, v);
  }

  /** The loop over a list that visits each cell as often as the unit rules
      do completes exactly when `Room` holds. */
  lemma MarkAllRoom(b: Board, b1: Board, o: Coord, ps: seq<Coord>, v: Digit)
    requires b.Wf() && b1.Wf()
    requires forall p :: p != o ==> b1.At(p) == b.At(p)
    requires forall q :: multiset(ps)[q] == Multiplicity(o, q)
    ensures MarkAll(b1, ps, v).Done? <==> Room(b, o)
  {
    MarkAllDoneIff(b1, ps, v);
    EnoughIffRoom(b, b1, o, ps);
  }

  /** For any list that visits each cell as often as the unit rules do, and
      a board that differs from `b` at most at `o`, the room the list needs
      is the room `Room` asks for. */
  lemma EnoughIffRoom(b: Board, b1: Board, o: Coord, ps: seq<Coord>)
    requires b.Wf() && b1.Wf()
    requires forall p :: p != o ==> b1.At(p) == b.At(p)
    requires forall q :: multiset(ps)[q] == Multiplicity(o, q)
    ensures Enough(b1, ps) <==> Room(b, o)
  {
    if Enough(b1, ps) {
      forall p | IsPeer(o, p)
        ensures b.At(p).validCount > Multiplicity(o, p)
      {
        assert p in multiset(ps);
        var k :| 0 <= k < |ps| && ps[k] == p;
      }
    }
    if Room(b, o) {
      forall k | 0 <= k < |ps|
        ensures b1.At(ps[k]).validCount > multiset(ps)[ps[k]]
      {
        var p := ps[k];
        assert p in multiset(ps);
        assert IsPeer(o, p);
      }
    }
  }

  /** When a placement under the unit rules completes, in whichever order
      they ran, each cell other than the placed one has been through one
      elimination of `v` per rule that visits it. */
  lemma StandardSetValueEffect(b: Board, o: Coord, v: Digit, rules: seq<Rule>, p: Coord)
    requires b.Wf() && AllUnits(rules) && SetValue(b, o, v, rules).Done? && p != o
    ensures Eliminated(b.At(p), SetValue(b, o, v, rules).value.At(p), v, Multiplicity(o, p))
  {
    AllUnitsNoBase(rules);
    var ps := AllPeers(rules, o);
    PlacementIsMarkAll(b, o, v, rules, ps);
    StandardMarkAllEffect(b, o, v, rules, ps, SetValue(b, o, v, rules), p);
  }

  /** The same for `MarkAll` over the peers of the placed board. */
  lemma StandardMarkAllEffect(b: Board, o: Coord, v: Digit, rules: seq<Rule>, ps: seq<Coord>, r: Outcome<Board>, p: Coord)
    requires b.Wf() && AllUnits(rules) && NoBase(rules) && ps == AllPeers(rules, o)
    requires r == MarkAll(Placed(b, o, v), ps, v) && r.Done? && p != o
    ensures Eliminated(b.At(p), r.value.At(p), v, Multiplicity(o, p))
  {
    StandardPeersCount(rules, o, p);
    MarkAllEffect(Placed(b, o, v), ps, v);
    assert Placed(b, o, v).At(p) == b.At(p);
  }

  /** What a completed placement under the unit rules leaves behind: `v` is
      gone from every peer's candidates, cells outside the row, column and
      box are unchanged, and the placed cell reads back `v`. */
  lemma PlacementEliminatesFromPeers(b: Board, o: Coord, v: Digit, rules: seq<Rule>)
    requires b.Wf() && AllUnits(rules) && SetValue(b, o, v, rules).Done?
    ensures forall p :: IsPeer(o, p) ==> !SetValue(b, o, v, rules).value.IsValid(p, v)
    ensures forall p :: p != o && !IsPeer(o, p) ==> SetValue(b, o, v, rules).value.At(p) == b.At(p)
    ensures SetValue(b, o, v, rules).value.GetValue(o) == v
  {
    var r := SetValue(b, o, v, rules).value;
    forall p | IsPeer(o, p)
      ensures !r.IsValid(p, v)
    {
      StandardSetValueEffect(b, o, v, rules, p);
    }
    forall p | p != o && !IsPeer(o, p)
      ensures r.At(p) == b.At(p)
    {
      StandardSetValueEffect(b, o, v, rules, p);
    }
  }

  /** A peer that already has a single counted candidate (a cell placed
      earlier, say) makes the placement throw. */
  lemma PeerWithOneCandidateThrows(b: Board, o: Coord, v: Digit, rules: seq<Rule>, p: Coord)
    requires b.Wf() && AllUnits(rules) && IsPeer(o, p) && b.At(p).validCount <= 1
    ensures SetValue(b, o, v, rules).Thrown?
  {
    StandardSetValueDoneIff(b, o, v, rules);
  }

  /** Two placements into cells that are peers of each other: the second
      throws, whatever the two values and the two rule orders are, since the
      first cell's count is one. */
  lemma SecondPlacementAmongPeersThrows(b: Board, o: Coord, v: Digit, rules: seq<Rule>, q: Coord, w: Digit, rules': seq<Rule>)
    requires b.Wf() && AllUnits(rules) && AllUnits(rules')
    requires SetValue(b, o, v, rules).Done? && IsPeer(q, o)
    ensures SetValue(SetValue(b, o, v, rules).value, q, w, rules').Thrown?
  {
    PeerWithOneCandidateThrows(SetValue(b, o, v, rules).value, q, w, rules', o);
  }

  /** A board on which every cell counts at least three candidates takes any
      placement under the unit rules: no cell is visited more than twice. */
  lemma RoomyBoardTakesPlacement(b: Board, o: Coord, v: Digit, rules: seq<Rule>)
    requires b.Wf() && AllUnits(rules) && forall p :: b.At(p).validCount >= 3
    ensures SetValue(b, o, v, rules).Done?
  {
    StandardSetValueDoneIff(b, o, v, rules);
    assert Room(b, o);
  }

  /** Placing digit 0 in the top-left corner of a board of `new Cell()`s: 0
      leaves the row, the column and the box, and an unrelated cell keeps it.
      That cell has no other candidate either, because `new Cell()` flags
      only 0. */
  lemma FirstPlacementOnEmptyBoard(b: Board, rules: seq<Rule>)
    requires b.Wf() && AllUnits(rules) && forall p :: b.At(p) == NewCell(NoValue)
    ensures SetValue(b, Coord(0, 0), 0, rules).Done?
    ensures var r := SetValue(b, Coord(0, 0), 0, rules).value;
      && !r.IsValid(Coord(0, 5), 0)
      && !r.IsValid(Coord(5, 0), 0)
      && !r.IsValid(Coord(1, 1), 0)
      && r.IsValid(Coord(5, 5), 0)
      && !r.IsValid(Coord(5, 5), 3)
  {
    var o := Coord(0, 0);
    RoomyBoardTakesPlacement(b, o, 0, rules);
    var r := SetValue(b, o, 0, rules).value;
    StandardSetValueEffect(b, o, 0, rules, Coord(0, 5));
    StandardSetValueEffect(b, o, 0, rules, Coord(5, 0));
    StandardSetValueEffect(b, o, 0, rules, Coord(1, 1));
    StandardSetValueEffect(b, o, 0, rules, Coord(5, 5));
    EliminatedClears(b.At(Coord(0, 5)), r.At(Coord(0, 5)), 0, Multiplicity(o, Coord(0, 5)));
    EliminatedClears(b.At(Coord(5, 0)), r.At(Coord(5, 0)), 0, Multiplicity(o, Coord(5, 0)));
    EliminatedClears(b.At(Coord(1, 1)), r.At(Coord(1, 1)), 0, Multiplicity(o, Coord(1, 1)));
    assert Multiplicity(o, Coord(5, 5)) == 0;
    assert r.At(Coord(5, 5)) == NewCell(NoValue);
  }
}
