/**
 * The greedy pairwise design, for any finite factor table and any feasibility predicate.
 *
 * Main results: `Design` (the loop ends, never fails, covers exactly the feasible pairs and
 * always takes a row of greatest gain) and `GreedyBound` (how fast the uncovered pairs
 * shrink against any cover by k feasible rows).
 */
module GreedyCover {
  import opened Wrappers
  import Ordering

  type Row = seq<(string, string)>

  type Pair = (string, string, string, string)

  datatype Factor = Factor(name: string, levels: seq<string>)

  /** All ordered pairs of columns of a row, with their levels. */
  function Pairs(row: Row): set<Pair> {
    set i, j | 0 <= i < j < |row| :: (row[i].0, row[i].1, row[j].0, row[j].1)
  }

  function PairsOf(rows: seq<Row>): set<Pair> {
    set r, q | r in rows && q in Pairs(r) :: q
  }

  /** A row picks one level of every factor, in table order. */
  predicate IsRow(table: seq<Factor>, row: Row) {
    |row| == |table| && forall i :: 0 <= i < |row| ==> row[i].0 == table[i].name && row[i].1 in table[i].levels
  }

  ghost predicate Feasible(table: seq<Factor>, valid: Row -> bool, row: Row) {
    IsRow(table, row) && valid(row)
  }

  // -------------------------------------------------------------- product

  function Prefixed(name: string, levels: seq<string>, rows: seq<Row>): seq<Row> {
    if levels == [] then []
    else seq(|rows|, i requires 0 <= i < |rows| => [(name, levels[0])] + rows[i]) + Prefixed(name, levels[1..], rows)
  }

  /** Every combination of levels. */
  function Product(table: seq<Factor>): seq<Row> {
    if table == [] then [[]] else Prefixed(table[0].name, table[0].levels, Product(table[1..]))
  }

  lemma {:induction false} PrefixedMembers(name: string, levels: seq<string>, rows: seq<Row>, row: Row)
    ensures row in Prefixed(name, levels, rows) <==>
            row != [] && row[0].0 == name && row[0].1 in levels && row[1..] in rows
  {
    if levels != [] {
      PrefixedMembers(name, levels[1..], rows, row);
      var first := seq(|rows|, i requires 0 <= i < |rows| => [(name, levels[0])] + rows[i]);
      assert row in first <==> row != [] && row[0] == (name, levels[0]) && row[1..] in rows by {
        if row in first {
          var i :| 0 <= i < |rows| && first[i] == row;
          assert row[1..] == rows[i];
        }
        if row != [] && row[0] == (name, levels[0]) && row[1..] in rows {
          var i :| 0 <= i < |rows| && rows[i] == row[1..];
          assert first[i] == row;
        }
      }
    }
  }

  /** The product lists exactly the rows of the table. */
  lemma {:induction false} ProductMembers(table: seq<Factor>, row: Row)
    ensures row in Product(table) <==> IsRow(table, row)
  {
    if table == [] {
      assert row in Product(table) <==> row == [];
    } else {
      PrefixedMembers(table[0].name, table[0].levels, Product(table[1..]), row);
      if row != [] {
        ProductMembers(table[1..], row[1..]);
        assert IsRow(table, row) <==> row[0].0 == table[0].name && row[0].1 in table[0].levels && IsRow(table[1..], row[1..]) by {
          assert forall i :: 0 <= i < |row| - 1 ==> row[1..][i] == row[i + 1];
          if row[0].0 == table[0].name && row[0].1 in table[0].levels && IsRow(table[1..], row[1..]) {
            forall i | 0 <= i < |row| ensures row[i].0 == table[i].name && row[i].1 in table[i].levels {
              if i > 0 { assert row[1..][i - 1] == row[i] && table[1..][i - 1] == table[i]; }
            }
          }
        }
      }
    }
  }

  /** The feasible rows, in product order. */
  method Candidates(table: seq<Factor>, valid: Row -> bool) returns (rows: seq<Row>)
    ensures forall r :: r in rows <==> Feasible(table, valid, r)
  {
    var all := Product(table);
    rows := [];
    for i := 0 to |all|
      invariant forall r :: r in rows <==> r in all[..i] && valid(r)
    {
      assert all[..i + 1] == all[..i] + [all[i]];
      if valid(all[i]) { rows := rows + [all[i]]; }
    }
    assert all[..|all|] == all;
    forall r ensures r in rows <==> Feasible(table, valid, r) { ProductMembers(table, r); }
  }

  /** The pair occurs in some feasible row. */
  ghost predicate FeasiblePair(table: seq<Factor>, valid: Row -> bool, q: Pair) {
    exists r :: Feasible(table, valid, r) && q in Pairs(r)
  }

  /** The independent recount of the pair universe. */
  method PairUniverse(table: seq<Factor>, valid: Row -> bool) returns (pairs: set<Pair>)
    ensures forall q :: q in pairs <==> FeasiblePair(table, valid, q)
  {
    var rows := Candidates(table, valid);
    pairs := {};
    for i := 0 to |rows|
      invariant pairs == PairsOf(rows[..i])
    {
      assert rows[..i + 1] == rows[..i] + [rows[i]];
      pairs := pairs + Pairs(rows[i]);
    }
    assert rows[..|rows|] == rows;
    forall q ensures q in pairs <==> FeasiblePair(table, valid, q) {
      if FeasiblePair(table, valid, q) {
        var r :| Feasible(table, valid, r) && q in Pairs(r);
        assert r in rows;
      }
    }
  }

  // ---------------------------------------------------------- greedy choice

  function Gain(row: Row, uncovered: set<Pair>): nat {
    |Pairs(row) * uncovered|
  }

  /** Tuple order on rows, used to break ties. */
  predicate RowBefore(a: Row, b: Row) {
    if b == [] then false
    else if a == [] then true
    else if a[0] == b[0] then RowBefore(a[1..], b[1..])
    else if a[0].0 == b[0].0 then Ordering.Before(a[0].1, b[0].1)
    else Ordering.Before(a[0].0, b[0].0)
  }

  lemma {:induction false} RowBeforeIsTotal(a: Row, b: Row)
    ensures a == b || RowBefore(a, b) || RowBefore(b, a)
  {
    if a != [] && b != [] {
      Ordering.BeforeIsTotal(a[0].0, b[0].0);
      Ordering.BeforeIsTotal(a[0].1, b[0].1);
      RowBeforeIsTotal(a[1..], b[1..]);
      assert a == [a[0]] + a[1..] && b == [b[0]] + b[1..];
    }
  }

  lemma {:induction false} RowBeforeIsTransitive(a: Row, b: Row, c: Row)
    ensures RowBefore(a, b) && RowBefore(b, c) ==> RowBefore(a, c)
  {
    if a != [] && b != [] && c != [] {
      RowBeforeIsTransitive(a[1..], b[1..], c[1..]);
      Ordering.BeforeIsTransitive(a[0].0, b[0].0, c[0].0);
      Ordering.BeforeIsTransitive(a[0].1, b[0].1, c[0].1);
      Ordering.BeforeIsTotal(a[0].0, c[0].0);
      Ordering.BeforeIsTotal(a[0].1, c[0].1);
      Ordering.BeforeIsTotal(a[0].0, b[0].0);
      Ordering.BeforeIsTotal(b[0].0, c[0].0);
      Ordering.BeforeIsTotal(a[0].1, b[0].1);
      Ordering.BeforeIsTotal(b[0].1, c[0].1);
    }
  }

  /** Rows over the same columns agree up to some column, where the first has the smaller level. */
  ghost predicate DiffersAt(a: Row, b: Row, k: nat) {
    k < |a| && k < |b| && a[..k] == b[..k] && Ordering.Before(a[k].1, b[k].1)
  }

  lemma {:induction false} RowBeforeExactly(a: Row, b: Row)
    requires |a| == |b| && forall i :: 0 <= i < |a| ==> a[i].0 == b[i].0
    ensures RowBefore(a, b) <==> exists k: nat :: DiffersAt(a, b, k)
  {
    if a != [] {
      RowBeforeExactly(a[1..], b[1..]);
      Ordering.BeforeIsTotal(a[0].1, b[0].1);
      if RowBefore(a, b) {
        if a[0] == b[0] {
          var k: nat :| DiffersAt(a[1..], b[1..], k);
          assert a[..k + 1] == [a[0]] + a[1..][..k] && b[..k + 1] == [b[0]] + b[1..][..k];
          assert DiffersAt(a, b, k + 1);
        } else {
          assert DiffersAt(a, b, 0);
        }
      }
      if k: nat :| DiffersAt(a, b, k) && k > 0 {
        assert a[..k][0] == b[..k][0] && a[..k][1..] == a[1..][..k - 1] && b[..k][1..] == b[1..][..k - 1];
        assert DiffersAt(a[1..], b[1..], k - 1);
      }
    }
  }

  /** The key (gain, row) of a is smaller than that of b. */
  predicate KeyBelow(a: Row, b: Row, uncovered: set<Pair>) {
    Gain(a, uncovered) < Gain(b, uncovered) || (Gain(a, uncovered) == Gain(b, uncovered) && RowBefore(a, b))
  }

  /** Scans the candidates for the greatest key; every other candidate's key is smaller. */
  method PickBest(candidates: seq<Row>, uncovered: set<Pair>) returns (best: Row)
    requires candidates != []
    ensures best in candidates
    ensures forall c :: c in candidates ==> c == best || KeyBelow(c, best, uncovered)
  {
    hide RowBefore, Gain;
    best := candidates[0];
    for i := 1 to |candidates|
      invariant best in candidates
      invariant forall k :: 0 <= k < i ==> candidates[k] == best || KeyBelow(candidates[k], best, uncovered)
    {
      var c := candidates[i];
      RowBeforeIsTotal(best, c);
      if KeyBelow(best, c, uncovered) {
        forall k | 0 <= k < i ensures candidates[k] == c || KeyBelow(candidates[k], c, uncovered) {
          RowBeforeIsTransitive(candidates[k], best, c);
        }
        best := c;
      }
    }
  }

  function Remove(rows: seq<Row>, r: Row): seq<Row> {
    if rows == [] then [] else if rows[0] == r then rows[1..] else [rows[0]] + Remove(rows[1..], r)
  }

  lemma {:induction false} RemoveMembers(rows: seq<Row>, r: Row, x: Row)
    ensures x in Remove(rows, r) ==> x in rows
    ensures x in rows && x != r ==> x in Remove(rows, r)
  {
    if rows != [] {
      RemoveMembers(rows[1..], r, x);
    }
  }

  /** Every selected row has a positive gain that no feasible row beats. */
  ghost predicate IsGreedy(table: seq<Factor>, valid: Row -> bool, universe: set<Pair>, selected: seq<Row>) {
    && (forall r :: r in selected ==> Feasible(table, valid, r))
    && forall i :: 0 <= i < |selected| ==> BestAt(table, valid, universe - PairsOf(selected[..i]), selected[i])
  }

  ghost predicate BestAt(table: seq<Factor>, valid: Row -> bool, uncovered: set<Pair>, best: Row) {
    Gain(best, uncovered) > 0 && forall r :: Feasible(table, valid, r) ==> Gain(r, uncovered) <= Gain(best, uncovered)
  }

  lemma CoveredByOneMore(selected: seq<Row>, best: Row)
    ensures PairsOf(selected + [best]) == PairsOf(selected) + Pairs(best)
  {
  }

  /** What every iteration of the greedy loop keeps. */
  ghost predicate LoopState(table: seq<Factor>, valid: Row -> bool, universe: set<Pair>,
                            candidates: seq<Row>, uncovered: set<Pair>, selected: seq<Row>) {
    && uncovered == universe - PairsOf(selected)
    && (forall r :: r in candidates ==> Feasible(table, valid, r))
    && (forall r :: Feasible(table, valid, r) ==> r in candidates || r in selected)
    && IsGreedy(table, valid, universe, selected)
  }

  lemma UncoveredHasCandidate(table: seq<Factor>, valid: Row -> bool, universe: set<Pair>,
                              candidates: seq<Row>, uncovered: set<Pair>, selected: seq<Row>) returns (r: Row)
    requires LoopState(table, valid, universe, candidates, uncovered, selected) && uncovered != {}
    requires forall q :: q in universe ==> FeasiblePair(table, valid, q)
    ensures r in candidates && Gain(r, uncovered) > 0
  {
    hide Feasible, Pairs, IsGreedy;
    var q :| q in uncovered;
    assert FeasiblePair(table, valid, q);
    r :| Feasible(table, valid, r) && q in Pairs(r);
    assert q in Pairs(r) * uncovered;
  }

  /** Rows already taken have nothing left to gain. */
  lemma SelectedGainNothing(universe: set<Pair>, selected: seq<Row>, x: Row)
    requires x in selected
    ensures Gain(x, universe - PairsOf(selected)) == 0
  {
    hide Pairs;
    assert Pairs(x) * (universe - PairsOf(selected)) == {};
  }

  /** While pairs are uncovered the best candidate covers some, and no feasible row covers more. */
  lemma BestIsGreedy(table: seq<Factor>, valid: Row -> bool, universe: set<Pair>,
                     candidates: seq<Row>, uncovered: set<Pair>, selected: seq<Row>, best: Row)
    requires LoopState(table, valid, universe, candidates, uncovered, selected) && uncovered != {}
    requires forall q :: q in universe ==> FeasiblePair(table, valid, q)
    requires best in candidates && forall c :: c in candidates ==> c == best || KeyBelow(c, best, uncovered)
    ensures BestAt(table, valid, uncovered, best)
  {
    hide Feasible, Gain, Pairs, PairsOf, RowBefore, IsGreedy;
    var r := UncoveredHasCandidate(table, valid, universe, candidates, uncovered, selected);
    forall x | Feasible(table, valid, x) ensures Gain(x, uncovered) <= Gain(best, uncovered) {
      if x in selected { SelectedGainNothing(universe, selected, x); }
    }
  }

  lemma GreedyOneMore(table: seq<Factor>, valid: Row -> bool, universe: set<Pair>, selected: seq<Row>, best: Row)
    requires IsGreedy(table, valid, universe, selected) && Feasible(table, valid, best)
    requires BestAt(table, valid, universe - PairsOf(selected), best)
    ensures IsGreedy(table, valid, universe, selected + [best])
  {
    hide Feasible, Gain, Pairs, PairsOf, BestAt;
    var longer := selected + [best];
    forall i | 0 <= i < |longer| ensures BestAt(table, valid, universe - PairsOf(longer[..i]), longer[i]) {
      if i < |selected| {
        assert longer[..i] == selected[..i];
      } else {
        assert longer[..i] == selected;
      }
    }
  }

  lemma ChoiceKeepsState(table: seq<Factor>, valid: Row -> bool, universe: set<Pair>,
                         candidates: seq<Row>, uncovered: set<Pair>, selected: seq<Row>, best: Row)
    requires LoopState(table, valid, universe, candidates, uncovered, selected)
    requires best in candidates && BestAt(table, valid, uncovered, best)
    ensures LoopState(table, valid, universe, Remove(candidates, best), uncovered - Pairs(best) * uncovered, selected + [best])
    ensures Pairs(best) * uncovered != {} && uncovered - Pairs(best) * uncovered < uncovered
  {
    hide Feasible, Pairs, PairsOf, IsGreedy;
    GreedyOneMore(table, valid, universe, selected, best);
    CoveredByOneMore(selected, best);
    forall r ensures r in Remove(candidates, best) ==> r in candidates
            ensures r in candidates && r != best ==> r in Remove(candidates, best) {
      RemoveMembers(candidates, best, r);
    }
    assert Gain(best, uncovered) > 0;
    var q :| q in Pairs(best) * uncovered;
  }

  lemma InitialState(table: seq<Factor>, valid: Row -> bool, candidates: seq<Row>)
    requires forall r :: r in candidates <==> Feasible(table, valid, r)
    ensures LoopState(table, valid, PairsOf(candidates), candidates, PairsOf(candidates), [])
    ensures forall q :: q in PairsOf(candidates) <==> FeasiblePair(table, valid, q)
  {
    hide Feasible, Pairs, Gain;
    assert PairsOf([]) == {};
    forall q ensures q in PairsOf(candidates) <==> FeasiblePair(table, valid, q) {
      if q in PairsOf(candidates) {
        var r :| r in candidates && q in Pairs(r);
        assert Feasible(table, valid, r);
      }
      if FeasiblePair(table, valid, q) {
        var r :| Feasible(table, valid, r) && q in Pairs(r);
        assert r in candidates;
      }
    }
  }

  lemma FinalState(table: seq<Factor>, valid: Row -> bool, universe: set<Pair>, candidates: seq<Row>, selected: seq<Row>)
    requires LoopState(table, valid, universe, candidates, {}, selected)
    requires forall q :: q in universe <==> FeasiblePair(table, valid, q)
    ensures PairsOf(selected) == universe && IsGreedy(table, valid, PairsOf(selected), selected)
  {
    hide Feasible, Pairs, Gain, IsGreedy;
    forall q | q in PairsOf(selected) ensures q in universe {
      var r :| r in selected && q in Pairs(r);
      SelectedAreFeasible(table, valid, universe, selected, r);
      assert FeasiblePair(table, valid, q);
    }
    forall q | q in universe ensures q in PairsOf(selected) {
      assert q !in universe - PairsOf(selected);
    }
    assert PairsOf(selected) == universe;
  }

  lemma SelectedAreFeasible(table: seq<Factor>, valid: Row -> bool, universe: set<Pair>, selected: seq<Row>, r: Row)
    requires IsGreedy(table, valid, universe, selected) && r in selected
    ensures Feasible(table, valid, r)
  {
  }

  /** The greedy design. It always ends with every feasible pair covered, and nothing else. */
  method Design(table: seq<Factor>, valid: Row -> bool) returns (r: Option<seq<Row>>)
    ensures r.Some?
    ensures forall q :: q in PairsOf(r.value) <==> FeasiblePair(table, valid, q)
    ensures IsGreedy(table, valid, PairsOf(r.value), r.value)
  {
    hide *;
    var candidates := Candidates(table, valid);
    var uncovered := PairsOf(candidates);
    ghost var universe := uncovered;
    var selected: seq<Row> := [];
    InitialState(table, valid, candidates);
    while uncovered != {}
      invariant LoopState(table, valid, universe, candidates, uncovered, selected)
      decreases uncovered
    {
      ghost var some := UncoveredHasCandidate(table, valid, universe, candidates, uncovered, selected);
      var best := PickBest(candidates, uncovered);
      BestIsGreedy(table, valid, universe, candidates, uncovered, selected, best);
      ChoiceKeepsState(table, valid, universe, candidates, uncovered, selected, best);
      var newlyCovered := Pairs(best) * uncovered;
      if newlyCovered == {} { return None; }
      selected := selected + [best];
      uncovered := uncovered - newlyCovered;
      candidates := Remove(candidates, best);
    }
    FinalState(table, valid, universe, candidates, selected);
    return Some(selected);
  }

  // --------------------------------------------------------- greedy bound

  /** The uncovered pairs before the i-th choice. */
  ghost function UncoveredAt(universe: set<Pair>, selected: seq<Row>, i: nat): set<Pair>
    requires i <= |selected|
  {
    universe - PairsOf(selected[..i])
  }

  lemma UnionCount(a: set<Pair>, b: set<Pair>)
    ensures |a + b| <= |a| + |b|
  {
    assert |a + b| == |a| + |b| - |a * b|;
  }

  lemma {:induction false} CoverGain(cover: seq<Row>, uncovered: set<Pair>, best: nat)
    requires forall r :: r in cover ==> Gain(r, uncovered) <= best
    ensures |PairsOf(cover) * uncovered| <= |cover| * best
  {
    hide Pairs, PairsOf;
    if cover == [] {
      EmptyCovers();
      assert PairsOf(cover) * uncovered == {};
    } else {
      var n := |cover| - 1;
      CoverGain(cover[..n], uncovered, best);
      assert cover == cover[..n] + [cover[n]];
      CoveredByOneMore(cover[..n], cover[n]);
      assert cover[n] in cover;
      var before, last := PairsOf(cover[..n]) * uncovered, Pairs(cover[n]) * uncovered;
      assert PairsOf(cover) * uncovered == before + last;
      UnionCount(before, last);
      assert (n + 1) * best == n * best + best;
    }
  }

  lemma EmptyCovers()
    ensures PairsOf([]) == {}
  {
  }

  /** Each choice removes at least a k-th of what is uncovered, if some k feasible rows cover it all. */
  lemma EachChoiceGains(table: seq<Factor>, valid: Row -> bool, universe: set<Pair>, selected: seq<Row>, cover: seq<Row>, i: nat)
    requires IsGreedy(table, valid, universe, selected) && i < |selected|
    requires universe <= PairsOf(cover) && forall r :: r in cover ==> Feasible(table, valid, r)
    ensures |UncoveredAt(universe, selected, i)| <= |cover| * Gain(selected[i], UncoveredAt(universe, selected, i))
    ensures |UncoveredAt(universe, selected, i + 1)| == |UncoveredAt(universe, selected, i)| - Gain(selected[i], UncoveredAt(universe, selected, i))
  {
    hide Feasible, Pairs, PairsOf;
    var now, next := UncoveredAt(universe, selected, i), UncoveredAt(universe, selected, i + 1);
    assert BestAt(table, valid, now, selected[i]);
    CoverGain(cover, now, Gain(selected[i], now));
    assert PairsOf(cover) * now == now;
    assert selected[..i + 1] == selected[..i] + [selected[i]];
    CoveredByOneMore(selected[..i], selected[i]);
    assert next == now - Pairs(selected[i]) * now;
  }

  function Power(b: nat, e: nat): nat {
    if e == 0 then 1 else b * Power(b, e - 1)
  }

  lemma Shrinks(k: nat, now: nat, gain: nat, next: nat)
    requires k >= 1 && now <= k * gain && next == now - gain
    ensures k * next <= (k - 1) * now
  {
    assert k * next == k * now - k * gain;
    assert (k - 1) * now == k * now - now;
  }

  lemma Chain(k: nat, p: nat, q: nat, now: nat, next: nat, all: nat)
    requires k >= 1 && p * now <= q * all && k * next <= (k - 1) * now
    ensures (k * p) * next <= ((k - 1) * q) * all
  {
    calc {
      (k * p) * next;
    ==
      p * (k * next);
    <= { Scale(p, k * next, (k - 1) * now); }
      p * ((k - 1) * now);
    ==
      (k - 1) * (p * now);
    <= { Scale(k - 1, p * now, q * all); }
      (k - 1) * (q * all);
    ==
      ((k - 1) * q) * all;
    }
  }

  lemma Scale(c: nat, a: nat, b: nat)
    requires a <= b
    ensures c * a <= c * b
  {
  }

  /** After t choices at most (1 - 1/k)^t of the feasible pairs are uncovered, for the size k of any feasible cover. */
  lemma {:induction false} GreedyBound(table: seq<Factor>, valid: Row -> bool, universe: set<Pair>, selected: seq<Row>, cover: seq<Row>, t: nat)
    requires IsGreedy(table, valid, universe, selected) && t <= |selected|
    requires universe <= PairsOf(cover) && (forall r :: r in cover ==> Feasible(table, valid, r)) && cover != []
    ensures Power(|cover|, t) * |UncoveredAt(universe, selected, t)| <= Power(|cover| - 1, t) * |universe|
  {
    hide IsGreedy, PairsOf, Feasible, Gain;
    if t == 0 {
      NothingCoveredYet(universe, selected);
    } else {
      GreedyBound(table, valid, universe, selected, cover, t - 1);
      EachChoiceGains(table, valid, universe, selected, cover, t - 1);
      var k, now, next := |cover|, |UncoveredAt(universe, selected, t - 1)|, |UncoveredAt(universe, selected, t)|;
      Shrinks(k, now, Gain(selected[t - 1], UncoveredAt(universe, selected, t - 1)), next);
      Chain(k, Power(k, t - 1), Power(k - 1, t - 1), now, next, |universe|);
    }
  }

  /** Any t with (k-1)^t * |universe| < k^t bounds the number of selected rows. */
  lemma RowCountBound(table: seq<Factor>, valid: Row -> bool, universe: set<Pair>, selected: seq<Row>, cover: seq<Row>, t: nat)
    requires IsGreedy(table, valid, universe, selected)
    requires universe <= PairsOf(cover) && (forall r :: r in cover ==> Feasible(table, valid, r)) && cover != []
    requires Power(|cover| - 1, t) * |universe| < Power(|cover|, t)
    ensures |selected| <= t
  {
    hide PairsOf, Feasible, Power;
    if |selected| > t {
      GreedyBound(table, valid, universe, selected, cover, t);
      ChoiceFindsSome(table, valid, universe, selected, t);
      Scale(Power(|cover|, t), 1, |UncoveredAt(universe, selected, t)|);
    }
  }

  lemma ChoiceFindsSome(table: seq<Factor>, valid: Row -> bool, universe: set<Pair>, selected: seq<Row>, i: nat)
    requires IsGreedy(table, valid, universe, selected) && i < |selected|
    ensures |UncoveredAt(universe, selected, i)| >= 1
  {
    hide Feasible, Pairs, PairsOf;
    var now := UncoveredAt(universe, selected, i);
    assert BestAt(table, valid, now, selected[i]);
    var q :| q in Pairs(selected[i]) * now;
    assert q in now;
  }

  lemma NothingCoveredYet(universe: set<Pair>, selected: seq<Row>)
    ensures UncoveredAt(universe, selected, 0) == universe
  {
    assert PairsOf(selected[..0]) == {};
  }

  // ------------------------------------------------------- the default table

  const DEFAULT_FACTORS: seq<Factor> := [
    Factor("source", ["model", "tool", "retrieval", "memory", "sensor"]),
    Factor("transition", ["summarize", "merge", "delegate", "invoke", "replay"]),
    Factor("topology", ["single", "linear_chain", "fan_out", "fan_in", "multi_session"]),
    Factor("timing", ["immediate", "stale", "replayed", "low_and_slow"]),
    Factor("guard_state", ["bounded", "incomplete", "degraded", "forged_telemetry"]),
    Factor("boundary_relation", ["non_expanding", "expansion_attempt"])
  ]

  function Level(row: Row, name: string): string {
    if row == [] then "" else if row[0].0 == name then row[0].1 else Level(row[1..], name)
  }

  /** Combinations that have a coherent causal interpretation. */
  predicate IsCoherent(row: Row) {
    var source, transition, topology, timing := Level(row, "source"), Level(row, "transition"), Level(row, "topology"), Level(row, "timing");
    && (transition == "merge" <==> topology == "fan_in")
    && !(transition == "delegate" && topology == "single")
    && (timing == "replayed" ==> transition == "replay")
    && (transition == "replay" ==> timing == "replayed" || timing == "stale")
    && !(source == "sensor" && (transition == "delegate" || transition == "replay"))
  }

  /** A row of the default table, by position: one listed level a column, and none of the six exclusions. */
  ghost predicate Plausible(row: Row) {
    && |row| == 6
    && row[0].0 == "source" && row[0].1 in ["model", "tool", "retrieval", "memory", "sensor"]
    && row[1].0 == "transition" && row[1].1 in ["summarize", "merge", "delegate", "invoke", "replay"]
    && row[2].0 == "topology" && row[2].1 in ["single", "linear_chain", "fan_out", "fan_in", "multi_session"]
    && row[3].0 == "timing" && row[3].1 in ["immediate", "stale", "replayed", "low_and_slow"]
    && row[4].0 == "guard_state" && row[4].1 in ["bounded", "incomplete", "degraded", "forged_telemetry"]
    && row[5].0 == "boundary_relation" && row[5].1 in ["non_expanding", "expansion_attempt"]
    && !(row[1].1 == "merge" && row[2].1 != "fan_in")
    && !(row[2].1 == "fan_in" && row[1].1 != "merge")
    && !(row[1].1 == "delegate" && row[2].1 == "single")
    && !(row[3].1 == "replayed" && row[1].1 != "replay")
    && !(row[1].1 == "replay" && row[3].1 != "replayed" && row[3].1 != "stale")
    && !(row[0].1 == "sensor" && (row[1].1 == "delegate" || row[1].1 == "replay"))
  }

  /** The row has level x in column i and level y in a later column j. */
  ghost predicate Shows(row: Row, left: string, x: string, right: string, y: string) {
    exists i, j :: 0 <= i < j < |row| && row[i] == (left, x) && row[j] == (right, y)
  }

  ghost predicate Shown(rows: seq<Row>, left: string, x: string, right: string, y: string) {
    exists r :: r in rows && Shows(r, left, x, right, y)
  }

  ghost predicate CanBeShown(left: string, x: string, right: string, y: string) {
    exists r :: Plausible(r) && Shows(r, left, x, right, y)
  }

  lemma PairsMeans(row: Row, left: string, x: string, right: string, y: string)
    ensures (left, x, right, y) in Pairs(row) <==> Shows(row, left, x, right, y)
  {
  }

  lemma {:induction false} LevelSkips(row: Row, name: string, k: nat)
    requires k < |row| && row[k].0 == name && forall i :: 0 <= i < k ==> row[i].0 != name
    ensures Level(row, name) == row[k].1
  {
    if k > 0 { LevelSkips(row[1..], name, k - 1); }
  }

  lemma RowsExactly(row: Row)
    ensures IsRow(DEFAULT_FACTORS, row) <==>
            && |row| == 6 && forall i :: 0 <= i < 6 ==> row[i].0 == DEFAULT_FACTORS[i].name && row[i].1 in DEFAULT_FACTORS[i].levels
  {
  }

  lemma CoherentExactly(row: Row)
    requires |row| == 6
    requires row[0].0 == "source" && row[1].0 == "transition" && row[2].0 == "topology" && row[3].0 == "timing"
    ensures IsCoherent(row) <==>
            && (row[1].1 == "merge" <==> row[2].1 == "fan_in")
            && !(row[1].1 == "delegate" && row[2].1 == "single")
            && (row[3].1 == "replayed" ==> row[1].1 == "replay")
            && (row[1].1 == "replay" ==> row[3].1 in {"replayed", "stale"})
            && (row[0].1 == "sensor" ==> row[1].1 !in {"delegate", "replay"})
  {
    hide Level;
    LevelSkips(row, "source", 0);
    LevelSkips(row, "transition", 1);
    LevelSkips(row, "topology", 2);
    LevelSkips(row, "timing", 3);
  }

  lemma PlausibleExactly(row: Row)
    ensures Feasible(DEFAULT_FACTORS, IsCoherent, row) <==> Plausible(row)
  {
    hide IsCoherent, IsRow;
    RowsExactly(row);
    if IsRow(DEFAULT_FACTORS, row) { CoherentExactly(row); }
  }

  /** The default design: its pairs are exactly those the independent recount finds, and its rows show just what plausible rows show. */
  method DefaultDesign() returns (rows: seq<Row>, universe: set<Pair>)
    ensures PairsOf(rows) == universe
    ensures forall q :: q in universe <==> FeasiblePair(DEFAULT_FACTORS, IsCoherent, q)
    ensures IsGreedy(DEFAULT_FACTORS, IsCoherent, universe, rows)
    ensures forall r :: r in rows ==> Plausible(r)
    ensures forall left, x, right, y ::
              Shown(rows, left, x, right, y) <==> CanBeShown(left, x, right, y)
  {
    hide *;
    var design := Design(DEFAULT_FACTORS, IsCoherent);
    rows := design.value;
    universe := PairUniverse(DEFAULT_FACTORS, IsCoherent);
    assert forall q :: q in PairsOf(rows) <==> q in universe;
    assert PairsOf(rows) == universe;
    forall r | r in rows ensures Plausible(r) {
      SelectedAreFeasible(DEFAULT_FACTORS, IsCoherent, universe, rows, r);
      PlausibleExactly(r);
    }
    forall left, x, right, y
      ensures Shown(rows, left, x, right, y) <==> CanBeShown(left, x, right, y)
    {
      ShownExactly(rows, universe, left, x, right, y);
    }
  }

  lemma ShownExactly(rows: seq<Row>, universe: set<Pair>, left: string, x: string, right: string, y: string)
    requires PairsOf(rows) == universe
    requires forall q :: q in universe <==> FeasiblePair(DEFAULT_FACTORS, IsCoherent, q)
    ensures Shown(rows, left, x, right, y) <==> CanBeShown(left, x, right, y)
  {
    hide Pairs, Shows, Plausible, Feasible;
    forall r ensures (left, x, right, y) in Pairs(r) <==> Shows(r, left, x, right, y) { PairsMeans(r, left, x, right, y); }
    forall r ensures Feasible(DEFAULT_FACTORS, IsCoherent, r) <==> Plausible(r) { PlausibleExactly(r); }
    assert Shown(rows, left, x, right, y) <==> (left, x, right, y) in universe;
    assert CanBeShown(left, x, right, y) <==> FeasiblePair(DEFAULT_FACTORS, IsCoherent, (left, x, right, y));
  }
}
