/**
 * The ancestor closure of a target record, in admission order.
 *
 * Main results: `ClosureIsUnique` - for an admitted history the computed tuple is the one
 * list of exactly the ancestors in admission order - and `ClosureEnds`.
 */
module AncestryCandidate {
  import opened Digraph
  import opened Worklist
  import opened AncestryRecords

  /** The records whose identifier is in the set, in order. */
  function Select(records: seq<Record>, ids: set<string>): seq<Record> {
    if records == [] then []
    else
      var n := |records| - 1;
      Select(records[..n], ids) + if records[n].id in ids then [records[n]] else []
  }

  ghost function Ancestors(records: seq<Record>, target: string): set<string> {
    set x | x in Ids(records) && Reaches(ParentGraph(records), target, x)
  }

  ghost function ExactClosure(records: seq<Record>, target: string): seq<Record> {
    Select(records, Ancestors(records, target))
  }

  /** Records appear in admission order, each at most once. */
  ghost predicate InAdmissionOrder(records: seq<Record>, c: seq<Record>) {
    && (forall i :: 0 <= i < |c| ==> c[i].id in Ids(records))
    && (forall i, j :: 0 <= i < j < |c| ==> IndexOf(records, c[i].id) < IndexOf(records, c[j].id))
  }

  lemma {:induction false} SelectMembers(records: seq<Record>, ids: set<string>, r: Record)
    ensures r in Select(records, ids) <==> r in records && r.id in ids
  {
    if records != [] {
      var n := |records| - 1;
      SelectMembers(records[..n], ids, r);
      assert r in records <==> r in records[..n] || r == records[n];
    }
  }

  lemma {:induction false} IndexInPrefix(records: seq<Record>, n: nat, x: string)
    requires n <= |records| && x in Ids(records[..n])
    ensures x in Ids(records) && IndexOf(records, x) == IndexOf(records[..n], x)
  {
    var i := IndexOf(records[..n], x);
    assert records[i] == records[..n][i] && records[i] in records;
    assert forall j :: 0 <= j < i ==> records[j] == records[..n][j];
  }

  lemma {:induction false} SelectOrder(id: Identity, records: seq<Record>, ids: set<string>)
    requires Admitted(id, records)
    ensures InAdmissionOrder(records, Select(records, ids))
  {
    hide Admitted, IndexOf;
    if records != [] {
      var n := |records| - 1;
      var shorter := records[..n];
      AdmittedPrefix(id, records, n);
      IdsDistinct(id, records);
      SelectOrder(id, shorter, ids);
      var before, c := Select(shorter, ids), Select(records, ids);
      forall i | 0 <= i < |before|
        ensures before[i].id in Ids(records) && IndexOf(records, before[i].id) == IndexOf(shorter, before[i].id) < n
      {
        IndexInPrefix(records, n, before[i].id);
      }
      assert records[n] in records && IndexOf(records, records[n].id) == n;
      assert forall i :: 0 <= i < |before| ==> c[i] == before[i];
    }
  }

  /** Two lists of admitted records in admission order with the same members are the same list. */
  lemma {:induction false} OrderedListUnique(records: seq<Record>, a: seq<Record>, b: seq<Record>)
    requires InAdmissionOrder(records, a) && InAdmissionOrder(records, b)
    requires forall r :: r in a <==> r in b
    ensures a == b
  {
    assert a != [] ==> a[0] in b;
    assert b != [] ==> b[0] in a;
    if a != [] {
      var k :| 0 <= k < |b| && b[k] == a[0];
      var m :| 0 <= m < |a| && a[m] == b[0];
      assert a[0] == b[0];
      forall r ensures r in a[1..] <==> r in b[1..] {
        assert r in a[1..] <==> r in a && r != a[0];
        assert r in b[1..] <==> r in b && r != b[0];
      }
      OrderedListUnique(records, a[1..], b[1..]);
    }
  }

  /** The exact closure of a retained target, described without computing it. */
  ghost predicate IsClosure(records: seq<Record>, target: string, c: seq<Record>) {
    && InAdmissionOrder(records, c)
    && forall r :: r in c <==> r in records && Reaches(ParentGraph(records), target, r.id)
  }

  /** The computed tuple is a closure, and the only one. */
  lemma ClosureIsUnique(id: Identity, records: seq<Record>, target: string)
    requires Admitted(id, records) && target in Ids(records)
    ensures IsClosure(records, target, ExactClosure(records, target))
    ensures forall d :: IsClosure(records, target, d) ==> d == ExactClosure(records, target)
  {
    var g, c := ParentGraph(records), ExactClosure(records, target);
    var ids := Ancestors(records, target);
    SelectOrder(id, records, ids);
    forall r ensures r in c <==> r in records && Reaches(g, target, r.id) { SelectMembers(records, ids, r); }
    forall d | IsClosure(records, target, d) ensures d == c { OrderedListUnique(records, d, c); }
  }

  /** Any closure of a retained target starts with the root and ends with the target. */
  lemma ClosureEnds(id: Identity, records: seq<Record>, target: string, c: seq<Record>)
    requires Admitted(id, records) && target in Ids(records) && IsClosure(records, target, c)
    ensures c != [] && c[0] == records[0] && c[|c| - 1] == records[IndexOf(records, target)]
  {
    IdsDistinct(id, records);
    var t := records[IndexOf(records, target)];
    ReachesSelf(ParentGraph(records), target);
    assert t in records && t in c;
    EveryRecordReachesRoot(id, records, IndexOf(records, target));
    assert records[0] in records && records[0] in c;
    var first, last := c[0], c[|c| - 1];
    assert first in c && last in c;
    AncestorsDominate(id, records, target, last.id);
    assert IndexOf(records, records[0].id) == 0;
  }

  /** The closure computed beside the store: empty for an unknown target. */
  method Closure(records: seq<Record>, target: string, ghost id: Identity) returns (c: seq<Record>)
    requires Admitted(id, records)
    ensures target !in Ids(records) ==> c == []
    ensures target in Ids(records) ==> c == ExactClosure(records, target)
  {
    if target !in Ids(records) {
      return [];
    }
    GraphOfHistory(id, records);
    var ids := AncestorClosure(ParentGraph(records), target);
    assert ids == Ancestors(records, target) by {
      forall x | x in ids ensures x in Ids(records) { AncestorsDominate(id, records, target, x); }
    }
    c := Select(records, ids);
  }
}
