/**
 * Finite directed graphs, given by one successor list per node.
 *
 * Successors that are not nodes of the graph are allowed and carry no edge: a
 * trajectory may name parents that were never observed.
 */
module Digraph {

  ghost predicate Edge<T>(g: map<T, seq<T>>, a: T, b: T) {
    a in g && b in g && b in g[a]
  }

  /** A non-empty sequence of nodes in which every step follows an edge. */
  ghost predicate IsWalk<T>(g: map<T, seq<T>>, p: seq<T>) {
    && |p| >= 1
    && (forall i :: 0 <= i < |p| ==> p[i] in g)
    && (forall i, j :: 0 <= i && j == i + 1 && j < |p| ==> Edge(g, p[i], p[j]))
  }

  ghost predicate WalkFromTo<T>(g: map<T, seq<T>>, p: seq<T>, a: T, b: T) {
    IsWalk(g, p) && p[0] == a && p[|p| - 1] == b
  }

  /** Reflexive and transitive reachability. */
  ghost predicate Reaches<T(!new)>(g: map<T, seq<T>>, a: T, b: T) {
    exists p :: WalkFromTo(g, p, a, b)
  }

  ghost predicate IsCycle<T>(g: map<T, seq<T>>, p: seq<T>) {
    IsWalk(g, p) && |p| >= 2 && p[0] == p[|p| - 1]
  }

  ghost predicate Acyclic<T(!new)>(g: map<T, seq<T>>) {
    forall p :: !IsCycle(g, p)
  }

  /** No node has a successor outside the graph. */
  ghost predicate Closed<T>(g: map<T, seq<T>>) {
    forall a, b :: a in g && b in g[a] ==> b in g
  }

  /** Every edge leads to a node listed strictly earlier. */
  ghost predicate EdgesPointBackwards<T(!new)>(g: map<T, seq<T>>, order: seq<T>) {
    forall i, b :: 0 <= i < |order| && Edge(g, order[i], b) ==> b in order[..i]
  }

  ghost predicate Distinct<T>(s: seq<T>) {
    forall i, j :: 0 <= i < j < |s| ==> s[i] != s[j]
  }

  ghost function Elements<T>(s: seq<T>): set<T> {
    set x | x in s
  }

  // ---------------------------------------------------------------- counting

  /** A list is free of duplicates exactly when it has as many elements as entries. */
  lemma {:induction false} DistinctExactly<T>(s: seq<T>)
    ensures Distinct(s) <==> |Elements(s)| == |s|
    ensures |Elements(s)| <= |s|
  {
    if s != [] {
      var rest := s[1..];
      DistinctExactly(rest);
      assert s == [s[0]] + rest;
      assert Elements(s) == {s[0]} + Elements(rest);
      if s[0] in rest {
        var i :| 0 <= i < |rest| && rest[i] == s[0];
        assert s[i + 1] == s[0];
      }
    }
  }

  lemma {:induction false} SubsetCount<T>(a: set<T>, b: set<T>)
    requires a <= b
    ensures |a| <= |b|
    ensures |a| == |b| ==> a == b
  {
    if x :| x in a {
      SubsetCount(a - {x}, b - {x});
      assert a == a - {x} + {x};
      assert b == b - {x} + {x};
    }
  }

  lemma SmallerLeavesSome<T>(a: set<T>, b: set<T>)
    requires a <= b && |a| != |b|
    ensures b - a != {}
  {
    SubsetCount(a, b);
    assert b == a + (b - a);
  }

  lemma Pigeonhole<T>(s: seq<T>, pool: set<T>) returns (i: nat, j: nat)
    requires |s| > |pool|
    requires forall k :: 0 <= k < |s| ==> s[k] in pool
    ensures i < j < |s| && s[i] == s[j]
  {
    if Distinct(s) {
      DistinctExactly(s);
      SubsetCount(Elements(s), pool);
      assert false;
    }
    i, j :| 0 <= i < j < |s| && s[i] == s[j];
  }

  lemma ElementsAppend<T>(s: seq<T>, x: T)
    ensures Elements(s + [x]) == Elements(s) + {x}
  {
  }

  lemma DistinctAppend<T>(s: seq<T>, x: T)
    requires Distinct(s) && x !in s
    ensures Distinct(s + [x])
  {
  }

  /** The elements of successive prefixes. */
  lemma ElementsTake<T>(s: seq<T>, i: nat)
    requires i < |s|
    ensures Elements(s[..i + 1]) == Elements(s[..i]) + {s[i]}
    ensures Distinct(s) ==> s[i] !in Elements(s[..i])
    ensures s[i] in Elements(s)
  {
    assert s[..i + 1] == s[..i] + [s[i]];
  }

  lemma ElementsTakeAll<T>(s: seq<T>)
    ensures s[..|s|] == s && Elements(s[..|s|]) == Elements(s)
  {
    assert s[..|s|] == s;
  }

  // ------------------------------------------------------------ reachability

  lemma ReachesSelf<T(!new)>(g: map<T, seq<T>>, a: T)
    requires a in g
    ensures Reaches(g, a, a)
  {
    assert WalkFromTo(g, [a], a, a);
  }

  lemma ReachesByEdgeFirst<T(!new)>(g: map<T, seq<T>>, a: T, b: T, c: T)
    requires Edge(g, a, b) && Reaches(g, b, c)
    ensures Reaches(g, a, c)
  {
    var p :| WalkFromTo(g, p, b, c);
    assert WalkFromTo(g, [a] + p, a, c);
  }

  lemma ReachesByEdgeLast<T(!new)>(g: map<T, seq<T>>, a: T, b: T, c: T)
    requires Reaches(g, a, b) && Edge(g, b, c)
    ensures Reaches(g, a, c)
  {
    var p :| WalkFromTo(g, p, a, b);
    assert WalkFromTo(g, p + [c], a, c);
  }

  lemma ReachesTransitive<T(!new)>(g: map<T, seq<T>>, a: T, b: T, c: T)
    requires Reaches(g, a, b) && Reaches(g, b, c)
    ensures Reaches(g, a, c)
  {
    var p :| WalkFromTo(g, p, a, b);
    var q :| WalkFromTo(g, q, b, c);
    assert WalkFromTo(g, p + q[1..], a, c);
  }

  /** A set closed under edges contains everything reachable from its members. */
  lemma ClosedSetKeepsReachable<T(!new)>(g: map<T, seq<T>>, s: set<T>, a: T, b: T)
    requires a in s && Reaches(g, a, b)
    requires forall x, y :: x in s && Edge(g, x, y) ==> y in s
    ensures b in s
  {
    var p :| WalkFromTo(g, p, a, b);
    ClosedSetKeepsWalk(g, s, p);
  }

  lemma {:induction false} ClosedSetKeepsWalk<T(!new)>(g: map<T, seq<T>>, s: set<T>, p: seq<T>)
    requires IsWalk(g, p) && p[0] in s
    requires forall x, y :: x in s && Edge(g, x, y) ==> y in s
    ensures p[|p| - 1] in s
  {
    if |p| > 1 {
      assert Edge(g, p[0], p[1]);
      ClosedSetKeepsWalk(g, s, p[1..]);
    }
  }

  // ------------------------------------------------------------------ cycles

  /** Listing every node once with all edges pointing backwards rules out cycles. */
  lemma OrderedMeansAcyclic<T(!new)>(g: map<T, seq<T>>, order: seq<T>)
    requires Distinct(order) && Elements(order) == g.Keys
    requires EdgesPointBackwards(g, order)
    ensures Acyclic(g)
  {
    forall p ensures !IsCycle(g, p) {
      if IsCycle(g, p) {
        assert p[0] in Elements(order);
        var k :| 0 <= k < |order| && order[k] == p[0];
        var m := WalkDescends(g, order, p, k);
        assert false;
      }
    }
  }

  lemma {:induction false} WalkDescends<T(!new)>(g: map<T, seq<T>>, order: seq<T>, p: seq<T>, k: nat) returns (m: nat)
    requires Distinct(order) && EdgesPointBackwards(g, order)
    requires IsWalk(g, p) && k < |order| && order[k] == p[0]
    ensures m < |order| && order[m] == p[|p| - 1]
    ensures m <= k && (|p| >= 2 ==> m < k)
  {
    if |p| == 1 {
      m := k;
    } else {
      assert Edge(g, order[k], p[1]);
      var k' :| 0 <= k' < k && order[k'] == p[1];
      m := WalkDescends(g, order, p[1..], k');
    }
  }

  ghost predicate StaysInside<T(!new)>(g: map<T, seq<T>>, s: set<T>, x: T) {
    exists y :: y in s && Edge(g, x, y)
  }

  lemma PartOfWalk<T(!new)>(g: map<T, seq<T>>, w: seq<T>, i: nat, j: nat)
    requires IsWalk(g, w) && i < j < |w|
    ensures IsWalk(g, w[i..j + 1])
  {
    var part := w[i..j + 1];
    forall a, b | 0 <= a && b == a + 1 && b < |part| ensures Edge(g, part[a], part[b]) {
      assert Edge(g, w[i + a], w[i + b]);
    }
  }

  lemma LongerWalk<T(!new)>(g: map<T, seq<T>>, w: seq<T>, y: T)
    requires IsWalk(g, w) && Edge(g, w[|w| - 1], y)
    ensures IsWalk(g, w + [y])
  {
  }

  /** A non-empty set in which every node has a successor inside the set holds a cycle. */
  lemma NoWayOutHasCycle<T(!new)>(g: map<T, seq<T>>, s: set<T>) returns (p: seq<T>)
    requires s != {}
    requires forall x :: x in s ==> StaysInside(g, s, x)
    ensures IsCycle(g, p) && forall k :: 0 <= k < |p| ==> p[k] in s
  {
    hide IsWalk, StaysInside;
    var w := LongWalk(g, s, |s| + 1);
    var i, j := Pigeonhole(w, s);
    p := w[i..j + 1];
    PartOfWalk(g, w, i, j);
  }

  lemma {:induction false} LongWalk<T(!new)>(g: map<T, seq<T>>, s: set<T>, n: nat) returns (w: seq<T>)
    requires s != {} && n >= 1
    requires forall x :: x in s ==> StaysInside(g, s, x)
    ensures IsWalk(g, w) && |w| == n && forall k :: 0 <= k < |w| ==> w[k] in s
  {
    hide IsWalk, StaysInside;
    if n == 1 {
      var x :| x in s;
      w := [x];
      OneNodeWalk(g, s, x);
    } else {
      var v := LongWalk(g, s, n - 1);
      var y := NextInside(g, s, v[n - 2]);
      LongerWalk(g, v, y);
      w := v + [y];
    }
  }

  lemma OneNodeWalk<T(!new)>(g: map<T, seq<T>>, s: set<T>, x: T)
    requires StaysInside(g, s, x)
    ensures IsWalk(g, [x])
  {
  }

  lemma NextInside<T(!new)>(g: map<T, seq<T>>, s: set<T>, x: T) returns (y: T)
    requires StaysInside(g, s, x)
    ensures y in s && Edge(g, x, y)
  {
    y :| y in s && Edge(g, x, y);
  }

  /** A node on a cycle reaches every node of that cycle, and is reached from it. */
  lemma CycleIsStronglyConnected<T(!new)>(g: map<T, seq<T>>, p: seq<T>, i: nat, j: nat)
    requires IsCycle(g, p) && i < |p| && j < |p|
    ensures Reaches(g, p[i], p[j])
  {
    assert WalkFromTo(g, p[i..], p[i], p[0]);
    assert WalkFromTo(g, p[..j + 1], p[0], p[j]);
    ReachesTransitive(g, p[i], p[0], p[j]);
  }
}
