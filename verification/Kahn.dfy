/**
 * Cycle detection by repeatedly removing nodes without remaining parents.
 *
 * The graph maps each observed event to its declared parents; parents that were
 * not observed are ignored.
 */
module Kahn {
  import opened Digraph
  import opened Ordering

  function ChildrenOf(g: map<nat, seq<nat>>, p: nat): set<nat> {
    set c | c in g && p in g[c]
  }

  /** The observed parents of c that are not yet removed. */
  function Remaining(g: map<nat, seq<nat>>, c: nat, removed: set<nat>): set<nat>
    requires c in g
  {
    set p | p in g[c] && p in g && p !in removed
  }

  /** c is recorded as a child of p. */
  predicate Linked(children: map<nat, set<nat>>, p: nat, c: nat) {
    p in children && c in children[p]
  }

  function Kids(children: map<nat, set<nat>>, p: nat): set<nat> {
    if p in children then children[p] else {}
  }

  /** Accumulates one event: its identifier joins the child set of every observed parent. */
  method AddEvent(g: map<nat, seq<nat>>, c: nat, children: map<nat, set<nat>>, indegree: map<nat, nat>)
    returns (children': map<nat, set<nat>>, indegree': map<nat, nat>)
    requires c in g && Distinct(g[c])
    requires c in indegree && indegree[c] == 0
    requires forall p :: p in children ==> children[p] != {}
    ensures forall p :: p in children' ==> children'[p] != {}
    ensures forall p, d :: Linked(children', p, d) <==> Linked(children, p, d) || (d == c && p in g && p in g[c])
    ensures indegree'.Keys == indegree.Keys && indegree'[c] == |Remaining(g, c, {})|
    ensures forall d :: d in indegree && d != c ==> indegree'[d] == indegree[d]
  {
    hide Distinct, Linked, Remaining, Kids;
    children', indegree' := children, indegree;
    ghost var counted: set<nat>, seen: set<nat> := {}, {};
    for j := 0 to |g[c]|
      invariant forall p :: p in children' ==> children'[p] != {}
      invariant seen == Elements(g[c][..j])
      invariant forall p :: p in counted <==> p in seen && p in g
      invariant forall p, d :: Linked(children', p, d) <==> Linked(children, p, d) || (d == c && p in counted)
      invariant indegree'.Keys == indegree.Keys && indegree'[c] == |counted|
      invariant forall d :: d in indegree && d != c ==> indegree'[d] == indegree[d]
    {
      var p := g[c][j];
      ElementsTake(g[c], j);
      if p in g {
        LinkOne(children', p, c);
        children' := children'[p := Kids(children', p) + {c}];
        indegree' := indegree'[c := indegree'[c] + 1];
        counted := counted + {p};
      }
      seen := seen + {p};
    }
    ElementsTakeAll(g[c]);
    CountedRemain(g, c, counted);
  }

  lemma CountedRemain(g: map<nat, seq<nat>>, c: nat, counted: set<nat>)
    requires c in g && forall p :: p in counted <==> p in Elements(g[c]) && p in g
    ensures counted == Remaining(g, c, {})
  {
  }

  lemma LinkOne(children: map<nat, set<nat>>, p: nat, c: nat)
    ensures Kids(children, p) + {c} != {}
    ensures var children' := children[p := Kids(children, p) + {c}];
      forall q, d :: Linked(children', q, d) <==> Linked(children, q, d) || (q == p && d == c)
  {
  }

  /** The child sets and in-degrees, accumulated event by event. */
  method BuildIndex(g: map<nat, seq<nat>>, ids: seq<nat>)
    returns (children: map<nat, set<nat>>, indegree: map<nat, nat>)
    requires Distinct(ids) && Elements(ids) == g.Keys
    requires forall c :: c in g ==> Distinct(g[c])
    ensures forall p :: p in children ==> children[p] != {}
    ensures forall p, c :: Linked(children, p, c) <==> Edge(g, c, p)
    ensures indegree.Keys == g.Keys
    ensures forall c :: c in g ==> indegree[c] == |Remaining(g, c, {})|
  {
    children := map[];
    indegree := map c | c in g :: 0;
    ghost var done: set<nat> := {};
    for i := 0 to |ids|
      invariant done == Elements(ids[..i]) && done <= g.Keys
      invariant forall p :: p in children ==> children[p] != {}
      invariant forall p, c :: Linked(children, p, c) <==> c in done && Edge(g, c, p)
      invariant indegree.Keys == g.Keys
      invariant forall c :: c in g ==> indegree[c] == if c in done then |Remaining(g, c, {})| else 0
    {
      ElementsTake(ids, i);
      ghost var children0 := children;
      children, indegree := AddEvent(g, ids[i], children, indegree);
      assert forall p, c :: Linked(children, p, c) <==> Linked(children0, p, c) || (c == ids[i] && Edge(g, c, p));
      done := done + {ids[i]};
    }
    ElementsTakeAll(ids);
  }

  /** Removing one more node lowers exactly the counts of its children. */
  lemma RemoveOne(g: map<nat, seq<nat>>, c: nat, removed: set<nat>, e: nat)
    requires c in g && e in g && e !in removed
    ensures |Remaining(g, c, removed + {e})| == |Remaining(g, c, removed)| - if e in g[c] then 1 else 0
    ensures e in g[c] ==> |Remaining(g, c, removed)| >= 1
  {
    var before, after := Remaining(g, c, removed), Remaining(g, c, removed + {e});
    if e in g[c] {
      assert before == after + {e};
    } else {
      assert before == after;
    }
  }

  /** Lowers the in-degree of every child once and queues the children that reach zero. */
  method Release(kids: set<nat>, indegree: map<nat, nat>, queue: seq<nat>)
    returns (indegree': map<nat, nat>, queue': seq<nat>)
    requires Distinct(queue)
    requires forall c :: c in kids ==> c in indegree && indegree[c] > 0
    requires forall c :: c in kids ==> c !in queue
    ensures indegree'.Keys == indegree.Keys && Distinct(queue')
    ensures forall c :: c in indegree ==> indegree[c] == indegree'[c] + if c in kids then 1 else 0
    ensures forall c :: c in queue' <==> c in queue || (c in kids && indegree'[c] == 0)
  {
    hide Distinct;
    indegree', queue' := indegree, queue;
    var order := Sorted(kids);
    ghost var released: set<nat> := {};
    for k := 0 to |order|
      invariant released == Elements(order[..k]) && released <= kids
      invariant indegree'.Keys == indegree.Keys && Distinct(queue')
      invariant forall c :: c in indegree ==> indegree[c] == indegree'[c] + if c in released then 1 else 0
      invariant forall c :: c in queue' <==> c in queue || (c in released && indegree'[c] == 0)
    {
      var child := order[k];
      ElementsTake(order, k);
      indegree' := indegree'[child := indegree'[child] - 1];
      if indegree'[child] == 0 {
        DistinctAppend(queue', child);
        queue' := queue' + [child];
      }
      released := released + {child};
    }
    ElementsTakeAll(order);
  }

  /** Lowering the counts of the children of e accounts for the removal of e. */
  lemma ReleaseAccounts(g: map<nat, seq<nat>>, e: nat, removed: set<nat>, indegree: map<nat, nat>, indegree': map<nat, nat>)
    requires e in g && e !in removed
    requires indegree.Keys == indegree'.Keys == g.Keys
    requires forall c :: c in g ==> indegree[c] == |Remaining(g, c, removed)|
    requires forall c :: c in indegree ==> indegree[c] == indegree'[c] + if c in ChildrenOf(g, e) then 1 else 0
    ensures forall c :: c in g ==> indegree'[c] == |Remaining(g, c, removed + {e})|
  {
    forall c | c in g ensures indegree'[c] == |Remaining(g, c, removed + {e})| {
      RemoveOne(g, c, removed, e);
    }
  }

  /** What every iteration of the removal loop keeps. */
  ghost predicate LoopState(g: map<nat, seq<nat>>, order: seq<nat>, queue: seq<nat>, indegree: map<nat, nat>) {
    && Distinct(order) && Distinct(queue)
    && Elements(order) <= g.Keys && Elements(queue) <= g.Keys
    && indegree.Keys == g.Keys
    && (forall c :: c in g ==> indegree[c] == |Remaining(g, c, Elements(order))|)
    && (forall c :: c in g ==> (indegree[c] == 0 <==> c in order || c in queue))
    && (forall c :: c in order ==> c !in queue)
    && EdgesPointBackwards(g, order)
  }

  lemma OrderStaysBackwards(g: map<nat, seq<nat>>, order: seq<nat>, e: nat)
    requires EdgesPointBackwards(g, order)
    requires e in g && Remaining(g, e, Elements(order)) == {}
    ensures EdgesPointBackwards(g, order + [e])
  {
    var order' := order + [e];
    forall i, b | 0 <= i < |order'| && Edge(g, order'[i], b) ensures b in order'[..i] {
      if i < |order| {
        assert order'[..i] == order[..i];
      } else {
        assert b !in Remaining(g, e, Elements(order));
        assert order'[..i] == order;
      }
    }
  }

  lemma StepKeepsLoopState(g: map<nat, seq<nat>>, order: seq<nat>, queue: seq<nat>, indegree: map<nat, nat>,
                           queue': seq<nat>, indegree': map<nat, nat>)
    requires LoopState(g, order, queue, indegree) && queue != []
    requires indegree'.Keys == g.Keys && Distinct(queue')
    requires forall c :: c in g ==> indegree'[c] == |Remaining(g, c, Elements(order) + {queue[0]})|
    requires forall c :: c in queue' <==> c in queue[1..] || (c in ChildrenOf(g, queue[0]) && indegree'[c] == 0)
    ensures LoopState(g, order + [queue[0]], queue', indegree')
  {
    var e := queue[0];
    QueueHead(g, order, queue, indegree);
    ElementsAppend(order, e);
    OrderStaysBackwards(g, order, e);
    forall c | c in g
      ensures indegree'[c] == 0 <==> c in order + [e] || c in queue'
      ensures c in order + [e] ==> c !in queue'
    {
      RemoveOne(g, c, Elements(order), e);
      assert c in queue <==> c == e || c in queue[1..];
    }
  }

  lemma InitialLoopState(g: map<nat, seq<nat>>, queue: seq<nat>, indegree: map<nat, nat>)
    requires indegree.Keys == g.Keys && Ascending(queue)
    requires forall c :: c in g ==> indegree[c] == |Remaining(g, c, {})|
    requires forall c :: c in queue <==> c in g && indegree[c] == 0
    ensures LoopState(g, [], queue, indegree)
  {
    assert Elements<nat>([]) == {};
  }

  /** An exhausted queue with nodes left over exposes a cycle among them. */
  lemma LeftoverHasCycle(g: map<nat, seq<nat>>, order: seq<nat>, indegree: map<nat, nat>) returns (p: seq<nat>)
    requires LoopState(g, order, [], indegree) && |order| != |g|
    ensures IsCycle(g, p) && forall k :: 0 <= k < |p| ==> p[k] !in order
  {
    var rest := g.Keys - Elements(order);
    DistinctExactly(order);
    SmallerLeavesSome(Elements(order), g.Keys);
    forall c | c in rest ensures StaysInside(g, rest, c) {
      var q :| q in Remaining(g, c, Elements(order));
      assert q in rest && Edge(g, c, q);
    }
    p := NoWayOutHasCycle(g, rest);
  }

  /**
   * Counts the nodes that can be removed. The count falls short of the number
   * of observed events exactly when the parent graph has a directed cycle.
   */
  method CountRemovable(g: map<nat, seq<nat>>, ids: seq<nat>) returns (visited: nat, children: map<nat, set<nat>>)
    requires Distinct(ids) && Elements(ids) == g.Keys
    requires forall c :: c in g ==> Distinct(g[c])
    ensures visited <= |g|
    ensures visited == |g| <==> Acyclic(g)
    ensures visited < |g| ==> exists p :: IsCycle(g, p)
    ensures children.Keys == set p | p in g && ChildrenOf(g, p) != {}
  {
    var indegree;
    children, indegree := BuildIndex(g, ids);
    KeysAreParents(g, children);
    var queue := Sorted(set c | c in g && indegree[c] == 0);
    InitialLoopState(g, queue, indegree);
    visited := 0;
    ghost var order: seq<nat> := [];
    while queue != []
      invariant LoopState(g, order, queue, indegree)
      invariant visited == |order|
      decreases g.Keys - Elements(order)
    {
      var e := queue[0];
      QueueHead(g, order, queue, indegree);
      KidsAreChildren(g, children, e);
      ghost var queue0, indegree0 := queue, indegree;
      visited := visited + 1;
      indegree, queue := Release(Kids(children, e), indegree, queue[1..]);
      ReleaseAccounts(g, e, Elements(order), indegree0, indegree);
      StepKeepsLoopState(g, order, queue0, indegree0, queue, indegree);
      ElementsAppend(order, e);
      order := order + [e];
    }
    DistinctExactly(order);
    SubsetCount(Elements(order), g.Keys);
    if visited == |g| {
      OrderedMeansAcyclic(g, order);
    } else {
      var p := LeftoverHasCycle(g, order, indegree);
    }
  }

  lemma QueueHead(g: map<nat, seq<nat>>, order: seq<nat>, queue: seq<nat>, indegree: map<nat, nat>)
    requires LoopState(g, order, queue, indegree) && queue != []
    ensures queue[0] in g && queue[0] !in Elements(order) && Distinct(queue[1..])
    ensures forall c :: c in ChildrenOf(g, queue[0]) ==> indegree[c] > 0 && c !in queue[1..]
  {
    forall c | c in ChildrenOf(g, queue[0]) ensures indegree[c] > 0 && c !in queue[1..] {
      RemoveOne(g, c, Elements(order), queue[0]);
      assert c !in queue;
    }
    assert queue[0] in Elements(queue);
  }

  lemma KidsAreChildren(g: map<nat, seq<nat>>, children: map<nat, set<nat>>, p: nat)
    requires p in g && forall c :: Linked(children, p, c) <==> Edge(g, c, p)
    ensures Kids(children, p) == ChildrenOf(g, p)
  {
    forall c ensures c in Kids(children, p) <==> c in ChildrenOf(g, p) {
      assert Linked(children, p, c) <==> Edge(g, c, p);
    }
  }

  lemma KeysAreParents(g: map<nat, seq<nat>>, children: map<nat, set<nat>>)
    requires forall p :: p in children ==> children[p] != {}
    requires forall p, c :: Linked(children, p, c) <==> Edge(g, c, p)
    ensures children.Keys == set p | p in g && ChildrenOf(g, p) != {}
  {
    forall p ensures p in children <==> p in g && ChildrenOf(g, p) != {} {
      if p in children {
        var c :| c in children[p];
        assert Linked(children, p, c);
        assert c in ChildrenOf(g, p);
      }
      if p in g && ChildrenOf(g, p) != {} {
        var c :| c in ChildrenOf(g, p);
        assert Linked(children, p, c);
      }
    }
  }
}
