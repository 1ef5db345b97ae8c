/**
 * The worklist that computes an ancestor closure: pop a node, and unless it is
 * already in the closure add it and push its parents.
 */
module Worklist {
  import opened Digraph

  method AncestorClosure<T(==, !new)>(parents: map<T, seq<T>>, target: T) returns (closure: set<T>)
    requires target in parents && Closed(parents)
    ensures forall x :: x in closure <==> Reaches(parents, target, x)
  {
    closure := {};
    var pending := [target];
    ReachesSelf(parents, target);
    while pending != []
      invariant closure <= parents.Keys
      invariant forall x :: x in closure || x in pending ==> x in parents && Reaches(parents, target, x)
      invariant target in closure || target in pending
      invariant forall x, y :: x in closure && Edge(parents, x, y) ==> y in closure || y in pending
      decreases parents.Keys - closure, |pending|
    {
      var item := pending[|pending| - 1];
      ghost var before := pending;
      pending := pending[..|pending| - 1];
      assert forall x :: x in before ==> x in pending || x == item;
      if item !in closure {
        closure := closure + {item};
        forall y | y in parents[item] ensures Reaches(parents, target, y) {
          assert Edge(parents, item, y);
          ReachesByEdgeLast(parents, target, item, y);
        }
        pending := pending + parents[item];
      }
    }
    forall x | Reaches(parents, target, x) ensures x in closure {
      ClosedSetKeepsReachable(parents, closure, target, x);
    }
  }
}
