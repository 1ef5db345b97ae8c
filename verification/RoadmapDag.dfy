/**
 * The depth-first dependency check of the ecosystem roadmap.
 *
 * Main results: `RequireDag` (it accepts exactly the acyclic graphs) and
 * `CompleteIsTransitive`.
 */
module RoadmapDag {
  import opened Digraph

  /** The two sets that the recursive visit closes over. */
  class DagCheck {
    const graph: map<string, seq<string>>
    var visiting: set<string>
    var visited: set<string>
    ghost var stack: seq<string>   // the nodes being visited, outermost first
    ghost var order: seq<string>   // the visited nodes, in order of completion

    ghost predicate Valid()
      reads this
    {
      && Closed(graph)
      && visiting == Elements(stack) && Distinct(stack) && (stack != [] ==> IsWalk(graph, stack))
      && visited == Elements(order) && Distinct(order) && EdgesPointBackwards(graph, order)
      && visiting <= graph.Keys && visited <= graph.Keys && visiting * visited == {}
    }

    constructor (graph: map<string, seq<string>>)
      requires Closed(graph)
      ensures Valid() && this.graph == graph && stack == [] && order == []
    {
      this.graph := graph;
      visiting, visited, stack, order := {}, {}, [], [];
    }

    /** The node may be visited next: it is an outermost node or a dependency of the innermost one. */
    ghost predicate MayEnter(node: string)
      reads this
    {
      node in graph && (stack != [] ==> Edge(graph, stack[|stack| - 1], node))
    }

    /** Visits a node and everything it depends on; `false` is the raised cycle error. */
    method Visit(node: string) returns (ok: bool)
      requires Valid() && MayEnter(node)
      modifies this
      ensures ok ==> Valid() && stack == old(stack) && visiting == old(visiting)
      ensures ok ==> node in visited && old(visited) <= visited
      ensures !ok ==> !Acyclic(graph)
      decreases graph.Keys - visiting
    {
      if node in visiting {
        BackEdgeClosesCycle(graph, stack, node);
        return false;
      }
      if node in visited { return true; }
      Enter(node);
      var dependencies := graph[node];
      for i := 0 to |dependencies|
        invariant Valid() && stack == old(stack) + [node] && visiting == old(visiting) + {node}
        invariant old(visited) <= visited
        invariant forall k :: 0 <= k < i ==> dependencies[k] in visited
      {
        ok := Visit(dependencies[i]);
        if !ok { return; }
      }
      Leave(node);
      assert stack == old(stack);
      assert visiting == old(visiting);
      return true;
    }

    method Enter(node: string)
      requires Valid() && MayEnter(node) && node !in visiting && node !in visited
      modifies this
      ensures Valid() && stack == old(stack) + [node] && visiting == old(visiting) + {node}
      ensures visited == old(visited) && order == old(order)
    {
      ElementsAppend(stack, node);
      WalkGrows(graph, stack, node);
      visiting := visiting + {node};
      stack := stack + [node];
    }

    method Leave(node: string)
      requires Valid() && stack != [] && stack[|stack| - 1] == node
      requires forall d :: d in graph && d in graph[node] ==> d in visited
      requires node in graph
      modifies this
      ensures Valid() && stack == old(stack)[..|old(stack)| - 1] && visiting == old(visiting) - {node}
      ensures visited == old(visited) + {node}
    {
      ElementsAppend(order, node);
      ElementsTake(stack, |stack| - 1);
      ElementsTakeAll(stack);
      OrderGrows(graph, order, node);
      assert node in visiting && node !in visiting * visited;
      visiting := visiting - {node};
      visited := visited + {node};
      stack, order := stack[..|stack| - 1], order + [node];
    }
  }

  lemma WalkGrows(g: map<string, seq<string>>, stack: seq<string>, node: string)
    requires node in g && (stack != [] ==> IsWalk(g, stack) && Edge(g, stack[|stack| - 1], node))
    ensures IsWalk(g, stack + [node])
  {
  }

  lemma OrderGrows(g: map<string, seq<string>>, order: seq<string>, node: string)
    requires node in g && EdgesPointBackwards(g, order)
    requires forall d :: d in g && d in g[node] ==> d in Elements(order)
    ensures EdgesPointBackwards(g, order + [node])
  {
    var longer := order + [node];
    forall i, b | 0 <= i < |longer| && Edge(g, longer[i], b) ensures b in longer[..i] {
      if i < |order| {
        assert longer[..i] == order[..i];
      } else {
        assert longer[..i] == order;
      }
    }
  }

  /** Meeting a node that is still being visited exposes a cycle through it. */
  lemma BackEdgeClosesCycle(g: map<string, seq<string>>, stack: seq<string>, node: string)
    requires stack != [] && IsWalk(g, stack) && node in Elements(stack) && Edge(g, stack[|stack| - 1], node)
    ensures !Acyclic(g)
  {
    var i :| 0 <= i < |stack| && stack[i] == node;
    var p := stack[i..] + [node];
    forall a, b | 0 <= a && b == a + 1 && b < |p| ensures Edge(g, p[a], p[b]) {
      if b < |p| - 1 { assert Edge(g, stack[i + a], stack[i + b]); }
    }
    assert IsCycle(g, p);
  }

  /** Visits every node of the graph; it gets through exactly when there is no cycle. */
  method RequireDag(graph: map<string, seq<string>>, nodes: seq<string>) returns (ok: bool)
    requires Closed(graph) && Elements(nodes) == graph.Keys
    ensures ok <==> Acyclic(graph)
  {
    var check := new DagCheck(graph);
    for i := 0 to |nodes|
      invariant fresh(check) && check.Valid() && check.stack == [] && check.graph == graph
      invariant forall k :: 0 <= k < i ==> nodes[k] in check.visited
    {
      assert nodes[i] in Elements(nodes);
      ok := check.Visit(nodes[i]);
      if !ok { return; }
    }
    AllVisited(graph, nodes, check.order);
    return true;
  }

  lemma AllVisited(g: map<string, seq<string>>, nodes: seq<string>, order: seq<string>)
    requires Elements(nodes) == g.Keys && Elements(order) <= g.Keys
    requires forall k :: 0 <= k < |nodes| ==> nodes[k] in Elements(order)
    requires Distinct(order) && EdgesPointBackwards(g, order)
    ensures Acyclic(g)
  {
    forall x | x in g ensures x in Elements(order) {
      assert x in Elements(nodes);
    }
    assert Elements(order) == g.Keys;
    OrderedMeansAcyclic(g, order);
  }

  // ---------------------------------------------------------------- roadmap

  datatype Status = Planned | Active | Blocked | CompletePhase

  datatype Phase = Phase(id: string, status: Status, dependsOn: seq<string>)

  datatype Roadmap = Roadmap(components: seq<string>, phases: seq<Phase>, outputs: seq<string>)

  ghost function PhaseIds(phases: seq<Phase>): seq<string> {
    seq(|phases|, i requires 0 <= i < |phases| => phases[i].id)
  }

  /** The last phase listed under each identifier, as a dictionary keeps it. */
  function Dictionary(phases: seq<Phase>): (m: map<string, Phase>)
    ensures forall x :: x in m ==> m[x] in phases && m[x].id == x
    ensures forall p :: p in phases ==> p.id in m
  {
    if phases == [] then map[]
    else
      var n := |phases| - 1;
      assert phases == phases[..n] + [phases[n]];
      Dictionary(phases[..n])[phases[n].id := phases[n]]
  }

  function DependencyGraph(phases: seq<Phase>): map<string, seq<string>> {
    var m := Dictionary(phases);
    map x | x in m :: m[x].dependsOn
  }

  /** The demands on one phase, given all phases. */
  ghost predicate PhaseCoherent(m: map<string, Phase>, p: Phase) {
    && Distinct(p.dependsOn)
    && (forall d :: d in p.dependsOn ==> d in m)
    && p.id !in p.dependsOn
    && (p.status.CompletePhase? ==> forall d :: d in p.dependsOn && d in m ==> m[d].status.CompletePhase?)
  }

  function FirstSlash(path: string): (n: nat)
    ensures n <= |path| && (n < |path| ==> path[n] == '/') && forall i :: 0 <= i < n ==> path[i] != '/'
  {
    if path == "" || path[0] == '/' then 0 else 1 + FirstSlash(path[1..])
  }

  /** The parts of a path, between its slashes. */
  function Parts(path: string): seq<string>
    decreases |path|
  {
    var n := FirstSlash(path);
    if n == |path| then [path] else [path[..n]] + Parts(path[n + 1..])
  }

  /** A portable path that is relative and never climbs. */
  predicate IsPublicPath(path: string) {
    path != "" && '\\' !in path && path[0] != '/' && ".." !in Parts(path)
  }

  /** Two dots at i that fill the space between slashes or the ends of the path. */
  ghost predicate ClimbsAt(path: string, i: nat) {
    && i + 2 <= |path| && path[i] == '.' && path[i + 1] == '.'
    && (i == 0 || path[i - 1] == '/') && (i + 2 == |path| || path[i + 2] == '/')
  }

  /** The first part of a path climbs exactly when the path starts with a climb; past it the rest decides. */
  lemma ClimbsByPart(path: string, n: nat)
    requires n == FirstSlash(path)
    ensures path[..n] == ".." <==> ClimbsAt(path, 0)
    ensures forall i: nat :: 0 < i <= n ==> !ClimbsAt(path, i)
  {
    hide FirstSlash;
    if path[..n] == ".." { assert path[0] == path[..n][0] && path[1] == path[..n][1]; }
    if ClimbsAt(path, 0) { assert n == 2; }
  }

  lemma {:induction false} ClimbsExactly(path: string)
    ensures ".." in Parts(path) <==> exists i: nat :: ClimbsAt(path, i)
    decreases |path|
  {
    hide ClimbsAt, FirstSlash;
    var n := FirstSlash(path);
    ClimbsByPart(path, n);
    if n == |path| {
      assert path[..n] == path;
      forall i: nat | i > n ensures !ClimbsAt(path, i) { ClimbsInside(path, i); }
    } else {
      var rest := path[n + 1..];
      ClimbsExactly(rest);
      if i: nat :| ClimbsAt(path, i) && i > n { ClimbsFurther(path, n, i - n - 1); }
      if i: nat :| ClimbsAt(rest, i) { ClimbsFurther(path, n, i); }
    }
  }

  lemma ClimbsFurther(path: string, n: nat, i: nat)
    requires n < |path| && path[n] == '/'
    ensures ClimbsAt(path[n + 1..], i) <==> ClimbsAt(path, n + 1 + i)
  {
  }

  lemma ClimbsInside(path: string, i: nat)
    ensures ClimbsAt(path, i) ==> i < |path|
  {
  }

  /** A public path by position: no backslash, no slash in front, and no part that climbs. */
  ghost predicate StaysBelow(path: string) {
    && |path| > 0 && path[0] != '/'
    && (forall i :: 0 <= i < |path| ==> path[i] != '\\')
    && forall i: nat :: !ClimbsAt(path, i)
  }

  lemma PublicExactly(path: string)
    ensures IsPublicPath(path) <==> StaysBelow(path)
  {
    ClimbsExactly(path);
  }

  ghost predicate PhasesCoherent(phases: seq<Phase>) {
    && Distinct(PhaseIds(phases))
    && (forall p :: p in phases ==> PhaseCoherent(Dictionary(phases), p))
    && Acyclic(DependencyGraph(phases))
  }

  ghost predicate RoadmapCoherent(r: Roadmap) {
    Distinct(r.components) && PhasesCoherent(r.phases) && forall path :: path in r.outputs ==> IsPublicPath(path)
  }

  /** Phase i by position: no dependency twice, each on another listed phase, and on complete ones if it is complete. */
  ghost predicate Depends(phases: seq<Phase>, i: nat)
    requires i < |phases|
  {
    var on := phases[i].dependsOn;
    && (forall a, b :: 0 <= a < b < |on| ==> on[a] != on[b])
    && forall a :: 0 <= a < |on| ==>
         exists j :: 0 <= j < |phases| && phases[j].id == on[a] && j != i && (phases[i].status.CompletePhase? ==> phases[j].status.CompletePhase?)
  }

  /** Positions that lead from a phase back to it, each depending on the next. */
  ghost predicate IsLoop(phases: seq<Phase>, c: seq<nat>) {
    && |c| >= 2 && c[0] == c[|c| - 1] && (forall k :: 0 <= k < |c| ==> c[k] < |phases|)
    && forall k, n :: 0 <= k && n == k + 1 && n < |c| ==> phases[c[n]].id in phases[c[k]].dependsOn
  }

  lemma DictionaryAt(phases: seq<Phase>, i: nat)
    requires Distinct(PhaseIds(phases)) && i < |phases|
    ensures phases[i].id in Dictionary(phases) && Dictionary(phases)[phases[i].id] == phases[i]
  {
    hide *;
    assert phases[i] in phases;
    var kept := Dictionary(phases)[phases[i].id];
    var k: nat :| k < |phases| && phases[k] == kept;
    SamePosition(phases, k, i);
  }

  lemma SamePosition(phases: seq<Phase>, i: nat, j: nat)
    requires Distinct(PhaseIds(phases)) && i < |phases| && j < |phases| && phases[i].id == phases[j].id
    ensures i == j
  {
    assert PhaseIds(phases)[i] == phases[i].id && PhaseIds(phases)[j] == phases[j].id;
  }

  lemma DependsExactly(phases: seq<Phase>, i: nat)
    requires Distinct(PhaseIds(phases)) && i < |phases|
    ensures PhaseCoherent(Dictionary(phases), phases[i]) <==> Depends(phases, i)
  {
    hide Dictionary;
    var m, on := Dictionary(phases), phases[i].dependsOn;
    forall j: nat | j < |phases| ensures phases[j].id in m && m[phases[j].id] == phases[j] { DictionaryAt(phases, j); }
    forall j: nat | j < |phases| && phases[j].id == phases[i].id ensures j == i {
      assert PhaseIds(phases)[j] == PhaseIds(phases)[i];
    }
    assert forall a :: 0 <= a < |on| ==> on[a] in on;
    if PhaseCoherent(m, phases[i]) {
      forall a | 0 <= a < |on|
        ensures exists j :: 0 <= j < |phases| && phases[j].id == on[a] && j != i && (phases[i].status.CompletePhase? ==> phases[j].status.CompletePhase?)
      {
        var j :| 0 <= j < |phases| && phases[j] == m[on[a]];
      }
    }
    if Depends(phases, i) {
      forall d | d in on ensures d in m && d != phases[i].id && (phases[i].status.CompletePhase? ==> m[d].status.CompletePhase?) {
        var a :| 0 <= a < |on| && on[a] == d;
        var j :| 0 <= j < |phases| && phases[j].id == on[a] && j != i && (phases[i].status.CompletePhase? ==> phases[j].status.CompletePhase?);
      }
    }
  }

  /** Where a phase with this identifier is listed. */
  ghost function PositionOf(phases: seq<Phase>, id: string): (i: nat)
    requires id in Dictionary(phases)
    ensures i < |phases| && phases[i] == Dictionary(phases)[id] && phases[i].id == id
  {
    var i :| 0 <= i < |phases| && phases[i] == Dictionary(phases)[id];
    i
  }

  lemma LoopIsCycle(phases: seq<Phase>, c: seq<nat>)
    requires Distinct(PhaseIds(phases)) && IsLoop(phases, c)
    ensures !Acyclic(DependencyGraph(phases))
  {
    hide Dictionary;
    var g, p := DependencyGraph(phases), seq(|c|, k requires 0 <= k < |c| => phases[c[k]].id);
    forall k | 0 <= k < |c| ensures p[k] in g && g[p[k]] == phases[c[k]].dependsOn { DictionaryAt(phases, c[k]); }
    assert IsCycle(g, p);
  }

  lemma CycleIsLoop(phases: seq<Phase>, p: seq<string>)
    requires Distinct(PhaseIds(phases)) && IsCycle(DependencyGraph(phases), p)
    ensures exists c :: IsLoop(phases, c)
  {
    hide Dictionary;
    var g := DependencyGraph(phases);
    forall k | 0 <= k < |p| ensures p[k] in g {
      if k > 0 { assert Edge(g, p[k - 1], p[k]); }
    }
    var c: seq<nat> := seq(|p|, k requires 0 <= k < |p| => PositionOf(phases, p[k]));
    forall k, n | 0 <= k && n == k + 1 && n < |c| ensures phases[c[n]].id in phases[c[k]].dependsOn {
      assert Edge(g, p[k], p[n]);
    }
    assert IsLoop(phases, c);
  }

  /** The phase contract by position. */
  lemma PhasesExactly(phases: seq<Phase>)
    ensures PhasesCoherent(phases) <==>
            && (forall i, j :: 0 <= i < j < |phases| ==> phases[i].id != phases[j].id)
            && (forall i: nat :: i < |phases| ==> Depends(phases, i))
            && forall c :: !IsLoop(phases, c)
  {
    hide PhaseCoherent, Depends, Dictionary, DependencyGraph, IsLoop, IsCycle;
    assert Distinct(PhaseIds(phases)) <==> forall i, j :: 0 <= i < j < |phases| ==> phases[i].id != phases[j].id by {
      assert forall i :: 0 <= i < |phases| ==> PhaseIds(phases)[i] == phases[i].id;
    }
    if Distinct(PhaseIds(phases)) {
      forall i: nat | i < |phases| ensures PhaseCoherent(Dictionary(phases), phases[i]) <==> Depends(phases, i) { DependsExactly(phases, i); }
      forall c | IsLoop(phases, c) ensures !Acyclic(DependencyGraph(phases)) { LoopIsCycle(phases, c); }
      forall p | IsCycle(DependencyGraph(phases), p) ensures exists c :: IsLoop(phases, c) { CycleIsLoop(phases, p); }
    }
  }

  method RequireUnique(values: seq<string>) returns (ok: bool)
    ensures ok <==> Distinct(values)
  {
    var seen := set v | v in values;
    DistinctExactly(values);
    ok := |seen| == |values|;
  }

  method CheckPhase(m: map<string, Phase>, p: Phase) returns (ok: bool)
    ensures ok <==> PhaseCoherent(m, p)
  {
    var unique := RequireUnique(p.dependsOn);
    if !unique || exists d :: d in p.dependsOn && d !in m { return false; }
    if p.id in p.dependsOn { return false; }
    return !(p.status.CompletePhase? && exists d :: d in p.dependsOn && d in m && !m[d].status.CompletePhase?);
  }

  /** The roadmap check: components, then phase by phase, the whole graph, and the output paths. */
  method SemanticContract(r: Roadmap) returns (ok: bool)
    ensures ok <==> RoadmapCoherent(r)
    ensures ok <==>
            && (forall i, j :: 0 <= i < j < |r.components| ==> r.components[i] != r.components[j])
            && (forall i, j :: 0 <= i < j < |r.phases| ==> r.phases[i].id != r.phases[j].id)
            && (forall i: nat :: i < |r.phases| ==> Depends(r.phases, i))
            && (forall c :: !IsLoop(r.phases, c))
            && forall k :: 0 <= k < |r.outputs| ==> StaysBelow(r.outputs[k])
  {
    hide PhasesCoherent, Depends, IsLoop, StaysBelow, IsPublicPath;
    forall path ensures IsPublicPath(path) <==> StaysBelow(path) { PublicExactly(path); }
    var components := RequireUnique(r.components);
    if !components { return false; }
    var phases := CheckPhases(r.phases);
    if !phases { return false; }
    for i := 0 to |r.outputs|
      invariant forall k :: 0 <= k < i ==> IsPublicPath(r.outputs[k])
    {
      if !IsPublicPath(r.outputs[i]) { return false; }
    }
    return true;
  }

  method CheckPhases(phases: seq<Phase>) returns (ok: bool)
    ensures ok <==> PhasesCoherent(phases)
    ensures ok <==>
            && (forall i, j :: 0 <= i < j < |phases| ==> phases[i].id != phases[j].id)
            && (forall i: nat :: i < |phases| ==> Depends(phases, i))
            && forall c :: !IsLoop(phases, c)
  {
    hide Depends, IsLoop;
    PhasesExactly(phases);
    var ids := seq(|phases|, i requires 0 <= i < |phases| => phases[i].id);
    assert ids == PhaseIds(phases);
    var unique := RequireUnique(ids);
    if !unique { return false; }
    var m := Dictionary(phases);
    for i := 0 to |phases|
      invariant forall k :: 0 <= k < i ==> PhaseCoherent(m, phases[k])
    {
      var coherent := CheckPhase(m, phases[i]);
      if !coherent {
        assert phases[i] in phases;
        return false;
      }
    }
    GraphIsClosed(phases, ids);
    ok := RequireDag(DependencyGraph(phases), ids);
  }

  lemma GraphIsClosed(phases: seq<Phase>, ids: seq<string>)
    requires ids == PhaseIds(phases)
    requires forall k :: 0 <= k < |phases| ==> PhaseCoherent(Dictionary(phases), phases[k])
    ensures Closed(DependencyGraph(phases)) && Elements(ids) == DependencyGraph(phases).Keys
    ensures forall p :: p in phases ==> PhaseCoherent(Dictionary(phases), p)
  {
    var m := Dictionary(phases);
    forall x ensures x in ids <==> x in m {
      if x in m {
        var k :| 0 <= k < |phases| && phases[k] == m[x];
        assert ids[k] == x;
      }
      if x in ids {
        var k :| 0 <= k < |ids| && ids[k] == x;
        assert phases[k] in phases;
      }
    }
  }

  /** In an accepted roadmap everything a complete phase depends on, directly or not, is complete. */
  lemma CompleteIsTransitive(phases: seq<Phase>, a: string, b: string)
    requires PhasesCoherent(phases) && Reaches(DependencyGraph(phases), a, b)
    ensures a in Dictionary(phases) && b in Dictionary(phases)
    ensures Dictionary(phases)[a].status.CompletePhase? ==> Dictionary(phases)[b].status.CompletePhase?
  {
    var m, g := Dictionary(phases), DependencyGraph(phases);
    var p :| WalkFromTo(g, p, a, b);
    assert p[0] in g && p[|p| - 1] in g;
    if m[a].status.CompletePhase? {
      var done := set x | x in m && m[x].status.CompletePhase?;
      forall x, y | x in done && Edge(g, x, y) ensures y in done {
        assert PhaseCoherent(m, m[x]);
      }
      ClosedSetKeepsReachable(g, done, a, b);
    }
  }
}
