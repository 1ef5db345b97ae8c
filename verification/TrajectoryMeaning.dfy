/**
 * What the facts, the rules and the canonical order of a trajectory say, position by position.
 *
 * Of several observations of one event the last counts.
 *
 * Main results: `AcceptedMeans` (every fact of an accepted record), `RulesMean` (when the
 * rules hold) and `BuildableMeans` (when a record is built).
 */
module TrajectoryMeaning {
  import opened Digraph
  import opened CanonicalOrder
  import opened Kahn
  import opened Trajectory
  import opened TrajectoryOrder

  /** The last observation of its event. */
  ghost predicate LastAt(obs: seq<Observation>, i: nat) {
    i < |obs| && forall j :: i < j < |obs| ==> obs[j].eventId != obs[i].eventId
  }

  ghost predicate Observed(obs: seq<Observation>, x: nat) {
    exists i :: 0 <= i < |obs| && obs[i].eventId == x
  }

  /** The counting observation of event x names p as a parent. */
  ghost predicate Names(obs: seq<Observation>, x: nat, p: nat) {
    exists i: nat :: LastAt(obs, i) && obs[i].eventId == x && p in obs[i].parents
  }

  // ------------------------------------------------------------- dictionary

  lemma {:induction false} KeptIsLastAt(obs: seq<Observation>, i: nat)
    requires LastAt(obs, i)
    ensures obs[i].eventId in ById(obs) && ById(obs)[obs[i].eventId] == obs[i]
  {
    hide ById;
    var n := |obs| - 1;
    KeptByLast(obs);
    if i < n {
      var before := obs[..n];
      assert before[i] == obs[i] && LastAt(before, i);
      KeptIsLastAt(before, i);
      assert obs[n].eventId != obs[i].eventId;
    }
  }

  lemma KeptByLast(obs: seq<Observation>)
    requires obs != []
    ensures ById(obs) == ById(obs[..|obs| - 1])[obs[|obs| - 1].eventId := obs[|obs| - 1]]
  {
  }

  lemma {:induction false} LastExists(obs: seq<Observation>, x: nat) returns (i: nat)
    requires Observed(obs, x)
    ensures LastAt(obs, i) && obs[i].eventId == x
  {
    var n := |obs| - 1;
    if obs[n].eventId == x {
      i := n;
    } else {
      var k :| 0 <= k < |obs| && obs[k].eventId == x;
      assert obs[..n][k].eventId == x;
      i := LastExists(obs[..n], x);
    }
  }

  lemma KeyIsObserved(obs: seq<Observation>, x: nat)
    ensures x in ById(obs) <==> Observed(obs, x)
  {
    if x in ById(obs) {
      var i :| 0 <= i < |obs| && obs[i] == ById(obs)[x];
      assert obs[i].eventId == x;
    }
    if i :| 0 <= i < |obs| && obs[i].eventId == x { assert obs[i] in obs; }
  }

  /** What the dictionary keeps, by position. */
  lemma KeptMeans(obs: seq<Observation>, x: nat, o: Observation)
    ensures x in ById(obs) && ById(obs)[x] == o <==> exists i: nat :: LastAt(obs, i) && obs[i].eventId == x && obs[i] == o
  {
    hide ById;
    KeyIsObserved(obs, x);
    if x in ById(obs) {
      var i := LastExists(obs, x);
      KeptIsLastAt(obs, i);
    }
    if i: nat :| LastAt(obs, i) && obs[i].eventId == x && obs[i] == o { KeptIsLastAt(obs, i); }
  }

  /** The edges of the parent graph: from an event to the observed parents its counting observation names. */
  lemma EdgeMeans(obs: seq<Observation>, a: nat, b: nat)
    ensures Edge(Parents(ById(obs)), a, b) <==> Names(obs, a, b) && Observed(obs, b)
  {
    hide ById;
    KeyIsObserved(obs, a);
    KeyIsObserved(obs, b);
    if a in ById(obs) { KeptMeans(obs, a, ById(obs)[a]); }
    if i: nat :| LastAt(obs, i) && obs[i].eventId == a && b in obs[i].parents { KeptMeans(obs, a, obs[i]); }
  }

  // ------------------------------------------------------------------- facts

  ghost predicate SharesId(obs: seq<Observation>, x: nat) {
    exists i, j :: 0 <= i < j < |obs| && obs[i].eventId == obs[j].eventId == x
  }

  ghost predicate SharesCommitment(obs: seq<Observation>, c: nat) {
    exists i, j :: 0 <= i < j < |obs| && obs[i].commitment == obs[j].commitment == c
  }

  ghost predicate Unseen(obs: seq<Observation>, p: nat) {
    !Observed(obs, p) && exists i :: 0 <= i < |obs| && p in obs[i].parents
  }

  /** A directed cycle among observed events, along counting observations. */
  ghost predicate HasCycle(obs: seq<Observation>) {
    exists p: seq<nat> :: |p| >= 2 && p[0] == p[|p| - 1] && IsPath(obs, p)
  }

  ghost predicate IsPath(obs: seq<Observation>, p: seq<nat>) {
    && (forall k :: 0 <= k < |p| ==> Observed(obs, p[k]))
    && forall k, m :: 0 <= k && m == k + 1 && m < |p| ==> Names(obs, p[k], p[m])
  }

  ghost predicate Damaged(obs: seq<Observation>) {
    HasCycle(obs) || (exists x :: SharesId(obs, x)) || exists c :: SharesCommitment(obs, c)
  }

  ghost predicate Incompletely(obs: seq<Observation>, expected: nat, censoring: Censoring) {
    || (exists p :: Unseen(obs, p))
    || expected != |obs| || censoring != Complete
    || exists i :: 0 <= i < |obs| && (obs[i].cause == UnknownCause || obs[i].routeReason == UnknownRoute || UnknownEncounter in obs[i].encounters)
  }

  /** Every fact, position by position. */
  ghost predicate FactsAre(f: Facts, obs: seq<Observation>, expected: nat, censoring: Censoring) {
    && (forall i :: 0 <= i < |obs| ==> obs[i].operation == f.operation) && f.count == |obs|
    && (forall x: nat, c: nat :: (x, c) in f.commitments <==> exists i: nat :: LastAt(obs, i) && obs[i].eventId == x && obs[i].commitment == c)
    && (forall p: nat, x: nat :: (p, x) in f.edges <==> Names(obs, x, p))
    && (forall a :: a in f.attemptIds <==> exists i :: 0 <= i < |obs| && obs[i].attemptId == a)
    && (forall a :: a in f.idempotency <==> exists i :: 0 <= i < |obs| && obs[i].idempotency == a)
    && (forall x :: f.routeViolations[x] == |ViolationsOf(obs, x)|)
    && (forall x :: x in f.roots <==> exists i: nat :: LastAt(obs, i) && obs[i].eventId == x && obs[i].parents == [])
    && (forall x :: x in f.leaves <==> Observed(obs, x) && !exists y :: Names(obs, y, x))
    && (forall p :: p in f.unresolved <==> Unseen(obs, p))
    && (forall x :: x in f.duplicates <==> SharesId(obs, x))
    && (forall c :: c in f.duplicateCommitments <==> SharesCommitment(obs, c))
    && (f.cyclic <==> HasCycle(obs))
    && (f.completeness.Invalid? <==> Damaged(obs))
    && (f.completeness.Incomplete? <==> !Damaged(obs) && Incompletely(obs, expected, censoring))
    && (f.completeness.Whole? <==> !Damaged(obs) && !Incompletely(obs, expected, censoring))
  }

  /** The positions at which event x was reported over a forbidden route. */
  ghost function ViolationsOf(obs: seq<Observation>, x: nat): set<nat> {
    set i: nat | i < |obs| && obs[i].eventId == x && !obs[i].routePermitted
  }

  lemma ViolatingByLast(obs: seq<Observation>)
    requires obs != []
    ensures var n := |obs| - 1;
      Violating(obs) == Violating(obs[..n]) + if obs[n].routePermitted then multiset{} else multiset{obs[n].eventId}
  {
    var n := |obs| - 1;
    assert obs == obs[..n] + [obs[n]] && [obs[n]][1..] == [];
    ViolatingConcat(obs[..n], [obs[n]]);
  }

  lemma ViolationsByLast(obs: seq<Observation>, x: nat)
    requires obs != []
    ensures var n := |obs| - 1;
      |ViolationsOf(obs, x)| == |ViolationsOf(obs[..n], x)| + if obs[n].eventId == x && !obs[n].routePermitted then 1 else 0
  {
    var n := |obs| - 1;
    var before, after := ViolationsOf(obs[..n], x), ViolationsOf(obs, x);
    assert after == if obs[n].eventId == x && !obs[n].routePermitted then before + {n} else before;
  }

  lemma {:induction false} ViolationsCount(obs: seq<Observation>, x: nat)
    ensures Violating(obs)[x] == |ViolationsOf(obs, x)|
  {
    if obs == [] {
      assert ViolationsOf(obs, x) == {};
    } else {
      hide Violating, ViolationsOf;
      ViolatingByLast(obs);
      ViolationsByLast(obs, x);
      ViolationsCount(obs[..|obs| - 1], x);
    }
  }

  lemma {:induction false} RepeatedMeans(s: seq<nat>, x: nat)
    ensures x in Repeated(s) <==> exists i, j :: 0 <= i < j < |s| && s[i] == s[j] == x
  {
    if i, j :| 0 <= i < j < |s| && s[i] == s[j] == x { TwiceIsRepeated(s, i, j); }
    if x in Repeated(s) {
      var i :| 0 <= i < |s| && s[i] == x;
      assert s == s[..i] + [x] + s[i + 1..];
      assert multiset(s) == multiset(s[..i]) + multiset{x} + multiset(s[i + 1..]);
      if x in s[..i] {
        var k :| 0 <= k < i && s[..i][k] == x;
        assert s[k] == s[i] == x;
      } else {
        assert x in multiset(s[i + 1..]);
        var k :| 0 <= k < |s| - i - 1 && s[i + 1..][k] == x;
        assert s[i] == s[i + 1 + k] == x;
      }
    }
  }

  lemma DuplicatesMean(obs: seq<Observation>)
    ensures forall x :: x in Repeated(EventIds(obs)) <==> SharesId(obs, x)
    ensures forall c :: c in Repeated(Commitments(obs)) <==> SharesCommitment(obs, c)
  {
    hide Repeated;
    forall x ensures x in Repeated(EventIds(obs)) <==> SharesId(obs, x) {
      RepeatedMeans(EventIds(obs), x);
      if i, j :| 0 <= i < j < |obs| && obs[i].eventId == obs[j].eventId == x {
        assert EventIds(obs)[i] == EventIds(obs)[j] == x;
      }
      if i, j :| 0 <= i < j < |obs| && EventIds(obs)[i] == EventIds(obs)[j] == x {
        assert obs[i].eventId == obs[j].eventId == x;
      }
    }
    forall c ensures c in Repeated(Commitments(obs)) <==> SharesCommitment(obs, c) {
      RepeatedMeans(Commitments(obs), c);
      if i, j :| 0 <= i < j < |obs| && obs[i].commitment == obs[j].commitment == c {
        assert Commitments(obs)[i] == Commitments(obs)[j] == c;
      }
      if i, j :| 0 <= i < j < |obs| && Commitments(obs)[i] == Commitments(obs)[j] == c {
        assert obs[i].commitment == obs[j].commitment == c;
      }
    }
  }

  lemma UnresolvedMeans(obs: seq<Observation>)
    ensures forall p :: p in Unresolved(obs) <==> Unseen(obs, p)
  {
    hide ById;
    forall p ensures p in Unresolved(obs) <==> Unseen(obs, p) {
      KeyIsObserved(obs, p);
      if o :| o in obs && p in o.parents {
        var i :| 0 <= i < |obs| && obs[i] == o;
        assert p in obs[i].parents;
      }
    }
  }

  lemma CycleMeans(obs: seq<Observation>)
    ensures Acyclic(Parents(ById(obs))) <==> !HasCycle(obs)
  {
    hide ById, Names, Observed;
    var g := Parents(ById(obs));
    forall p ensures IsWalk(g, p) <==> |p| >= 1 && IsPath(obs, p) { WalkMeans(obs, p); }
    if p :| IsCycle(g, p) { assert |p| >= 2 && p[0] == p[|p| - 1] && IsPath(obs, p); }
    if p: seq<nat> :| |p| >= 2 && p[0] == p[|p| - 1] && IsPath(obs, p) { assert IsCycle(g, p); }
  }

  lemma WalkMeans(obs: seq<Observation>, p: seq<nat>)
    ensures IsWalk(Parents(ById(obs)), p) <==> |p| >= 1 && IsPath(obs, p)
  {
    hide ById, Names, Observed;
    var g := Parents(ById(obs));
    assert forall x :: x in g <==> x in ById(obs);
    forall k | 0 <= k < |p| ensures p[k] in g <==> Observed(obs, p[k]) { KeyIsObserved(obs, p[k]); }
    if |p| >= 1 && IsPath(obs, p) {
      forall k, m | 0 <= k && m == k + 1 && m < |p| ensures Edge(g, p[k], p[m]) {
        assert Names(obs, p[k], p[m]);
        EdgeMeans(obs, p[k], p[m]);
      }
    }
    if IsWalk(g, p) {
      forall k, m | 0 <= k && m == k + 1 && m < |p| ensures Names(obs, p[k], p[m]) {
        assert Edge(g, p[k], p[m]);
        EdgeMeans(obs, p[k], p[m]);
      }
    }
  }

  lemma NamesMeans(obs: seq<Observation>, x: nat, p: nat)
    ensures Names(obs, x, p) <==> x in ById(obs) && p in ById(obs)[x].parents
  {
    hide ById;
    if x in ById(obs) { KeptMeans(obs, x, ById(obs)[x]); }
    if i: nat :| LastAt(obs, i) && obs[i].eventId == x && p in obs[i].parents { KeptMeans(obs, x, obs[i]); }
  }

  /** The graph facts, by position. */
  lemma GraphFactsMean(obs: seq<Observation>, expected: nat, censoring: Censoring)
    requires obs != []
    ensures var f := FactsOf(obs, expected, censoring);
      && (forall p: nat, x: nat :: (p, x) in f.edges <==> Names(obs, x, p))
      && (forall x :: x in f.leaves <==> Observed(obs, x) && !exists y :: Names(obs, y, x))
      && (f.cyclic <==> HasCycle(obs))
  {
    hide ById, Names, Observed, Unresolved, Repeated, Violating, Verdict, HasCycle, Acyclic;
    var m, g, f := ById(obs), Parents(ById(obs)), FactsOf(obs, expected, censoring);
    CycleMeans(obs);
    forall p: nat, x: nat ensures (p, x) in f.edges <==> Names(obs, x, p) {
      NamesMeans(obs, x, p);
      if x in m && p in m[x].parents { assert (p, x) in f.edges; }
    }
    forall x ensures x in f.leaves <==> Observed(obs, x) && !exists y :: Names(obs, y, x) {
      KeyIsObserved(obs, x);
      if x in m {
        if y :| Names(obs, y, x) {
          NamesMeans(obs, y, x);
          assert y in ChildrenOf(g, x);
        }
        if y :| y in ChildrenOf(g, x) { NamesMeans(obs, y, x); }
      }
    }
  }

  /** The facts read off the counting observations, by position. */
  lemma KeptFactsMean(obs: seq<Observation>, expected: nat, censoring: Censoring)
    requires obs != []
    ensures var f := FactsOf(obs, expected, censoring);
      && (forall x: nat, c: nat :: (x, c) in f.commitments <==> exists i: nat :: LastAt(obs, i) && obs[i].eventId == x && obs[i].commitment == c)
      && (forall x :: x in f.roots <==> exists i: nat :: LastAt(obs, i) && obs[i].eventId == x && obs[i].parents == [])
  {
    hide ById, Unresolved, Repeated, Violating, Verdict, Acyclic;
    var m, f := ById(obs), FactsOf(obs, expected, censoring);
    forall x: nat, c: nat ensures (x, c) in f.commitments <==> exists i: nat :: LastAt(obs, i) && obs[i].eventId == x && obs[i].commitment == c {
      if x in m { KeptMeans(obs, x, m[x]); }
      if i: nat :| LastAt(obs, i) && obs[i].eventId == x && obs[i].commitment == c { KeptMeans(obs, x, obs[i]); }
    }
    forall x ensures x in f.roots <==> exists i: nat :: LastAt(obs, i) && obs[i].eventId == x && obs[i].parents == [] {
      if x in m { KeptMeans(obs, x, m[x]); }
      if i: nat :| LastAt(obs, i) && obs[i].eventId == x && obs[i].parents == [] { KeptMeans(obs, x, obs[i]); }
    }
  }

  lemma AttemptFactsMean(obs: seq<Observation>, expected: nat, censoring: Censoring)
    requires obs != []
    ensures var f := FactsOf(obs, expected, censoring);
      && (forall a :: a in f.attemptIds <==> exists i :: 0 <= i < |obs| && obs[i].attemptId == a)
      && (forall a :: a in f.idempotency <==> exists i :: 0 <= i < |obs| && obs[i].idempotency == a)
  {
    hide ById, Unresolved, Repeated, Violating, Verdict, Acyclic;
    var f := FactsOf(obs, expected, censoring);
    assert forall i :: 0 <= i < |obs| ==> obs[i] in obs;
  }

  lemma CompletenessMeans(obs: seq<Observation>, expected: nat, censoring: Censoring)
    requires obs != []
    ensures var f := FactsOf(obs, expected, censoring);
      && (f.completeness.Invalid? <==> Damaged(obs))
      && (f.completeness.Incomplete? <==> !Damaged(obs) && Incompletely(obs, expected, censoring))
      && (f.completeness.Whole? <==> !Damaged(obs) && !Incompletely(obs, expected, censoring))
  {
    hide ById, Unresolved, Repeated, SharesId, SharesCommitment, Unseen, Acyclic, HasCycle;
    CycleMeans(obs);
    DuplicatesMean(obs);
    UnresolvedMeans(obs);
    if Repeated(EventIds(obs)) != {} { var x :| x in Repeated(EventIds(obs)); }
    if Repeated(Commitments(obs)) != {} { var c :| c in Repeated(Commitments(obs)); }
    if Unresolved(obs) != {} { var p :| p in Unresolved(obs); }
    UnknownMeans(obs);
  }

  lemma UnknownMeans(obs: seq<Observation>)
    ensures (exists o :: o in obs && o.Unknown()) <==>
            exists i :: 0 <= i < |obs| && (obs[i].cause == UnknownCause || obs[i].routeReason == UnknownRoute || UnknownEncounter in obs[i].encounters)
  {
    if o :| o in obs && o.Unknown() {
      var i :| 0 <= i < |obs| && obs[i] == o;
      assert obs[i].Unknown();
    }
    if i :| 0 <= i < |obs| && (obs[i].cause == UnknownCause || obs[i].routeReason == UnknownRoute || UnknownEncounter in obs[i].encounters) {
      assert obs[i] in obs && obs[i].Unknown();
    }
  }

  lemma FactsOfAre(obs: seq<Observation>, expected: nat, censoring: Censoring)
    requires obs != [] && OneOperation(obs)
    ensures FactsAre(FactsOf(obs, expected, censoring), obs, expected, censoring)
  {
    hide ById, Repeated, Verdict, Acyclic, HasCycle, Damaged, Incompletely, Names, Observed, SharesId, SharesCommitment, Unseen, LastAt,
         ViolationsOf, Violating, Unresolved;
    GraphFactsMean(obs, expected, censoring);
    KeptFactsMean(obs, expected, censoring);
    AttemptFactsMean(obs, expected, censoring);
    CompletenessMeans(obs, expected, censoring);
    DuplicatesMean(obs);
    UnresolvedMeans(obs);
    forall x ensures FactsOf(obs, expected, censoring).routeViolations[x] == |ViolationsOf(obs, x)| { ViolationsCount(obs, x); }
    assert forall i :: 0 <= i < |obs| ==> obs[i] in obs;
  }

  /** Every fact of an accepted record is what its observations say. */
  lemma AcceptedMeans(r: Accounting)
    requires Accepted(r)
    ensures FactsAre(r.facts, r.observations, r.expected, r.censoring)
  {
    hide FactsAre, FactsOf;
    assert !Breaks(r.observations, SeveralOperations);
    FactsOfAre(r.observations, r.expected, r.censoring);
  }

  // ------------------------------------------------------------------- rules

  /** The conditions on all observations, by position. */
  ghost predicate AttemptsAgree(obs: seq<Observation>) {
    && (forall i, j :: 0 <= i < |obs| && 0 <= j < |obs| ==> obs[i].operation == obs[j].operation)
    && (forall i, j :: 0 <= i < |obs| && 0 <= j < |obs| && obs[i].attemptId == obs[j].attemptId ==>
          obs[i].ordinal == obs[j].ordinal && obs[i].cause == obs[j].cause)
    && (forall i, j :: 0 <= i < |obs| && 0 <= j < |obs| && obs[i].ordinal == obs[j].ordinal ==> obs[i].attemptId == obs[j].attemptId)
    && (forall i, k: nat :: 0 <= i < |obs| && 1 <= k < obs[i].ordinal ==> OrdinalSeen(obs, k))
    && (forall i :: 0 <= i < |obs| && obs[i].ordinal >= 2 ==> StartedBefore(obs, obs[i].ordinal - 1, obs[i].at))
  }

  ghost predicate OrdinalSeen(obs: seq<Observation>, k: nat) {
    exists j :: 0 <= j < |obs| && obs[j].ordinal == k
  }

  /** The attempt with this ordinal was observed at this time or earlier. */
  ghost predicate StartedBefore(obs: seq<Observation>, k: int, at: int) {
    exists j :: 0 <= j < |obs| && obs[j].ordinal == k && obs[j].at <= at
  }

  /** The conditions on counting observations and their observed parents. */
  ghost predicate ParentsAgree(obs: seq<Observation>) {
    && (forall i: nat :: LastAt(obs, i) && obs[i].ordinal > 1 ==> HasEarlierParent(obs, i))
    && (forall i: nat, j: nat :: LastAt(obs, i) && LastAt(obs, j) && obs[j].eventId in obs[i].parents ==>
          obs[j].at <= obs[i].at && (!HasCycle(obs) ==> obs[j].ordinal <= obs[i].ordinal))
  }

  ghost predicate HasEarlierParent(obs: seq<Observation>, i: nat)
    requires i < |obs|
  {
    exists j: nat :: LastAt(obs, j) && obs[j].eventId in obs[i].parents && obs[j].ordinal < obs[i].ordinal
  }

  lemma AtMeans(obs: seq<Observation>, k: nat)
    ensures HasOrdinal(obs, k) <==> OrdinalSeen(obs, k)
  {
    if o :| o in obs && o.ordinal == k {
      var j :| 0 <= j < |obs| && obs[j] == o;
      assert obs[j].ordinal == k;
    }
    if j :| 0 <= j < |obs| && obs[j].ordinal == k { assert obs[j] in obs; }
  }

  ghost predicate StartInOrder(obs: seq<Observation>) {
    forall i :: 0 <= i < |obs| && obs[i].ordinal >= 2 ==> StartedBefore(obs, obs[i].ordinal - 1, obs[i].at)
  }

  /** With every earlier ordinal seen, attempts start in order exactly when each observation has an earlier one of the attempt before. */
  lemma TimesMean(obs: seq<Observation>)
    requires forall i, k: nat :: 0 <= i < |obs| && 1 <= k < obs[i].ordinal ==> OrdinalSeen(obs, k)
    ensures AttemptsInTime(obs) <==> StartInOrder(obs)
  {
    hide AttemptsInTime, StartInOrder;
    if AttemptsInTime(obs) { AllStartInOrder(obs); }
    if StartInOrder(obs) { NoneStartsLate(obs); }
  }

  lemma AllStartInOrder(obs: seq<Observation>)
    requires forall i, k: nat :: 0 <= i < |obs| && 1 <= k < obs[i].ordinal ==> OrdinalSeen(obs, k)
    requires AttemptsInTime(obs)
    ensures StartInOrder(obs)
  {
    hide AttemptsInTime, OrdinalSeen, StartedBefore;
    forall i | 0 <= i < |obs| && obs[i].ordinal >= 2 ensures StartedBefore(obs, obs[i].ordinal - 1, obs[i].at) {
      StartsInOrder(obs, i);
    }
  }

  lemma NoneStartsLate(obs: seq<Observation>)
    requires StartInOrder(obs)
    ensures AttemptsInTime(obs)
  {
    hide Earliest, StartInOrder, HasOrdinal;
    forall o | o in obs && o.ordinal >= 2 && HasOrdinal(obs, o.ordinal) && HasOrdinal(obs, o.ordinal - 1)
      ensures Earliest(obs, o.ordinal - 1) <= Earliest(obs, o.ordinal)
    {
      StartNotLater(obs, o.ordinal);
    }
  }

  lemma StartsInOrder(obs: seq<Observation>, i: nat)
    requires i < |obs| && obs[i].ordinal >= 2 && AttemptsInTime(obs) && OrdinalSeen(obs, obs[i].ordinal - 1)
    ensures StartedBefore(obs, obs[i].ordinal - 1, obs[i].at)
  {
    hide Earliest;
    var k := obs[i].ordinal;
    assert obs[i] in obs;
    AtMeans(obs, k - 1);
    EarliestIsAttained(obs, k - 1);
    var o :| o in obs && o.ordinal == k - 1 && o.at == Earliest(obs, k - 1);
    var j :| 0 <= j < |obs| && obs[j] == o;
    assert obs[j].at <= obs[i].at;
  }

  lemma StartNotLater(obs: seq<Observation>, k: nat)
    requires k >= 2 && HasOrdinal(obs, k) && HasOrdinal(obs, k - 1) && StartInOrder(obs)
    ensures Earliest(obs, k - 1) <= Earliest(obs, k)
  {
    hide Earliest;
    EarliestIsAttained(obs, k);
    var o :| o in obs && o.ordinal == k && o.at == Earliest(obs, k);
    var i :| 0 <= i < |obs| && obs[i] == o;
    assert StartedBefore(obs, obs[i].ordinal - 1, obs[i].at);
    var j :| 0 <= j < |obs| && obs[j].ordinal == k - 1 && obs[j].at <= o.at;
    assert obs[j] in obs;
  }

  lemma AttemptsMean(obs: seq<Observation>)
    ensures OneOperation(obs) && AttemptsBind(obs) && OrdinalsBind(obs) && OrdinalsContiguous(obs) && AttemptsInTime(obs) <==> AttemptsAgree(obs)
  {
    hide AttemptsInTime, OrdinalSeen, HasOrdinal, StartedBefore;
    assert forall i :: 0 <= i < |obs| ==> obs[i] in obs;
    forall k: nat ensures HasOrdinal(obs, k) <==> OrdinalSeen(obs, k) { AtMeans(obs, k); }
    assert OrdinalsContiguous(obs) <==> forall i, k: nat :: 0 <= i < |obs| && 1 <= k < obs[i].ordinal ==> OrdinalSeen(obs, k);
    if OrdinalsContiguous(obs) { TimesMean(obs); }
  }

  lemma RetriesMean(obs: seq<Observation>)
    ensures RetriesDescend(ById(obs)) <==> forall i: nat :: LastAt(obs, i) && obs[i].ordinal > 1 ==> HasEarlierParent(obs, i)
  {
    hide ById;
    var m := ById(obs);
    forall i: nat | LastAt(obs, i)
      ensures obs[i].eventId in m && m[obs[i].eventId] == obs[i] && (HasEarlierParent(obs, i) <==> HasPriorAttempt(m, obs[i].eventId))
    {
      KeptIsLastAt(obs, i);
      EarlierParentMeans(obs, i);
    }
    forall x | x in m ensures exists i: nat :: LastAt(obs, i) && obs[i].eventId == x && obs[i] == m[x] { KeptMeans(obs, x, m[x]); }
  }

  lemma EarlierParentMeans(obs: seq<Observation>, i: nat)
    requires LastAt(obs, i) && obs[i].eventId in ById(obs) && ById(obs)[obs[i].eventId] == obs[i]
    ensures HasEarlierParent(obs, i) <==> HasPriorAttempt(ById(obs), obs[i].eventId)
  {
    hide ById;
    var m := ById(obs);
    if j: nat :| LastAt(obs, j) && obs[j].eventId in obs[i].parents && obs[j].ordinal < obs[i].ordinal { KeptIsLastAt(obs, j); }
    if p :| p in obs[i].parents && p in m && m[p].ordinal < obs[i].ordinal { KeptMeans(obs, p, m[p]); }
  }

  lemma ParentPairsMean(obs: seq<Observation>)
    ensures ParentsInTime(ById(obs)) <==>
            forall i: nat, j: nat :: LastAt(obs, i) && LastAt(obs, j) && obs[j].eventId in obs[i].parents ==> obs[j].at <= obs[i].at
    ensures ParentsInAttempt(ById(obs)) <==>
            forall i: nat, j: nat :: LastAt(obs, i) && LastAt(obs, j) && obs[j].eventId in obs[i].parents ==> obs[j].ordinal <= obs[i].ordinal
  {
    hide ById, LastAt;
    var m := ById(obs);
    forall i: nat | LastAt(obs, i) ensures i < |obs| && obs[i].eventId in m && m[obs[i].eventId] == obs[i] { LastIsKept(obs, i); }
    forall x | x in m ensures KeptSomewhere(obs, x) { KeptHasPlace(obs, x); }
  }

  lemma LastIsKept(obs: seq<Observation>, i: nat)
    requires LastAt(obs, i)
    ensures i < |obs| && obs[i].eventId in ById(obs) && ById(obs)[obs[i].eventId] == obs[i]
  {
    KeptIsLastAt(obs, i);
  }

  ghost predicate KeptSomewhere(obs: seq<Observation>, x: nat)
    requires x in ById(obs)
  {
    exists i: nat :: LastAt(obs, i) && i < |obs| && obs[i].eventId == x && obs[i] == ById(obs)[x]
  }

  lemma KeptHasPlace(obs: seq<Observation>, x: nat)
    requires x in ById(obs)
    ensures KeptSomewhere(obs, x)
  {
    KeptMeans(obs, x, ById(obs)[x]);
  }

  /** When all rules hold, by position. */
  lemma RulesMean(obs: seq<Observation>)
    ensures KeepsRules(obs) <==> obs != [] && AttemptsAgree(obs) && ParentsAgree(obs)
  {
    hide ById, OneOperation, AttemptsBind, OrdinalsBind, OrdinalsContiguous, AttemptsInTime, RetriesDescend, ParentsInTime,
         ParentsInAttempt, Acyclic, AttemptsAgree, HasEarlierParent, HasCycle, LastAt;
    AttemptsMean(obs);
    RetriesMean(obs);
    ParentPairsMean(obs);
    CycleMeans(obs);
    SplitRules(obs);
  }

  lemma SplitRules(obs: seq<Observation>)
    ensures KeepsRules(obs) <==>
            && obs != []
            && OneOperation(obs) && AttemptsBind(obs) && OrdinalsBind(obs) && OrdinalsContiguous(obs) && AttemptsInTime(obs)
            && RetriesDescend(ById(obs)) && ParentsInTime(ById(obs))
            && (Acyclic(Parents(ById(obs))) ==> ParentsInAttempt(ById(obs)))
  {
    hide ById, OneOperation, AttemptsBind, OrdinalsBind, OrdinalsContiguous, AttemptsInTime, RetriesDescend, ParentsInTime,
         ParentsInAttempt, Acyclic;
    if KeepsRules(obs) {
      assert !Breaks(obs, SeveralOperations) && !Breaks(obs, AttemptConflict) && !Breaks(obs, OrdinalConflict) && !Breaks(obs, OrdinalGap);
      assert !Breaks(obs, NoPriorAttempt) && !Breaks(obs, AttemptTime) && !Breaks(obs, ParentTime) && !Breaks(obs, ParentAttempt);
    }
  }

  // --------------------------------------------------------- canonical order

  /** Canonical order, spelled out: event, then ordinal, then attempt, then commitment. */
  lemma CanonicalMeans(obs: seq<Observation>)
    ensures multiset(Canonical(obs)) == multiset(obs)
    ensures var c := Canonical(obs);
      forall i, j :: 0 <= i < j < |c| ==>
        && c[i].eventId <= c[j].eventId
        && (c[i].eventId == c[j].eventId ==> c[i].ordinal <= c[j].ordinal)
        && (c[i].eventId == c[j].eventId && c[i].ordinal == c[j].ordinal ==> c[i].attemptId <= c[j].attemptId)
        && (c[i].eventId == c[j].eventId && c[i].ordinal == c[j].ordinal && c[i].attemptId == c[j].attemptId ==>
              c[i].commitment <= c[j].commitment)
  {
    hide Canonical;
    CanonicalSorts(obs);
  }

  /** When a record is built, by position in canonical order. */
  lemma BuildableMeans(expected: nat, arrived: seq<Observation>, censoring: Censoring)
    ensures var obs := Canonical(arrived);
      Built(expected, arrived, censoring).Some? <==>
      && 1 <= |arrived| <= MAX_EVENTS && 1 <= expected <= MAX_EVENTS
      && AttemptsAgree(obs) && ParentsAgree(obs)
      && forall i, j :: 0 <= i < j < |obs| && !obs[i].routePermitted && !obs[j].routePermitted ==> obs[i].eventId != obs[j].eventId
  {
    hide Canonical, KeepsRules, AttemptsAgree, ParentsAgree, FactsOf, NoRepeatedViolation;
    CanonicalSorts(arrived);
    RulesMean(Canonical(arrived));
    RepeatedViolationMeans(Canonical(arrived));
  }

  lemma RepeatedViolationMeans(obs: seq<Observation>)
    ensures NoRepeatedViolation(obs) <==>
            forall i, j :: 0 <= i < j < |obs| && !obs[i].routePermitted && !obs[j].routePermitted ==> obs[i].eventId != obs[j].eventId
  {
    hide Violating;
    forall x ensures Violating(obs)[x] == |ViolationsOf(obs, x)| { ViolationsCount(obs, x); }
    if i, j :| 0 <= i < j < |obs| && !obs[i].routePermitted && !obs[j].routePermitted && obs[i].eventId == obs[j].eventId {
      SubsetCount({i, j}, ViolationsOf(obs, obs[i].eventId));
    }
    if x :| Violating(obs)[x] > 1 {
      var i :| i in ViolationsOf(obs, x);
      SmallerLeavesSome({i}, ViolationsOf(obs, x));
      var j :| j in ViolationsOf(obs, x) - {i};
    }
  }

  /** What the builder returns: the observations in canonical order, their span, the counts given and the facts of `FactsAre`. */
  lemma BuiltMeans(expected: nat, arrived: seq<Observation>, censoring: Censoring)
    requires Built(expected, arrived, censoring).Some?
    ensures var r := Built(expected, arrived, censoring).value;
      && r.observations == Canonical(arrived) && r.expected == expected && r.censoring == censoring
      && (exists i :: 0 <= i < |r.observations| && r.observations[i].at == r.start)
      && (exists i :: 0 <= i < |r.observations| && r.observations[i].at == r.end)
      && (forall i :: 0 <= i < |r.observations| ==> r.start <= r.observations[i].at <= r.end)
      && FactsAre(r.facts, r.observations, expected, censoring)
  {
    hide FactsAre, FactsOf, Canonical, FirstTime, LastTime;
    var r := Built(expected, arrived, censoring).value;
    assert !Breaks(r.observations, SeveralOperations);
    FactsOfAre(r.observations, expected, censoring);
    var o :| o in r.observations && o.at == r.start;
    var q :| q in r.observations && q.at == r.end;
    assert forall i :: 0 <= i < |r.observations| ==> r.observations[i] in r.observations;
  }
}
