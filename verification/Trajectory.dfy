/**
 * Trajectory accounting: the facts recomputed from the observations, the retry and time
 * rules, the builder and the validator.
 *
 * Tuples that the record keeps sorted and duplicate-free are modelled as sets; the
 * route violations, which the builder does not de-duplicate, as a multiset.
 *
 * Main results: `Build` (when a record comes out, exactly), `RetryChain`,
 * `CycleSharesOneInstant`, `CompleteDescendsFromRoots`, `ArrivalOrderIsIrrelevant`.
 */
module Trajectory {
  import opened Wrappers
  import opened Digraph
  import opened Ordering
  import opened Kahn
  import opened CanonicalOrder

  datatype Censoring = Complete | LeftCensored | RightCensored

  datatype Completeness = Whole | Incomplete | Invalid

  datatype Violation =
    | SeveralOperations | AttemptConflict | OrdinalConflict | OrdinalGap
    | NoPriorAttempt | AttemptTime | ParentTime | ParentAttempt

  datatype Facts = Facts(
    operation: nat, count: nat, commitments: set<(nat, nat)>, edges: set<(nat, nat)>,
    attemptIds: set<nat>, idempotency: set<nat>, routeViolations: multiset<nat>,
    roots: set<nat>, leaves: set<nat>, unresolved: set<nat>, duplicates: set<nat>, duplicateCommitments: set<nat>,
    cyclic: bool, completeness: Completeness)

  // ------------------------------------------------------------ dictionary

  /** The last observation of each event identifier. */
  function ById(obs: seq<Observation>): (m: map<nat, Observation>)
    ensures forall x :: x in m ==> m[x] in obs && m[x].eventId == x
    ensures forall o :: o in obs ==> o.eventId in m
  {
    if obs == [] then map[]
    else
      var n := |obs| - 1;
      assert obs == obs[..n] + [obs[n]];
      ById(obs[..n])[obs[n].eventId := obs[n]]
  }

  function Parents(m: map<nat, Observation>): map<nat, seq<nat>> {
    map x | x in m :: m[x].parents
  }

  // ----------------------------------------------------------------- rules

  predicate OneOperation(obs: seq<Observation>) {
    forall a, b :: a in obs && b in obs ==> a.operation == b.operation
  }

  predicate AttemptsBind(obs: seq<Observation>) {
    forall a, b :: a in obs && b in obs && a.attemptId == b.attemptId ==> a.ordinal == b.ordinal && a.cause == b.cause
  }

  predicate OrdinalsBind(obs: seq<Observation>) {
    forall a, b :: a in obs && b in obs && a.ordinal == b.ordinal ==> a.attemptId == b.attemptId
  }

  predicate HasOrdinal(obs: seq<Observation>, k: nat) {
    exists o :: o in obs && o.ordinal == k
  }

  predicate OrdinalsContiguous(obs: seq<Observation>) {
    forall o :: o in obs ==> forall k :: 1 <= k < o.ordinal ==> HasOrdinal(obs, k)
  }

  /** Some observed parent of x belongs to an earlier attempt. */
  predicate HasPriorAttempt(m: map<nat, Observation>, x: nat)
    requires x in m
  {
    exists p :: p in m[x].parents && p in m && m[p].ordinal < m[x].ordinal
  }

  predicate RetriesDescend(m: map<nat, Observation>) {
    forall x :: x in m && m[x].ordinal > 1 ==> HasPriorAttempt(m, x)
  }

  function Earliest(obs: seq<Observation>, k: nat): (t: int)
    requires HasOrdinal(obs, k)
    ensures forall o :: o in obs && o.ordinal == k ==> t <= o.at
  {
    var n := |obs| - 1;
    assert obs == obs[..n] + [obs[n]];
    if obs[n].ordinal != k then Earliest(obs[..n], k)
    else if !HasOrdinal(obs[..n], k) then obs[n].at
    else
      var t := Earliest(obs[..n], k);
      if obs[n].at < t then obs[n].at else t
  }

  /** The earliest time of an attempt does not precede that of the attempt before. */
  predicate AttemptsInTime(obs: seq<Observation>) {
    forall o :: o in obs && o.ordinal >= 2 && HasOrdinal(obs, o.ordinal) && HasOrdinal(obs, o.ordinal - 1) ==>
      Earliest(obs, o.ordinal - 1) <= Earliest(obs, o.ordinal)
  }

  predicate ParentsInTime(m: map<nat, Observation>) {
    forall x, p :: x in m && p in m && p in m[x].parents ==> m[p].at <= m[x].at
  }

  predicate ParentsInAttempt(m: map<nat, Observation>) {
    forall x, p :: x in m && p in m && p in m[x].parents ==> m[p].ordinal <= m[x].ordinal
  }

  ghost predicate Breaks(obs: seq<Observation>, v: Violation) {
    var m := ById(obs);
    match v
    case SeveralOperations => obs == [] || !OneOperation(obs)
    case AttemptConflict => !AttemptsBind(obs)
    case OrdinalConflict => !OrdinalsBind(obs)
    case OrdinalGap => !OrdinalsContiguous(obs)
    case NoPriorAttempt => !RetriesDescend(m)
    case AttemptTime => !AttemptsInTime(obs)
    case ParentTime => !ParentsInTime(m)
    case ParentAttempt => Acyclic(Parents(m)) && !ParentsInAttempt(m)
  }

  ghost predicate KeepsRules(obs: seq<Observation>) {
    forall v :: !Breaks(obs, v)
  }

  // ----------------------------------------------------------------- facts

  function EventIds(obs: seq<Observation>): seq<nat> {
    seq(|obs|, i requires 0 <= i < |obs| => obs[i].eventId)
  }

  function Commitments(obs: seq<Observation>): seq<nat> {
    seq(|obs|, i requires 0 <= i < |obs| => obs[i].commitment)
  }

  function Repeated(s: seq<nat>): set<nat> {
    set x | x in s && multiset(s)[x] > 1
  }

  function Violating(obs: seq<Observation>): multiset<nat> {
    if obs == [] then multiset{}
    else Violating(obs[1..]) + if obs[0].routePermitted then multiset{} else multiset{obs[0].eventId}
  }

  function Unresolved(obs: seq<Observation>): set<nat> {
    var m := ById(obs);
    set o, p | o in obs && p in o.parents && p !in m :: p
  }

  function Verdict(obs: seq<Observation>, expected: nat, censoring: Censoring, cyclic: bool): Completeness {
    if cyclic || Repeated(EventIds(obs)) != {} || Repeated(Commitments(obs)) != {} then Invalid
    else if Unresolved(obs) != {} || expected != |obs| || !censoring.Complete? || exists o :: o in obs && o.Unknown() then Incomplete
    else Whole
  }

  function Assemble(obs: seq<Observation>, expected: nat, censoring: Censoring, leaves: set<nat>, cyclic: bool): Facts
    requires obs != []
  {
    var m := ById(obs);
    Facts(
      obs[0].operation, |obs|,
      (set x | x in m :: (x, m[x].commitment)),
      (set x, p | x in m && p in m[x].parents :: (p, x)),
      (set o | o in obs :: o.attemptId),
      (set o | o in obs :: o.idempotency),
      Violating(obs),
      (set x | x in m && m[x].parents == []),
      leaves, Unresolved(obs), Repeated(EventIds(obs)), Repeated(Commitments(obs)),
      cyclic, Verdict(obs, expected, censoring, cyclic))
  }

  /** The facts, with the graph facts described rather than computed. */
  ghost function FactsOf(obs: seq<Observation>, expected: nat, censoring: Censoring): Facts
    requires obs != []
  {
    var g := Parents(ById(obs));
    Assemble(obs, expected, censoring, (set x | x in g && ChildrenOf(g, x) == {}), !Acyclic(g))
  }

  lemma ParentsAreDistinct(obs: seq<Observation>)
    requires forall o :: o in obs ==> o.Valid()
    ensures var g := Parents(ById(obs)); forall c :: c in g ==> Distinct(g[c])
  {
  }

  /** Leaves and cycle verdict, by the removal count. */
  method GraphFacts(obs: seq<Observation>) returns (leaves: set<nat>, cyclic: bool)
    requires forall o :: o in obs ==> o.Valid()
    ensures var g := Parents(ById(obs)); leaves == (set x | x in g && ChildrenOf(g, x) == {}) && (cyclic <==> !Acyclic(g))
  {
    var m := ById(obs);
    ParentsAreDistinct(obs);
    var ids := Sorted(m.Keys);
    KeysAreListed(m, ids);
    var visited, children := CountRemovable(Parents(m), ids);
    leaves := m.Keys - children.Keys;
    cyclic := visited != |m|;
  }

  lemma KeysAreListed(m: map<nat, Observation>, ids: seq<nat>)
    requires Ascending(ids) && forall x :: x in ids <==> x in m
    ensures Distinct(ids) && Elements(ids) == Parents(m).Keys && |Parents(m)| == |m|
  {
    assert Parents(m).Keys == m.Keys;
    assert |Parents(m).Keys| == |Parents(m)| && |m.Keys| == |m|;
  }

  /** Recomputes every redundant fact, or reports the first broken rule. */
  method ExpectedFacts(obs: seq<Observation>, expected: nat, censoring: Censoring) returns (r: Result<Facts, Violation>)
    requires forall o :: o in obs ==> o.Valid()
    ensures r.Ok? <==> KeepsRules(obs)
    ensures r.Ok? ==> obs != [] && r.value == FactsOf(obs, expected, censoring)
    ensures r.Err? ==> Breaks(obs, r.error)
  {
    if obs == [] || !OneOperation(obs) { assert Breaks(obs, SeveralOperations); return Err(SeveralOperations); }
    if !AttemptsBind(obs) { assert Breaks(obs, AttemptConflict); return Err(AttemptConflict); }
    if !OrdinalsBind(obs) { assert Breaks(obs, OrdinalConflict); return Err(OrdinalConflict); }
    if !OrdinalsContiguous(obs) { assert Breaks(obs, OrdinalGap); return Err(OrdinalGap); }
    var m := ById(obs);
    if !RetriesDescend(m) { assert Breaks(obs, NoPriorAttempt); return Err(NoPriorAttempt); }
    if !AttemptsInTime(obs) { assert Breaks(obs, AttemptTime); return Err(AttemptTime); }
    if !ParentsInTime(m) { assert Breaks(obs, ParentTime); return Err(ParentTime); }
    var leaves, cyclic := GraphFacts(obs);
    if !cyclic && !ParentsInAttempt(m) { assert Breaks(obs, ParentAttempt); return Err(ParentAttempt); }
    assert forall v :: !Breaks(obs, v);
    return Ok(Assemble(obs, expected, censoring, leaves, cyclic));
  }

  // ------------------------------------------------------ record, validator

  /** The domain-separated digest of the whole observation unit. */
  datatype TrajectoryId = Unit(observations: seq<Observation>, expected: nat, start: int, end: int, censoring: Censoring)

  datatype Accounting = Accounting(id: TrajectoryId, expected: nat, start: int, end: int, censoring: Censoring,
                                   observations: seq<Observation>, facts: Facts)

  function FirstTime(obs: seq<Observation>): (t: int)
    requires obs != []
    ensures (exists o :: o in obs && o.at == t) && forall o :: o in obs ==> t <= o.at
  {
    if |obs| == 1 then obs[0].at
    else
      var t := FirstTime(obs[1..]);
      assert obs == [obs[0]] + obs[1..];
      if obs[0].at < t then obs[0].at else t
  }

  function LastTime(obs: seq<Observation>): (t: int)
    requires obs != []
    ensures (exists o :: o in obs && o.at == t) && forall o :: o in obs ==> o.at <= t
  {
    if |obs| == 1 then obs[0].at
    else
      var t := LastTime(obs[1..]);
      assert obs == [obs[0]] + obs[1..];
      if obs[0].at > t then obs[0].at else t
  }

  predicate HorizonFits(r: Accounting)
    requires r.observations != []
  {
    var first, last := FirstTime(r.observations), LastTime(r.observations);
    && r.start <= r.end
    && (match r.censoring
        case Complete => r.start == first && r.end == last
        case LeftCensored => r.start <= first && r.end == last
        case RightCensored => r.start == first && last <= r.end)
  }

  /** No event is listed twice among the route violations. */
  predicate ViolationsUnique(f: Facts) {
    forall x :: x in f.routeViolations ==> f.routeViolations[x] == 1
  }

  /** The size limit of every fact. */
  predicate SizesFit(f: Facts) {
    && f.count <= MAX_EVENTS && |f.commitments| <= MAX_EVENTS
    && |f.edges| <= MAX_EVENTS * MAX_EVENT_PARENTS && |f.unresolved| <= MAX_EVENTS * MAX_EVENT_PARENTS
    && |f.attemptIds| <= MAX_EVENTS && |f.idempotency| <= MAX_EVENTS && |f.routeViolations| <= MAX_EVENTS
    && |f.roots| <= MAX_EVENTS && |f.leaves| <= MAX_EVENTS
    && |f.duplicates| <= MAX_EVENTS && |f.duplicateCommitments| <= MAX_EVENTS
  }

  /** Field bounds of the record. */
  predicate WithinBounds(r: Accounting) {
    1 <= |r.observations| <= MAX_EVENTS && 1 <= r.expected <= MAX_EVENTS && SizesFit(r.facts)
  }

  /** What the validator accepts, with the recomputed facts described. */
  ghost predicate Accepted(r: Accounting) {
    && (forall o :: o in r.observations ==> o.Valid())
    && WithinBounds(r) && ViolationsUnique(r.facts) && HorizonFits(r)
    && r.observations == Canonical(r.observations)
    && KeepsRules(r.observations)
    && r.facts == FactsOf(r.observations, r.expected, r.censoring)
    && r.id == Unit(r.observations, r.expected, r.start, r.end, r.censoring)
  }

  method Validate(r: Accounting) returns (ok: bool)
    requires forall o :: o in r.observations ==> o.Valid()
    ensures ok <==> Accepted(r)
  {
    if !WithinBounds(r) || !ViolationsUnique(r.facts) || !HorizonFits(r) { return false; }
    if r.observations != Canonical(r.observations) { return false; }
    var facts := ExpectedFacts(r.observations, r.expected, r.censoring);
    if facts.Err? || r.facts != facts.value { return false; }
    return r.id == Unit(r.observations, r.expected, r.start, r.end, r.censoring);
  }

  // ------------------------------------------------------------------ sizes

  lemma {:induction false} ParentsNamed(obs: seq<Observation>) returns (named: set<nat>)
    requires forall o :: o in obs ==> o.Valid()
    ensures |named| <= MAX_EVENT_PARENTS * |obs|
    ensures forall o, p :: o in obs && p in o.parents ==> p in named
  {
    if obs == [] {
      named := {};
    } else {
      assert obs == [obs[0]] + obs[1..];
      var rest := ParentsNamed(obs[1..]);
      assert obs[0] in obs;
      DistinctExactly(obs[0].parents);
      named := rest + Elements(obs[0].parents);
    }
  }

  lemma UnresolvedBounded(obs: seq<Observation>)
    requires forall o :: o in obs ==> o.Valid()
    ensures |Unresolved(obs)| <= MAX_EVENT_PARENTS * |obs|
  {
    var named := ParentsNamed(obs);
    SubsetCount(Unresolved(obs), named);
  }

  ghost function EdgesOver(m: map<nat, Observation>, ids: set<nat>): set<(nat, nat)> {
    set x, p | x in ids && x in m && p in m[x].parents :: (p, x)
  }

  lemma {:induction false} EdgesFrom(m: map<nat, Observation>, x: nat)
    requires x in m && Distinct(m[x].parents) && |m[x].parents| <= MAX_EVENT_PARENTS
    ensures |EdgesOver(m, {x})| <= MAX_EVENT_PARENTS
  {
    var pairs := seq(|m[x].parents|, i requires 0 <= i < |m[x].parents| => (m[x].parents[i], x));
    DistinctExactly(pairs);
    forall e | e in EdgesOver(m, {x}) ensures e in Elements(pairs) {
      var i :| 0 <= i < |m[x].parents| && m[x].parents[i] == e.0;
      assert pairs[i] == e;
    }
    SubsetCount(EdgesOver(m, {x}), Elements(pairs));
  }

  lemma {:induction false} EdgesBounded(m: map<nat, Observation>, ids: set<nat>)
    requires ids <= m.Keys && forall x :: x in m ==> m[x].Valid()
    ensures |EdgesOver(m, ids)| <= MAX_EVENT_PARENTS * |ids|
  {
    if x :| x in ids {
      EdgesBounded(m, ids - {x});
      EdgesFrom(m, x);
      assert EdgesOver(m, ids) == EdgesOver(m, ids - {x}) + EdgesOver(m, {x});
      assert |ids| == |ids - {x}| + 1;
    }
  }

  lemma {:induction false} ByIdCount(obs: seq<Observation>)
    ensures |ById(obs).Keys| <= |obs|
  {
    if obs != [] {
      var n := |obs| - 1;
      ByIdCount(obs[..n]);
      assert ById(obs).Keys == ById(obs[..n]).Keys + {obs[n].eventId};
    }
  }

  lemma {:induction false} ViolatingCount(obs: seq<Observation>)
    ensures |Violating(obs)| <= |obs|
  {
    if obs != [] {
      ViolatingCount(obs[1..]);
    }
  }

  lemma ListedCount<T>(s: seq<T>, part: set<T>)
    requires forall x :: x in part ==> x in s
    ensures |part| <= |s|
  {
    DistinctExactly(s);
    SubsetCount(part, Elements(s));
  }

  lemma AttemptsBounded(obs: seq<Observation>, expected: nat, censoring: Censoring)
    requires obs != []
    ensures var f := FactsOf(obs, expected, censoring); |f.attemptIds| <= |obs| && |f.idempotency| <= |obs|
  {
    hide ById, Unresolved, Violating, Repeated, Acyclic, Verdict;
    var f := FactsOf(obs, expected, censoring);
    var attempts := seq(|obs|, i requires 0 <= i < |obs| => obs[i].attemptId);
    var identities := seq(|obs|, i requires 0 <= i < |obs| => obs[i].idempotency);
    forall x | x in f.attemptIds ensures x in attempts {
      var i :| 0 <= i < |obs| && obs[i].attemptId == x;
      assert attempts[i] == x;
    }
    forall x | x in f.idempotency ensures x in identities {
      var i :| 0 <= i < |obs| && obs[i].idempotency == x;
      assert identities[i] == x;
    }
    ListedCount(attempts, f.attemptIds);
    ListedCount(identities, f.idempotency);
  }

  lemma NodesBounded(obs: seq<Observation>, expected: nat, censoring: Censoring)
    requires obs != []
    ensures var f := FactsOf(obs, expected, censoring); |f.commitments| <= |obs| && |f.roots| <= |obs| && |f.leaves| <= |obs|
  {
    hide Unresolved, Violating, Repeated, Acyclic, Verdict, ById;
    var m, f := ById(obs), FactsOf(obs, expected, censoring);
    ByIdCount(obs);
    SubsetCount(f.roots, m.Keys);
    SubsetCount(f.leaves, m.Keys);
    var ids := Sorted(m.Keys);
    assert forall i :: 0 <= i < |ids| ==> ids[i] in ids;
    var commitments := seq(|ids|, i requires 0 <= i < |ids| => (ids[i], m[ids[i]].commitment));
    forall c | c in f.commitments ensures c in commitments {
      assert c.0 in ids;
      var i :| 0 <= i < |ids| && ids[i] == c.0;
      assert commitments[i] == c;
    }
    ListedCount(commitments, f.commitments);
  }

  lemma RepeatsBounded(obs: seq<Observation>)
    ensures |Repeated(EventIds(obs))| <= |obs| && |Repeated(Commitments(obs))| <= |obs|
  {
    ListedCount(EventIds(obs), Repeated(EventIds(obs)));
    ListedCount(Commitments(obs), Repeated(Commitments(obs)));
  }

  /** The size limits of the record never reject the facts of a bounded trajectory. */
  lemma FactsFit(obs: seq<Observation>, expected: nat, censoring: Censoring)
    requires 1 <= |obs| <= MAX_EVENTS && forall o :: o in obs ==> o.Valid()
    ensures SizesFit(FactsOf(obs, expected, censoring))
  {
    hide ById, Unresolved, Violating, Repeated, Acyclic;
    var m, f := ById(obs), FactsOf(obs, expected, censoring);
    UnresolvedBounded(obs);
    EdgesBounded(m, m.Keys);
    assert f.edges == EdgesOver(m, m.Keys);
    ByIdCount(obs);
    ViolatingCount(obs);
    AttemptsBounded(obs, expected, censoring);
    RepeatsBounded(obs);
    NodesBounded(obs, expected, censoring);
  }

  // ---------------------------------------------------------------- builder

  /** Among the observations with forbidden routes no event identifier occurs twice. */
  ghost predicate NoRepeatedViolation(obs: seq<Observation>) {
    forall x :: Violating(obs)[x] <= 1
  }

  /** When the builder produces a record: counts in range, rules kept, no violation reported twice. */
  ghost predicate Buildable(expected: nat, arrived: seq<Observation>) {
    && 1 <= |arrived| <= MAX_EVENTS && 1 <= expected <= MAX_EVENTS
    && KeepsRules(Canonical(arrived)) && NoRepeatedViolation(Canonical(arrived))
  }

  /** The record of observations in canonical order, with the observed span as its horizon. */
  ghost function RecordOf(expected: nat, obs: seq<Observation>, censoring: Censoring): Accounting
    requires obs != []
  {
    var start, end := FirstTime(obs), LastTime(obs);
    Accounting(Unit(obs, expected, start, end, censoring), expected, start, end, censoring, obs, FactsOf(obs, expected, censoring))
  }

  /** What the builder produces. */
  ghost function Built(expected: nat, arrived: seq<Observation>, censoring: Censoring): Option<Accounting> {
    CanonicalSorts(arrived);
    if Buildable(expected, arrived) then Some(RecordOf(expected, Canonical(arrived), censoring)) else None
  }

  /** Builds the record, which then has to pass the validator. */
  method Build(expected: nat, arrived: seq<Observation>, censoring: Censoring) returns (r: Option<Accounting>)
    requires forall o :: o in arrived ==> o.Valid()
    ensures r.Some? <==> Buildable(expected, arrived)
    ensures r == Built(expected, arrived, censoring)
    ensures r.Some? ==> Accepted(r.value)
  {
    hide Acyclic, FactsOf, KeepsRules, Canonical, NoRepeatedViolation, Accepted;
    if |arrived| > MAX_EVENTS || arrived == [] { return None; }
    var obs := Canonical(arrived);
    CanonicalSorts(arrived);
    if !OneOperation(obs) {
      RefusedOperation(obs);
      return None;
    }
    var start, end := FirstTime(obs), LastTime(obs);
    var leaves, cyclic := GraphFacts(obs);
    var facts := Assemble(obs, expected, censoring, leaves, cyclic);
    AssembledAreFacts(obs, expected, censoring, leaves, cyclic);
    var record := Accounting(Unit(obs, expected, start, end, censoring), expected, start, end, censoring, obs, facts);
    var ok := Validate(record);
    BuiltIsAcceptedExactly(obs, record);
    return if ok then Some(record) else None;
  }

  lemma RefusedOperation(obs: seq<Observation>)
    requires !OneOperation(obs)
    ensures !KeepsRules(obs)
  {
    assert Breaks(obs, SeveralOperations);
  }

  lemma AssembledAreFacts(obs: seq<Observation>, expected: nat, censoring: Censoring, leaves: set<nat>, cyclic: bool)
    requires obs != []
    requires var g := Parents(ById(obs)); leaves == (set x | x in g && ChildrenOf(g, x) == {}) && (cyclic <==> !Acyclic(g))
    ensures Assemble(obs, expected, censoring, leaves, cyclic) == FactsOf(obs, expected, censoring)
  {
  }

  /** For a record assembled from its own observations, acceptance comes down to range, rules and unique violations. */
  lemma BuiltIsAcceptedExactly(obs: seq<Observation>, r: Accounting)
    requires 1 <= |obs| <= MAX_EVENTS && (forall o :: o in obs ==> o.Valid()) && InKeyOrder(obs)
    requires r.observations == obs && r.start == FirstTime(obs) && r.end == LastTime(obs)
    requires r.facts == FactsOf(obs, r.expected, r.censoring)
    requires r.id == Unit(obs, r.expected, r.start, r.end, r.censoring)
    ensures Accepted(r) <==> 1 <= r.expected <= MAX_EVENTS && KeepsRules(obs) && NoRepeatedViolation(obs)
  {
    hide FactsOf, KeepsRules, Canonical, WithinBounds, HorizonFits, ViolationsUnique, NoRepeatedViolation, InKeyOrder;
    CanonicalIsFixed(obs);
    BuiltIsBounded(obs, r);
    BuiltHorizonFits(r);
    BuiltViolations(obs, r);
  }

  lemma BuiltIsBounded(obs: seq<Observation>, r: Accounting)
    requires 1 <= |obs| <= MAX_EVENTS && (forall o :: o in obs ==> o.Valid())
    requires r.observations == obs && r.facts == FactsOf(obs, r.expected, r.censoring)
    ensures WithinBounds(r) <==> 1 <= r.expected <= MAX_EVENTS
  {
    FactsFit(obs, r.expected, r.censoring);
  }

  lemma BuiltHorizonFits(r: Accounting)
    requires r.observations != [] && r.start == FirstTime(r.observations) && r.end == LastTime(r.observations)
    ensures HorizonFits(r)
  {
    assert r.observations[0] in r.observations;
    assert FirstTime(r.observations) <= r.observations[0].at <= LastTime(r.observations);
  }

  lemma BuiltViolations(obs: seq<Observation>, r: Accounting)
    requires obs != [] && r.facts == FactsOf(obs, r.expected, r.censoring)
    ensures ViolationsUnique(r.facts) <==> NoRepeatedViolation(obs)
  {
    assert r.facts.routeViolations == Violating(obs);
    forall x ensures Violating(obs)[x] <= 1 <==> (x in Violating(obs) ==> Violating(obs)[x] == 1) {}
  }

  /** First-attempt observations without parents that agree on operation, attempt and cause break no rule. */
  lemma TwinsKeepRules(obs: seq<Observation>, a: Observation)
    requires obs != [] && a.ordinal == 1
    requires forall o :: o in obs ==> o.operation == a.operation && o.attemptId == a.attemptId && o.ordinal == 1
                                      && o.cause == a.cause && o.parents == []
    ensures KeepsRules(obs)
  {
    hide Earliest, Acyclic, HasOrdinal;
    var m := ById(obs);
    assert forall x :: x in m ==> m[x].parents == [] && m[x].ordinal == 1;
    forall v ensures !Breaks(obs, v) {}
  }

  /** One event reported twice over a forbidden route keeps every rule, and yet no record is built. */
  lemma RepeatedViolationIsRefused()
    ensures exists obs: seq<Observation> :: (forall o :: o in obs ==> o.Valid()) && obs == Canonical(obs)
                          && KeepsRules(obs) && !NoRepeatedViolation(obs)
  {
    hide KeepsRules;
    var a := Observation(7, 0, 1, 0, 0, 1, 0, InitialCause, 0, InitialRoute, 0, false, {RouteNotPermitted}, []);
    var b := a.(commitment := 2);
    var obs := [a, b];
    TwinsKeepRules(obs, a);
    CanonicalIsFixed(obs);
    TwinsAreViolations(a, b);
  }

  lemma TwinsAreViolations(a: Observation, b: Observation)
    requires !a.routePermitted && !b.routePermitted && a.eventId == b.eventId
    ensures !NoRepeatedViolation([a, b])
  {
    assert [b][1..] == [] && [a, b][1..] == [b];
    assert Violating([b]) == multiset{b.eventId};
    assert Violating([a, b]) == multiset{b.eventId} + multiset{a.eventId};
    assert Violating([a, b])[a.eventId] == 2;
  }

  /** Canonical order is already canonical. */
  lemma {:induction false} CanonicalIsFixed(obs: seq<Observation>)
    requires InKeyOrder(obs)
    ensures Canonical(obs) == obs
  {
    if obs != [] {
      var n := |obs| - 1;
      CanonicalIsFixed(obs[..n]);
      InsertAtEnd(obs[n], obs[..n]);
      assert obs == obs[..n] + [obs[n]];
    }
  }

  lemma {:induction false} InsertAtEnd(x: Observation, s: seq<Observation>)
    requires forall y :: y in s ==> !Less(x.Key(), y.Key())
    ensures Insert(x, s) == s + [x]
  {
    if s != [] {
      InsertAtEnd(x, s[1..]);
      assert s == [s[0]] + s[1..];
    }
  }

  // ------------------------------------------------- what acceptance implies

  /** Attempt ordinals strictly decrease along the list, down to a first attempt. */
  ghost predicate DescendsToFirstAttempt(m: map<nat, Observation>, p: seq<nat>) {
    && IsWalk(Parents(m), p) && m[p[|p| - 1]].ordinal == 1
    && forall i, j :: 0 <= i && j == i + 1 && j < |p| ==> m[p[j]].ordinal < m[p[i]].ordinal
  }

  /** Every retry goes back, through observed parents of ever earlier attempts, to a first attempt. */
  lemma {:induction false} RetryChain(obs: seq<Observation>, x: nat) returns (p: seq<nat>)
    requires KeepsRules(obs) && x in ById(obs) && forall o :: o in obs ==> o.Valid()
    ensures DescendsToFirstAttempt(ById(obs), p) && p[0] == x
    decreases ById(obs)[x].ordinal
  {
    hide KeepsRules, DescendsToFirstAttempt;
    var m := ById(obs);
    assert m[x].Valid();
    if m[x].ordinal == 1 {
      p := [x];
      ChainStarts(m, x);
    } else {
      var y := PriorAttempt(obs, x);
      var rest := RetryChain(obs, y);
      p := [x] + rest;
      ChainGrows(m, x, rest);
    }
  }

  lemma ChainStarts(m: map<nat, Observation>, x: nat)
    requires x in m && m[x].ordinal == 1
    ensures DescendsToFirstAttempt(m, [x])
  {
  }

  lemma ChainGrows(m: map<nat, Observation>, x: nat, rest: seq<nat>)
    requires DescendsToFirstAttempt(m, rest) && Edge(Parents(m), x, rest[0])
    requires m[rest[0]].ordinal < m[x].ordinal
    ensures DescendsToFirstAttempt(m, [x] + rest)
  {
  }

  lemma PriorAttempt(obs: seq<Observation>, x: nat) returns (y: nat)
    requires KeepsRules(obs) && x in ById(obs) && ById(obs)[x].ordinal > 1
    ensures Edge(Parents(ById(obs)), x, y) && ById(obs)[y].ordinal < ById(obs)[x].ordinal
  {
    assert !Breaks(obs, NoPriorAttempt);
    assert HasPriorAttempt(ById(obs), x);
    y :| y in ById(obs)[x].parents && y in ById(obs) && ById(obs)[y].ordinal < ById(obs)[x].ordinal;
  }

  lemma {:induction false} WalkGoesBackInTime(m: map<nat, Observation>, p: seq<nat>)
    requires IsWalk(Parents(m), p) && ParentsInTime(m)
    ensures m[p[|p| - 1]].at <= m[p[0]].at
  {
    if |p| > 1 {
      assert Edge(Parents(m), p[0], p[1]);
      WalkGoesBackInTime(m, p[1..]);
    }
  }

  lemma ReachGoesBackInTime(m: map<nat, Observation>, x: nat, y: nat)
    requires ParentsInTime(m) && Reaches(Parents(m), x, y)
    ensures x in m && y in m && m[y].at <= m[x].at
  {
    var p :| WalkFromTo(Parents(m), p, x, y);
    WalkGoesBackInTime(m, p);
  }

  /** All events on a directed cycle carry the same timestamp. */
  lemma CycleSharesOneInstant(obs: seq<Observation>, p: seq<nat>, i: nat, j: nat)
    requires KeepsRules(obs) && IsCycle(Parents(ById(obs)), p) && i < |p| && j < |p|
    ensures p[i] in ById(obs) && p[j] in ById(obs) && ById(obs)[p[i]].at == ById(obs)[p[j]].at
  {
    var m := ById(obs);
    assert !Breaks(obs, ParentTime);
    CycleIsStronglyConnected(Parents(m), p, i, j);
    CycleIsStronglyConnected(Parents(m), p, j, i);
    ReachGoesBackInTime(m, p[i], p[j]);
    ReachGoesBackInTime(m, p[j], p[i]);
  }

  ghost predicate ReachesRoot(g: map<nat, seq<nat>>, roots: set<nat>, x: nat) {
    exists r :: r in roots && Reaches(g, x, r)
  }

  /** In a closed acyclic graph every node descends from a node without parents. */
  lemma EveryNodeReachesRoot(g: map<nat, seq<nat>>, roots: set<nat>)
    requires Closed(g) && Acyclic(g) && roots == set x | x in g && g[x] == []
    ensures forall x :: x in g ==> ReachesRoot(g, roots, x)
  {
    var lost := set x | x in g && !ReachesRoot(g, roots, x);
    if lost != {} {
      forall x | x in lost ensures StaysInside(g, lost, x) {
        ReachesSelf(g, x);
        assert x !in roots;
        var y := g[x][0];
        assert Edge(g, x, y);
        if ReachesRoot(g, roots, y) {
          var r :| r in roots && Reaches(g, y, r);
          ReachesByEdgeFirst(g, x, y, r);
        }
      }
      var p := NoWayOutHasCycle(g, lost);
    }
    forall x | x in g ensures ReachesRoot(g, roots, x) { assert x !in lost; }
  }

  lemma TwiceIsRepeated(s: seq<nat>, i: nat, j: nat)
    requires i < j < |s| && s[i] == s[j]
    ensures s[i] in Repeated(s)
  {
    assert s == s[..j] + [s[j]] + s[j + 1..];
    assert s[i] in s[..j];
  }

  lemma NoRepeatsMeansDistinct(s: seq<nat>)
    requires Repeated(s) == {}
    ensures Distinct(s)
  {
    forall i, j | 0 <= i < j < |s| ensures s[i] != s[j] {
      if s[i] == s[j] { TwiceIsRepeated(s, i, j); }
    }
  }

  /** "Complete" means distinct events, an acyclic graph, and every event descending from a recorded root. */
  lemma CompleteDescendsFromRoots(r: Accounting)
    requires Accepted(r) && r.facts.completeness.Whole?
    ensures Distinct(EventIds(r.observations)) && Acyclic(Parents(ById(r.observations)))
    ensures r.expected == |r.observations|
    ensures forall o :: o in r.observations ==> ReachesRoot(Parents(ById(r.observations)), r.facts.roots, o.eventId)
  {
    hide KeepsRules, Canonical, HorizonFits, SizesFit, Acyclic, Repeated, ViolationsUnique;
    var obs, g := r.observations, Parents(ById(r.observations));
    NoRepeatsMeansDistinct(EventIds(obs));
    forall a, b | a in g && b in g[a] ensures b in g {
      var o := ById(obs)[a];
      assert o in obs && (b in ById(obs) || b in Unresolved(obs));
    }
    EveryNodeReachesRoot(g, r.facts.roots);
  }

  /** Unobserved parents neither create nor hide a cycle. */
  lemma UnobservedParentsDoNotMatter(g: map<nat, seq<nat>>, g': map<nat, seq<nat>>)
    requires g.Keys == g'.Keys
    requires forall x, p :: x in g && p in g ==> (p in g[x] <==> p in g'[x])
    ensures Acyclic(g) <==> Acyclic(g')
  {
    forall p ensures IsCycle(g, p) <==> IsCycle(g', p) {
      assert forall x, y :: Edge(g, x, y) <==> Edge(g', x, y);
    }
  }

  lemma {:induction false} DistinctIdsDetermine(obs: seq<Observation>)
    requires Distinct(EventIds(obs))
    ensures KeyDetermines(obs)
  {
    forall a, b | a in obs && b in obs && a.Key() == b.Key() ensures a == b {
      var i :| 0 <= i < |obs| && obs[i] == a;
      var j :| 0 <= j < |obs| && obs[j] == b;
      assert EventIds(obs)[i] == EventIds(obs)[j];
    }
  }

  /** With distinct event identifiers, the order of arrival changes neither the record nor whether one is built. */
  lemma ArrivalOrderIsIrrelevant(a: seq<Observation>, b: seq<Observation>, expected: nat, censoring: Censoring)
    requires multiset(a) == multiset(b) && Distinct(EventIds(a))
    ensures Built(expected, a, censoring) == Built(expected, b, censoring)
  {
    hide FactsOf, KeepsRules;
    DistinctIdsDetermine(a);
    PermutationHasSameForm(a, b);
    assert |multiset(a)| == |multiset(b)|;
  }
}
