/**
 * How the order of arrival affects trajectory accounting.
 *
 * Of the observations of one event the dictionary keeps the last in canonical order, which
 * is one with the greatest key; which one, among equal keys, is up to the order of arrival.
 *
 * Main results: `OrderFreeExactly` (when every order has the same outcome), `SomeOrderBuilds`
 * and `EveryOrderBuilds`; `OrderDecidesWhetherBuilt` and `OrderDecidesTheRecord` are concrete.
 */
module TrajectoryOrder {
  import opened Wrappers
  import opened Digraph
  import opened Ordering
  import opened CanonicalOrder
  import opened Trajectory

  // ------------------------------------------------------------ arrangements

  ghost predicate SameOutcome(expected: nat, obs: seq<Observation>, other: seq<Observation>, censoring: Censoring) {
    multiset(other) == multiset(obs) ==> Built(expected, other, censoring) == Built(expected, obs, censoring)
  }

  /** Whatever order the observations arrive in, the outcome is the same. */
  ghost predicate OrderFree(expected: nat, obs: seq<Observation>, censoring: Censoring) {
    forall other :: SameOutcome(expected, obs, other, censoring)
  }

  /** One observation for every event, with the greatest key that event has. */
  ghost predicate Choice(obs: seq<Observation>, m: map<nat, Observation>) {
    && (forall o :: o in obs ==> o.eventId in m)
    && (forall x :: x in m ==> m[x] in obs && m[x].eventId == x)
    && (forall o :: o in obs && o.eventId in m ==> !Less(m[o.eventId].Key(), o.Key()))
  }

  /** The rules that look at the kept observations only. */
  ghost predicate ChoiceKeepsRules(m: map<nat, Observation>) {
    && RetriesDescend(m) && ParentsInTime(m)
    && (Acyclic(Parents(m)) ==> ParentsInAttempt(m))
  }

  /** The conditions that do not depend on the order of arrival. */
  ghost predicate AnyOrderConditions(expected: nat, obs: seq<Observation>) {
    && 1 <= |obs| <= MAX_EVENTS && 1 <= expected <= MAX_EVENTS
    && OneOperation(obs) && AttemptsBind(obs) && OrdinalsBind(obs) && OrdinalsContiguous(obs)
    && AttemptsInTime(obs) && NoRepeatedViolation(obs)
  }

  // ------------------------------------ conditions that ignore the order

  ghost predicate IsEarliest(obs: seq<Observation>, k: nat, t: int) {
    && (exists o :: o in obs && o.ordinal == k && o.at == t)
    && forall o :: o in obs && o.ordinal == k ==> t <= o.at
  }

  lemma {:induction false} EarliestIsAttained(obs: seq<Observation>, k: nat)
    requires HasOrdinal(obs, k)
    ensures IsEarliest(obs, k, Earliest(obs, k))
  {
    var n := |obs| - 1;
    assert obs == obs[..n] + [obs[n]];
    if HasOrdinal(obs[..n], k) { EarliestIsAttained(obs[..n], k); }
  }

  lemma EarliestIgnoresOrder(a: seq<Observation>, b: seq<Observation>, k: nat)
    requires forall o :: o in a <==> o in b
    requires HasOrdinal(a, k) && HasOrdinal(b, k)
    ensures Earliest(a, k) == Earliest(b, k)
  {
    hide Earliest;
    EarliestIsAttained(a, k);
    EarliestIsAttained(b, k);
  }

  lemma TimesIgnoreOrder(a: seq<Observation>, b: seq<Observation>)
    requires forall o :: o in a <==> o in b
    requires AttemptsInTime(a)
    ensures AttemptsInTime(b)
  {
    hide Earliest;
    forall o | o in b && o.ordinal >= 2 && HasOrdinal(b, o.ordinal) && HasOrdinal(b, o.ordinal - 1)
      ensures Earliest(b, o.ordinal - 1) <= Earliest(b, o.ordinal)
    {
      assert HasOrdinal(a, o.ordinal) && HasOrdinal(a, o.ordinal - 1);
      EarliestIgnoresOrder(a, b, o.ordinal);
      EarliestIgnoresOrder(a, b, o.ordinal - 1);
    }
  }

  lemma {:induction false} ViolatingConcat(a: seq<Observation>, b: seq<Observation>)
    ensures Violating(a + b) == Violating(a) + Violating(b)
  {
    if a == [] {
      assert a + b == b;
    } else {
      assert (a + b)[1..] == a[1..] + b;
      ViolatingConcat(a[1..], b);
    }
  }

  lemma TakeOut(s: seq<Observation>, i: nat) returns (rest: seq<Observation>)
    requires i < |s|
    ensures multiset(rest) == multiset(s) - multiset{s[i]} && |rest| == |s| - 1
    ensures Violating(s) == Violating([s[i]]) + Violating(rest)
  {
    hide Violating;
    rest := s[..i] + s[i + 1..];
    ViolatingConcat(s[..i], s[i + 1..]);
    ViolatingConcat(s[..i], [s[i]] + s[i + 1..]);
    ViolatingConcat([s[i]], s[i + 1..]);
    assert s == s[..i] + ([s[i]] + s[i + 1..]);
  }

  lemma {:induction false} ViolatingIgnoresOrder(a: seq<Observation>, b: seq<Observation>)
    requires multiset(a) == multiset(b)
    ensures Violating(a) == Violating(b)
    decreases |a|
  {
    hide Violating;
    SameMembers(a, b);
    if a == [] {
      assert b == [];
    } else {
      assert a[0] in b;
      var i :| 0 <= i < |b| && b[i] == a[0];
      var restA := TakeOut(a, 0);
      var restB := TakeOut(b, i);
      ViolatingIgnoresOrder(restA, restB);
    }
  }

  lemma ConditionsIgnoreOrder(expected: nat, a: seq<Observation>, b: seq<Observation>)
    requires multiset(a) == multiset(b) && AnyOrderConditions(expected, a)
    ensures AnyOrderConditions(expected, b)
  {
    hide AttemptsInTime, Violating;
    SameMembers(a, b);
    TimesIgnoreOrder(a, b);
    ViolatingIgnoresOrder(a, b);
    forall o, k: nat | o in b && 1 <= k < o.ordinal ensures HasOrdinal(b, k) { assert HasOrdinal(a, k); }
  }

  lemma SameMembers(a: seq<Observation>, b: seq<Observation>)
    requires multiset(a) == multiset(b)
    ensures |a| == |b| && forall o :: o in a <==> o in b
  {
    assert |multiset(a)| == |multiset(b)|;
    forall o ensures o in a <==> o in b { assert o in multiset(a) <==> o in multiset(b); }
  }

  /** A record is built exactly when the order-free conditions hold and the kept observations keep their rules. */
  lemma BuildableByChoice(expected: nat, p: seq<Observation>)
    ensures Buildable(expected, p) <==> AnyOrderConditions(expected, p) && ChoiceKeepsRules(ById(Canonical(p)))
  {
    hide AnyOrderConditions, ById, Canonical;
    CanonicalSorts(p);
    var c := Canonical(p);
    if AnyOrderConditions(expected, p) { ConditionsIgnoreOrder(expected, p, c); }
    if AnyOrderConditions(expected, c) { ConditionsIgnoreOrder(expected, c, p); }
    RulesSplit(expected, c);
  }

  lemma RulesSplit(expected: nat, c: seq<Observation>)
    ensures 1 <= |c| <= MAX_EVENTS && 1 <= expected <= MAX_EVENTS && KeepsRules(c) && NoRepeatedViolation(c) <==>
            AnyOrderConditions(expected, c) && ChoiceKeepsRules(ById(c))
  {
    hide ById, OneOperation, AttemptsBind, OrdinalsBind, OrdinalsContiguous, AttemptsInTime, RetriesDescend, ParentsInTime,
         ParentsInAttempt, Acyclic, NoRepeatedViolation;
    if KeepsRules(c) {
      assert !Breaks(c, SeveralOperations) && !Breaks(c, AttemptConflict) && !Breaks(c, OrdinalConflict) && !Breaks(c, OrdinalGap);
      assert !Breaks(c, NoPriorAttempt) && !Breaks(c, AttemptTime) && !Breaks(c, ParentTime) && !Breaks(c, ParentAttempt);
    }
    if AnyOrderConditions(expected, c) && ChoiceKeepsRules(ById(c)) {
      forall v ensures !Breaks(c, v) {}
    }
  }

  // ---------------------------------------------- every order makes a choice

  lemma {:induction false} LastHasGreatestKey(s: seq<Observation>, o: Observation)
    requires InKeyOrder(s) && o in s
    ensures o.eventId in ById(s) && !Less(ById(s)[o.eventId].Key(), o.Key())
  {
    var n := |s| - 1;
    assert s == s[..n] + [s[n]];
    var i :| 0 <= i < |s| && s[i] == o;
    if o.eventId != s[n].eventId {
      assert o in s[..n];
      LastHasGreatestKey(s[..n], o);
    } else {
      LessIsTotal(o.Key(), o.Key());
    }
  }

  lemma OrderMakesChoice(p: seq<Observation>)
    ensures Choice(p, ById(Canonical(p)))
  {
    hide ById, Less, InKeyOrder;
    CanonicalSorts(p);
    var c := Canonical(p);
    forall o | o in p ensures o.eventId in ById(c) && !Less(ById(c)[o.eventId].Key(), o.Key()) {
      LastHasGreatestKey(c, o);
    }
  }

  lemma ChoiceIgnoresOrder(a: seq<Observation>, b: seq<Observation>, m: map<nat, Observation>)
    requires multiset(a) == multiset(b) && Choice(a, m)
    ensures Choice(b, m)
  {
    SameMembers(a, b);
  }

  // ---------------------------------------------- every choice has an order

  /** The last of the observations with one key. */
  ghost predicate LastWithKey(s: seq<Observation>, o: Observation) {
    var w := WithKey(s, o.Key());
    w != [] && w[|w| - 1] == o
  }

  /** Of each event the dictionary keeps an observation that is last with its key. */
  lemma {:induction false} KeptIsLast(s: seq<Observation>, x: nat)
    requires x in ById(s)
    ensures LastWithKey(s, ById(s)[x])
  {
    var n := |s| - 1;
    assert s == s[..n] + [s[n]];
    WithKeyOfConcat(s[..n], [s[n]], ById(s)[x].Key());
    assert [s[n]][1..] == [];
    if s[n].eventId != x { KeptIsLast(s[..n], x); }
  }

  /** Moves one occurrence of an observation to the end. */
  lemma MoveLast(p: seq<Observation>, o: Observation) returns (q: seq<Observation>)
    requires o in p
    ensures multiset(q) == multiset(p) && LastWithKey(q, o)
    ensures forall z: Observation :: z.Key() != o.Key() && LastWithKey(p, z) ==> LastWithKey(q, z)
  {
    hide LastWithKey;
    var i :| 0 <= i < |p| && p[i] == o;
    q := (p[..i] + p[i + 1..]) + [o];
    assert p == p[..i] + ([o] + p[i + 1..]);
    LastIsLast(p[..i] + p[i + 1..], o);
    forall z: Observation | z.Key() != o.Key() && LastWithKey(p, z) ensures LastWithKey(q, z) {
      MovedKeepsOthers(p[..i], o, p[i + 1..], z);
    }
  }

  lemma LastIsLast(rest: seq<Observation>, o: Observation)
    ensures LastWithKey(rest + [o], o)
  {
    WithKeyOfConcat(rest, [o], o.Key());
    assert [o][1..] == [];
  }

  lemma MovedKeepsOthers(a: seq<Observation>, o: Observation, b: seq<Observation>, z: Observation)
    requires z.Key() != o.Key() && LastWithKey(a + ([o] + b), z)
    ensures LastWithKey((a + b) + [o], z)
  {
    var k := z.Key();
    assert [o][1..] == [];
    WithKeyOfConcat(a + b, [o], k);
    WithKeyOfConcat(a, b, k);
    WithKeyOfConcat(a, [o] + b, k);
    WithKeyOfConcat([o], b, k);
    assert WithKey([o], k) == [];
  }

  /** The chosen observations of these events, moved to the end one after the other. */
  lemma {:induction false} Arrange(obs: seq<Observation>, m: map<nat, Observation>, ids: seq<nat>) returns (p: seq<Observation>)
    requires Choice(obs, m) && Distinct(ids) && forall x :: x in ids ==> x in m
    ensures multiset(p) == multiset(obs) && forall x :: x in ids ==> LastWithKey(p, m[x])
    decreases |ids|
  {
    hide LastWithKey, Less;
    if ids == [] {
      p := obs;
    } else {
      var n := |ids| - 1;
      assert ids == ids[..n] + [ids[n]];
      var before := Arrange(obs, m, ids[..n]);
      SameMembers(before, obs);
      p := MoveLast(before, m[ids[n]]);
      forall x | x in ids ensures LastWithKey(p, m[x]) {
        if x != ids[n] {
          assert x in ids[..n];
          assert m[x].Key().eventId != m[ids[n]].Key().eventId;
        }
      }
    }
  }

  lemma ChoiceHasOrder(obs: seq<Observation>, m: map<nat, Observation>) returns (p: seq<Observation>)
    requires Choice(obs, m)
    ensures multiset(p) == multiset(obs) && ById(Canonical(p)) == m
  {
    hide Less, ById, LastWithKey, Choice;
    var ids := Sorted(m.Keys);
    assert Distinct(ids);
    p := Arrange(obs, m, ids);
    ChoiceIgnoresOrder(obs, p, m);
    OrderMakesChoice(p);
    var kept := ById(Canonical(p));
    SameEvents(p, m, kept);
    forall x | x in m ensures kept[x] == m[x] {
      SameGreatestKey(p, m, kept, x);
      KeptIsLast(Canonical(p), x);
      SameLast(p, kept[x], m[x]);
    }
  }

  lemma SameEvents(obs: seq<Observation>, a: map<nat, Observation>, b: map<nat, Observation>)
    requires Choice(obs, a) && Choice(obs, b)
    ensures a.Keys == b.Keys
  {
    hide Less;
    forall x ensures x in a <==> x in b {
      if x in a { assert a[x] in obs; }
      if x in b { assert b[x] in obs; }
    }
  }

  lemma SameGreatestKey(obs: seq<Observation>, a: map<nat, Observation>, b: map<nat, Observation>, x: nat)
    requires Choice(obs, a) && Choice(obs, b) && x in a && x in b
    ensures a[x].Key() == b[x].Key()
  {
    hide Less;
    assert a[x] in obs && b[x] in obs;
    LessIsTotal(a[x].Key(), b[x].Key());
  }

  /** What is last with its key on arrival is last with its key in canonical order. */
  lemma SameLast(p: seq<Observation>, a: Observation, b: Observation)
    requires a.Key() == b.Key() && LastWithKey(Canonical(p), a) && LastWithKey(p, b)
    ensures a == b
  {
    CanonicalIsStable(p, a.Key());
  }

  // ------------------------------------------------------------------ results

  /** Some order of arrival leads to a record exactly when the order-free conditions hold and some choice keeps the rules. */
  lemma SomeOrderBuilds(expected: nat, obs: seq<Observation>)
    ensures (exists p: seq<Observation> :: multiset(p) == multiset(obs) && Buildable(expected, p)) <==>
            AnyOrderConditions(expected, obs) && exists m :: Choice(obs, m) && ChoiceKeepsRules(m)
  {
    hide AnyOrderConditions, ChoiceKeepsRules, Choice, Buildable;
    if p: seq<Observation> :| multiset(p) == multiset(obs) && Buildable(expected, p) {
      BuildableByChoice(expected, p);
      ConditionsIgnoreOrder(expected, p, obs);
      OrderMakesChoice(p);
      ChoiceIgnoresOrder(p, obs, ById(Canonical(p)));
      assert Choice(obs, ById(Canonical(p))) && ChoiceKeepsRules(ById(Canonical(p)));
    }
    if m :| AnyOrderConditions(expected, obs) && Choice(obs, m) && ChoiceKeepsRules(m) {
      var p := ChoiceHasOrder(obs, m);
      ConditionsIgnoreOrder(expected, obs, p);
      BuildableByChoice(expected, p);
      assert multiset(p) == multiset(obs) && Buildable(expected, p);
    }
  }

  /** Every order of arrival leads to a record exactly when the order-free conditions hold and every choice keeps the rules. */
  lemma EveryOrderBuilds(expected: nat, obs: seq<Observation>)
    ensures (forall p: seq<Observation> :: multiset(p) == multiset(obs) ==> Buildable(expected, p)) <==>
            AnyOrderConditions(expected, obs) && forall m :: Choice(obs, m) ==> ChoiceKeepsRules(m)
  {
    hide AnyOrderConditions, ChoiceKeepsRules, Choice, Buildable;
    if forall p: seq<Observation> :: multiset(p) == multiset(obs) ==> Buildable(expected, p) {
      BuildableByChoice(expected, obs);
      forall m | Choice(obs, m) ensures ChoiceKeepsRules(m) {
        var p := ChoiceHasOrder(obs, m);
        assert Buildable(expected, p);
        BuildableByChoice(expected, p);
      }
    }
    if AnyOrderConditions(expected, obs) && forall m :: Choice(obs, m) ==> ChoiceKeepsRules(m) {
      forall p: seq<Observation> | multiset(p) == multiset(obs) ensures Buildable(expected, p) {
        ConditionsIgnoreOrder(expected, obs, p);
        OrderMakesChoice(p);
        ChoiceIgnoresOrder(p, obs, ById(Canonical(p)));
        BuildableByChoice(expected, p);
      }
    }
  }

  /**
   * Every order of arrival has the same outcome exactly when the key determines the
   * observation, or no order leads to a record at all.
   */
  lemma OrderFreeExactly(expected: nat, obs: seq<Observation>, censoring: Censoring)
    ensures OrderFree(expected, obs, censoring) <==>
            || KeyDetermines(obs)
            || !AnyOrderConditions(expected, obs)
            || !exists m :: Choice(obs, m) && ChoiceKeepsRules(m)
  {
    hide AnyOrderConditions, ChoiceKeepsRules, Choice, Buildable, FactsOf, KeyDetermines;
    SomeOrderBuilds(expected, obs);
    if KeyDetermines(obs) {
      forall other ensures SameOutcome(expected, obs, other, censoring) {
        if multiset(other) == multiset(obs) { SameFormSameOutcome(expected, other, obs, censoring); }
      }
    } else if p: seq<Observation> :| multiset(p) == multiset(obs) && Buildable(expected, p) {
      if OrderFree(expected, obs, censoring) {
        assert SameOutcome(expected, obs, p, censoring);
        KeysMustDetermine(expected, obs, p, censoring);
      }
    } else {
      forall other ensures SameOutcome(expected, obs, other, censoring) {
        if multiset(other) == multiset(obs) { assert !Buildable(expected, other) && !Buildable(expected, obs); }
      }
    }
  }

  lemma SameFormSameOutcome(expected: nat, a: seq<Observation>, b: seq<Observation>, censoring: Censoring)
    requires multiset(a) == multiset(b) && KeyDetermines(b)
    ensures Built(expected, a, censoring) == Built(expected, b, censoring)
  {
    hide FactsOf, KeepsRules, Canonical;
    PermutationHasSameForm(b, a);
    SameMembers(a, b);
  }

  lemma KeysMustDetermine(expected: nat, obs: seq<Observation>, p: seq<Observation>, censoring: Censoring)
    requires OrderFree(expected, obs, censoring) && multiset(p) == multiset(obs) && Buildable(expected, p)
    ensures KeyDetermines(obs)
  {
    hide Canonical, KeyDetermines;
    forall b ensures SameForm(obs, b) {
      assert SameOutcome(expected, obs, b, censoring) && SameOutcome(expected, obs, p, censoring);
      if multiset(b) == multiset(obs) { SameRecordSameForm(expected, b, obs, p, censoring); }
    }
    OrderIndependentExactly(obs);
  }

  lemma SameRecordSameForm(expected: nat, a: seq<Observation>, b: seq<Observation>, p: seq<Observation>, censoring: Censoring)
    requires Buildable(expected, p) && Built(expected, a, censoring) == Built(expected, b, censoring) == Built(expected, p, censoring)
    ensures Canonical(a) == Canonical(b)
  {
    hide KeepsRules, FactsOf, Canonical;
  }

  // ----------------------------------------------------- concrete dependences

  /** A first attempt. */
  const FIRST := Observation(1, 0, 1, 0, 1, 1, 0, InitialCause, 0, InitialRoute, 0, true, {}, [])

  /** A retry that names the first attempt as its parent. */
  const RETRY := Observation(2, 1, 2, 0, 2, 2, 0, BoundedRetry, 0, DeclaredFailover, 0, true, {}, [1])

  /** The same retry reported without a parent. */
  const ORPHAN := Observation(2, 1, 2, 0, 2, 2, 0, BoundedRetry, 0, DeclaredFailover, 0, true, {}, [])

  /** The first attempt reported with another route. */
  const REROUTED := Observation(1, 0, 1, 0, 1, 1, 0, InitialCause, 1, InitialRoute, 0, true, {}, [])

  ghost predicate AllValid(obs: seq<Observation>) {
    forall o :: o in obs ==> o.Valid()
  }

  lemma KeptOfThree(a: Observation, b: Observation, c: Observation)
    requires a.eventId != b.eventId && b.eventId == c.eventId
    ensures ById([a, b, c]) == map[a.eventId := a, c.eventId := c]
  {
    var s := [a, b, c];
    assert s[..2] == [a, b] && [a, b][..1] == [a] && [a][..0] == [];
    assert ById([a]) == map[a.eventId := a];
    assert ById([a, b]) == map[a.eventId := a, b.eventId := b];
  }

  lemma {:induction false} NoneViolate(s: seq<Observation>)
    requires forall o :: o in s ==> o.routePermitted
    ensures Violating(s) == multiset{}
  {
    if s != [] {
      assert s[0] in s;
      NoneViolate(s[1..]);
    }
  }

  /** Keeping the retry that names its parent keeps the rules; keeping the orphan does not. */
  lemma RetryNeedsItsParent(kept: Observation)
    requires kept == RETRY || kept == ORPHAN
    ensures ChoiceKeepsRules(map[1 := FIRST, 2 := kept]) <==> kept == RETRY
  {
    hide Acyclic;
    var m: map<nat, Observation> := map[1 := FIRST, 2 := kept];
    if kept == RETRY {
      assert 1 in m[2].parents && m[1].ordinal < m[2].ordinal;
      assert HasPriorAttempt(m, 2);
    } else {
      assert m[2].parents == [];
      assert !HasPriorAttempt(m, 2);
    }
  }

  /** Observations of one first attempt at time 0 and one retry of it at time 1. */
  ghost predicate TwoAttempts(s: seq<Observation>) {
    && HasOrdinal(s, 1) && HasOrdinal(s, 2)
    && forall o :: o in s ==> o.operation == 0 && o.routePermitted
                              && ((o.ordinal == 1 && o.attemptId == 1 && o.cause.InitialCause? && o.at == 0)
                                  || (o.ordinal == 2 && o.attemptId == 2 && o.cause.BoundedRetry? && o.at == 1))
  }

  lemma TwoAttemptsInTime(s: seq<Observation>)
    requires TwoAttempts(s)
    ensures AttemptsInTime(s)
  {
    hide Earliest;
    EarliestIsAttained(s, 1);
    EarliestIsAttained(s, 2);
  }

  lemma TwoAttemptsMeetConditions(s: seq<Observation>, expected: nat)
    requires TwoAttempts(s) && 1 <= |s| <= MAX_EVENTS && 1 <= expected <= MAX_EVENTS
    ensures AnyOrderConditions(expected, s)
  {
    hide AttemptsInTime, Violating;
    TwoAttemptsInTime(s);
    NoneViolate(s);
  }

  lemma ThreeMeetConditions(c: Observation, d: Observation)
    requires (c == RETRY && d == ORPHAN) || (c == ORPHAN && d == RETRY)
    ensures AnyOrderConditions(3, [FIRST, c, d]) && Canonical([FIRST, c, d]) == [FIRST, c, d]
  {
    hide AnyOrderConditions, Canonical;
    var s := [FIRST, c, d];
    CanonicalIsFixed(s);
    assert s[0] in s && s[1] in s;
    TwoAttemptsMeetConditions(s, 3);
  }

  /** Two arrivals of the same valid observations: one leads to a record, the other does not. */
  lemma OrderDecidesWhetherBuilt(censoring: Censoring)
    ensures var a, b := [FIRST, ORPHAN, RETRY], [FIRST, RETRY, ORPHAN];
      && AllValid(a) && multiset(a) == multiset(b)
      && Built(3, a, censoring).Some? && Built(3, b, censoring).None?
  {
    hide AnyOrderConditions, ChoiceKeepsRules, Buildable, FactsOf, ById, Canonical;
    var a, b := [FIRST, ORPHAN, RETRY], [FIRST, RETRY, ORPHAN];
    ThreeMeetConditions(ORPHAN, RETRY);
    ThreeMeetConditions(RETRY, ORPHAN);
    BuildableByChoice(3, a);
    BuildableByChoice(3, b);
    KeptOfThree(FIRST, ORPHAN, RETRY);
    KeptOfThree(FIRST, RETRY, ORPHAN);
    RetryNeedsItsParent(RETRY);
    RetryNeedsItsParent(ORPHAN);
    assert RETRY.parents != ORPHAN.parents;
  }

  lemma TwoMeetConditions(c: Observation, d: Observation)
    requires (c == FIRST && d == REROUTED) || (c == REROUTED && d == FIRST)
    ensures Buildable(2, [c, d]) && Canonical([c, d]) == [c, d]
  {
    var s := [c, d];
    CanonicalIsFixed(s);
    TwinsKeepRules(s, c);
    NoneViolate(s);
  }

  /** Two arrivals of the same valid observations that both lead to a record, and to different ones. */
  lemma OrderDecidesTheRecord(censoring: Censoring)
    ensures var a, b := [FIRST, REROUTED], [REROUTED, FIRST];
      && AllValid(a) && multiset(a) == multiset(b)
      && Built(2, a, censoring).Some? && Built(2, b, censoring).Some? && Built(2, a, censoring) != Built(2, b, censoring)
  {
    hide Buildable, FactsOf, Canonical;
    var a, b := [FIRST, REROUTED], [REROUTED, FIRST];
    TwoMeetConditions(FIRST, REROUTED);
    TwoMeetConditions(REROUTED, FIRST);
    assert a[0] != b[0];
  }
}
