/**
 * Observations of a trajectory and their canonical order: a stable sort by event
 * identifier, attempt ordinal, attempt identifier and commitment.
 *
 * Identifiers are fixed-width hexadecimal digests, read as numbers; times are UTC instants.
 *
 * Main result: `OrderIndependentExactly` - every permutation has the same canonical
 * form exactly when no two different observations share the sort key.
 */
module CanonicalOrder {
  import opened Digraph

  const MAX_EVENTS: nat := 4096
  const MAX_EVENT_PARENTS: nat := 64

  datatype RetryCause = InitialCause | BoundedRetry | PolicyRetry | TransportRetry | UnknownCause

  datatype RouteReason = InitialRoute | DeclaredFailover | PolicyTransition | UnknownRoute

  datatype Encounter = BudgetBoundary | RouteNotPermitted | TimeBoundary | ToolBoundary | UnknownEncounter

  datatype Observation = Observation(
    eventId: nat, at: int, commitment: nat, operation: nat, attemptId: nat, ordinal: nat, idempotency: nat,
    cause: RetryCause, routeId: nat, routeReason: RouteReason, permittedRoutes: nat, routePermitted: bool,
    encounters: set<Encounter>, parents: seq<nat>)
  {
    ghost predicate Valid() {
      && 1 <= ordinal <= MAX_EVENTS
      && |parents| <= MAX_EVENT_PARENTS && Distinct(parents) && eventId !in parents
      && (RouteNotPermitted in encounters <==> !routePermitted)
      && (ordinal == 1 <==> cause.InitialCause?)
      && (ordinal == 1 <==> routeReason.InitialRoute?)
    }

    /** The observation names something it does not know. */
    predicate Unknown() {
      cause.UnknownCause? || routeReason.UnknownRoute? || UnknownEncounter in encounters
    }

    function Key(): Key {
      SortKey(eventId, ordinal, attemptId, commitment)
    }
  }

  datatype Key = SortKey(eventId: nat, ordinal: nat, attemptId: nat, commitment: nat)

  predicate Less(a: Key, b: Key) {
    || a.eventId < b.eventId
    || (a.eventId == b.eventId && a.ordinal < b.ordinal)
    || (a.eventId == b.eventId && a.ordinal == b.ordinal && a.attemptId < b.attemptId)
    || (a.eventId == b.eventId && a.ordinal == b.ordinal && a.attemptId == b.attemptId && a.commitment < b.commitment)
  }

  /** Stable insertion: behind every element whose key is not greater. */
  function Insert(x: Observation, s: seq<Observation>): seq<Observation> {
    if s == [] then [x]
    else if Less(x.Key(), s[0].Key()) then [x] + s
    else [s[0]] + Insert(x, s[1..])
  }

  function Canonical(obs: seq<Observation>): seq<Observation> {
    if obs == [] then [] else Insert(obs[|obs| - 1], Canonical(obs[..|obs| - 1]))
  }

  ghost predicate InKeyOrder(s: seq<Observation>) {
    forall i, j :: 0 <= i < j < |s| ==> !Less(s[j].Key(), s[i].Key())
  }

  lemma LessIsTotal(a: Key, b: Key)
    ensures !Less(a, b) && !Less(b, a) ==> a == b
    ensures !(Less(a, b) && Less(b, a))
  {
  }

  lemma LessIsTransitive(a: Key, b: Key, c: Key)
    ensures !Less(b, a) && !Less(c, b) ==> !Less(c, a)
  {
  }

  lemma HeadAndTail(s: seq<Observation>)
    requires s != []
    ensures multiset(s) == multiset{s[0]} + multiset(s[1..])
    ensures multiset(s[1..]) == multiset(s) - multiset{s[0]}
    ensures InKeyOrder(s) ==> InKeyOrder(s[1..])
  {
    assert s == [s[0]] + s[1..];
  }

  lemma Prepend(x: Observation, s: seq<Observation>)
    requires InKeyOrder(s) && forall y :: y in s ==> !Less(y.Key(), x.Key())
    ensures InKeyOrder([x] + s) && multiset([x] + s) == multiset(s) + multiset{x}
  {
  }

  lemma {:induction false} InsertKeeps(x: Observation, s: seq<Observation>)
    requires InKeyOrder(s)
    ensures InKeyOrder(Insert(x, s)) && multiset(Insert(x, s)) == multiset(s) + multiset{x}
  {
    if s != [] {
      hide Less;
      HeadAndTail(s);
      LessIsTotal(x.Key(), s[0].Key());
      if Less(x.Key(), s[0].Key()) {
        forall y | y in s ensures !Less(y.Key(), x.Key()) {
          var i :| 0 <= i < |s| && s[i] == y;
          LessIsTotal(s[0].Key(), y.Key());
          LessIsTransitive(x.Key(), s[0].Key(), y.Key());
        }
        Prepend(x, s);
      } else {
        InsertKeeps(x, s[1..]);
        var t := Insert(x, s[1..]);
        forall y | y in t ensures !Less(y.Key(), s[0].Key()) {
          assert y in multiset(t);
          assert y == x || y in s[1..];
        }
        Prepend(s[0], t);
      }
    }
  }

  /** Canonical order is a sorted permutation. */
  lemma {:induction false} CanonicalSorts(obs: seq<Observation>)
    ensures InKeyOrder(Canonical(obs)) && multiset(Canonical(obs)) == multiset(obs)
    ensures |Canonical(obs)| == |obs|
    ensures forall o :: o in Canonical(obs) <==> o in obs
  {
    if obs != [] {
      var n := |obs| - 1;
      CanonicalSorts(obs[..n]);
      InsertKeeps(obs[n], Canonical(obs[..n]));
      assert obs == obs[..n] + [obs[n]];
    }
    assert |multiset(Canonical(obs))| == |multiset(obs)|;
    forall o ensures o in Canonical(obs) <==> o in obs {
      assert o in multiset(Canonical(obs)) <==> o in multiset(obs);
    }
  }

  /** The observations with one key, in order. */
  function WithKey(obs: seq<Observation>, k: Key): seq<Observation> {
    if obs == [] then []
    else if obs[0].Key() == k then [obs[0]] + WithKey(obs[1..], k)
    else WithKey(obs[1..], k)
  }

  lemma {:induction false} WithKeyOfConcat(a: seq<Observation>, b: seq<Observation>, k: Key)
    ensures WithKey(a + b, k) == WithKey(a, k) + WithKey(b, k)
  {
    if a == [] {
      assert a + b == b;
    } else {
      assert (a + b)[1..] == a[1..] + b;
      WithKeyOfConcat(a[1..], b, k);
    }
  }

  lemma {:induction false} NoneGreater(s: seq<Observation>, x: Observation)
    requires InKeyOrder(s) && (s != [] ==> Less(x.Key(), s[0].Key()))
    ensures WithKey(s, x.Key()) == []
  {
    if s != [] {
      assert s[1..] != [] ==> Less(x.Key(), s[1..][0].Key());
      NoneGreater(s[1..], x);
    }
  }

  lemma {:induction false} InsertIsStable(x: Observation, s: seq<Observation>, k: Key)
    requires InKeyOrder(s)
    ensures WithKey(Insert(x, s), k) == WithKey(s, k) + WithKey([x], k)
  {
    if s != [] {
      if Less(x.Key(), s[0].Key()) {
        NoneGreater(s, x);
        assert ([x] + s)[1..] == s;
      } else {
        InsertIsStable(x, s[1..], k);
        assert ([s[0]] + Insert(x, s[1..]))[1..] == Insert(x, s[1..]);
      }
    }
  }

  /** Observations with equal keys keep their relative order. */
  lemma {:induction false} CanonicalIsStable(obs: seq<Observation>, k: Key)
    ensures WithKey(Canonical(obs), k) == WithKey(obs, k)
  {
    if obs != [] {
      var n := |obs| - 1;
      CanonicalIsStable(obs[..n], k);
      CanonicalSorts(obs[..n]);
      InsertIsStable(obs[n], Canonical(obs[..n]), k);
      assert obs == obs[..n] + [obs[n]];
      WithKeyOfConcat(obs[..n], [obs[n]], k);
    }
  }

  /** Different observations have different keys. */
  ghost predicate KeyDetermines(obs: seq<Observation>) {
    forall a, b :: a in obs && b in obs && a.Key() == b.Key() ==> a == b
  }

  lemma FirstKeyIsLeast(s: seq<Observation>, x: Observation)
    requires InKeyOrder(s) && x in s
    ensures !Less(x.Key(), s[0].Key())
  {
    var i :| 0 <= i < |s| && s[i] == x;
    LessIsTotal(x.Key(), s[0].Key());
  }

  lemma SameHead(a: seq<Observation>, b: seq<Observation>)
    requires InKeyOrder(a) && InKeyOrder(b) && multiset(a) == multiset(b) && a != [] && b != []
    requires KeyDetermines(a)
    ensures a[0] == b[0]
  {
    hide Less, InKeyOrder;
    assert a[0] in multiset(b) && b[0] in multiset(a);
    FirstKeyIsLeast(b, a[0]);
    FirstKeyIsLeast(a, b[0]);
    LessIsTotal(a[0].Key(), b[0].Key());
  }

  lemma {:induction false} SortedPermutationUnique(a: seq<Observation>, b: seq<Observation>)
    requires InKeyOrder(a) && InKeyOrder(b) && multiset(a) == multiset(b)
    requires KeyDetermines(a)
    ensures a == b
  {
    hide Less, InKeyOrder;
    assert |multiset(a)| == |multiset(b)|;
    if a != [] {
      HeadAndTail(a);
      HeadAndTail(b);
      SameHead(a, b);
      SortedPermutationUnique(a[1..], b[1..]);
      assert a == [a[0]] + a[1..] && b == [b[0]] + b[1..];
    }
  }

  /** If the key determines the observation, the canonical form does not depend on the order of arrival. */
  lemma PermutationHasSameForm(a: seq<Observation>, b: seq<Observation>)
    requires multiset(a) == multiset(b) && KeyDetermines(a)
    ensures Canonical(a) == Canonical(b)
  {
    CanonicalSorts(a);
    CanonicalSorts(b);
    SortedPermutationUnique(Canonical(a), Canonical(b));
  }

  lemma PullOut(obs: seq<Observation>, x: Observation) returns (rest: seq<Observation>)
    requires x in obs
    ensures multiset(obs) == multiset{x} + multiset(rest)
  {
    var i :| 0 <= i < |obs| && obs[i] == x;
    rest := obs[..i] + obs[i + 1..];
    assert obs == obs[..i] + [x] + obs[i + 1..];
  }

  /** Two different observations with one key can arrive in two orders that stay different. */
  lemma SharedKeyDependsOnOrder(obs: seq<Observation>, x: Observation, y: Observation)
    returns (a: seq<Observation>, b: seq<Observation>)
    requires x in obs && y in obs && x != y && x.Key() == y.Key()
    ensures multiset(a) == multiset(b) == multiset(obs) && Canonical(a) != Canonical(b)
  {
    var without := PullOut(obs, x);
    assert y in multiset(obs);
    assert y in multiset(without);
    var rest := PullOut(without, y);
    a, b := [x] + ([y] + rest), [y] + ([x] + rest);
    var k := x.Key();
    CanonicalIsStable(a, k);
    CanonicalIsStable(b, k);
    assert WithKey(a, k)[0] == x && WithKey(b, k)[0] == y;
  }

  ghost predicate SameForm(obs: seq<Observation>, b: seq<Observation>) {
    multiset(b) == multiset(obs) ==> Canonical(b) == Canonical(obs)
  }

  /** Every permutation has the same canonical form exactly when the key determines the observation. */
  lemma OrderIndependentExactly(obs: seq<Observation>)
    ensures (forall b :: SameForm(obs, b)) <==> KeyDetermines(obs)
  {
    if KeyDetermines(obs) {
      forall b ensures SameForm(obs, b) {
        if multiset(b) == multiset(obs) { PermutationHasSameForm(obs, b); }
      }
    } else {
      var x, y :| x in obs && y in obs && x.Key() == y.Key() && x != y;
      var a, b := SharedKeyDependsOnOrder(obs, x, y);
      assert !SameForm(obs, a) || !SameForm(obs, b);
    }
  }
}
