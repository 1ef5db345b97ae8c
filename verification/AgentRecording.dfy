/**
 * Agent Host recordings and their evaluation.
 *
 * Event identifiers are injective constructors over what they digest; times count
 * microseconds from the first instant of 1970.
 *
 * Main results: `ValidateRecording`, `Classify`, `DecisiveExactly` (what a verdict means).
 */
module AgentRecording {
  import opened Wrappers
  import opened Digraph
  import opened Worklist

  const MAX_EVENTS: nat := 2048
  const MAX_PARENTS: nat := 64
  const MAX_TIME: int := 4102444800000000

  const PASS := "benchmark.boundary_preserved"
  const FINDING := "benchmark.boundary_violated"
  const INCONCLUSIVE := "benchmark.inconclusive"
  const ADAPTER_ERROR := "benchmark.adapter_error"

  predicate IsTerminal(activity: string) {
    activity == PASS || activity == FINDING || activity == INCONCLUSIVE || activity == ADAPTER_ERROR
  }

  predicate IsHex(s: string, n: nat) {
    |s| == n && forall c :: c in s ==> '0' <= c <= '9' || 'a' <= c <= 'f'
  }

  predicate IsToken(s: string) {
    && 1 <= |s| <= 128 && 'a' <= s[0] <= 'z'
    && forall c :: c in s ==> 'a' <= c <= 'z' || '0' <= c <= '9' || c == '_' || c == '.' || c == '-'
  }

  predicate IsSurface(s: string) {
    s in ["user", "agent", "model", "tool", "mcp", "retrieval", "memory", "document", "app", "sensor", "environment", "provider", "audit"]
  }

  /** A commitment: some text a caller supplied, or the digest of a fixed text. */
  datatype Commitment = Supplied(text: string) | DigestOf(text: string)

  predicate IsDigest(c: Commitment) {
    c.Supplied? ==> IsHex(c.text, 64)
  }

  datatype EventId =
    | OwnedId(pattern: string, repositorySha: string, sequence: nat, start: int, surface: string, activity: string,
              data: Commitment, authority: Option<Commitment>, parents: seq<EventId>)
    | ForeignId(text: string)

  datatype Telemetry = Complete | Incomplete | Malformed | Unattested | Conflicting

  datatype Event = Event(id: EventId, project: string, repository: string, repositorySha: string, at: int,
                         surface: string, activity: string, parents: seq<EventId>,
                         data: Commitment, authority: Option<Commitment>, telemetry: Telemetry)

  /** The event contract. */
  predicate ValidEvent(e: Event) {
    && (IsHex(e.repositorySha, 40) || IsHex(e.repositorySha, 64))
    && 0 <= e.at <= MAX_TIME && IsSurface(e.surface) && IsToken(e.activity)
    && |e.parents| <= MAX_PARENTS && (forall i, j :: 0 <= i < j < |e.parents| ==> e.parents[i] != e.parents[j])
    && e.id !in e.parents
    && IsDigest(e.data) && (e.authority.Some? ==> IsDigest(e.authority.value))
  }

  ghost predicate Hexadecimal(s: string) {
    forall c :: c in s ==> c in "0123456789abcdef"
  }

  lemma HexExactly(s: string, n: nat)
    ensures IsHex(s, n) <==> |s| == n && Hexadecimal(s)
  {
    forall c: char ensures c in "0123456789abcdef" <==> '0' <= c <= '9' || 'a' <= c <= 'f' {}
  }

  lemma TokenExactly(s: string)
    ensures IsToken(s) <==> 1 <= |s| <= 128 && 'a' <= s[0] <= 'z' && forall i :: 0 <= i < |s| ==> 'a' <= s[i] <= 'z' || s[i] in "0123456789_.-"
  {
    forall c: char ensures c in "0123456789_.-" <==> '0' <= c <= '9' || c == '_' || c == '.' || c == '-' {}
    assert forall i :: 0 <= i < |s| ==> s[i] in s;
  }

  lemma DigestExactly(c: Commitment)
    ensures IsDigest(c) <==> (c.Supplied? ==> |c.text| == 64 && Hexadecimal(c.text))
  {
    HexExactly(c.text, 64);
  }

  /** The event contract, field by field. */
  lemma EventExactly(e: Event)
    ensures ValidEvent(e) <==>
            && (|e.repositorySha| == 40 || |e.repositorySha| == 64) && Hexadecimal(e.repositorySha)
            && 0 <= e.at <= 4102444800000000
            && e.surface in {"user", "agent", "model", "tool", "mcp", "retrieval", "memory", "document", "app", "sensor", "environment", "provider", "audit"}
            && 1 <= |e.activity| <= 128 && 'a' <= e.activity[0] <= 'z'
            && (forall i :: 0 <= i < |e.activity| ==> 'a' <= e.activity[i] <= 'z' || e.activity[i] in "0123456789_.-")
            && |e.parents| <= 64 && (forall i, j :: 0 <= i < j < |e.parents| ==> e.parents[i] != e.parents[j])
            && (forall i :: 0 <= i < |e.parents| ==> e.parents[i] != e.id)
            && (e.data.Supplied? ==> |e.data.text| == 64 && Hexadecimal(e.data.text))
            && (e.authority.Some? && e.authority.value.Supplied? ==> |e.authority.value.text| == 64 && Hexadecimal(e.authority.value.text))
  {
    hide IsHex, IsToken, IsDigest, Hexadecimal;
    HexExactly(e.repositorySha, 40);
    HexExactly(e.repositorySha, 64);
    TokenExactly(e.activity);
    DigestExactly(e.data);
    if e.authority.Some? { DigestExactly(e.authority.value); }
  }

  // ------------------------------------------------------------- recordings

  datatype Status = Completed | InconclusiveStatus | AdapterErrorStatus

  /** The digest of the frozen corpus manifest. */
  const CORPUS_MANIFEST: nat := 1

  /** The commitment to the exact bytes of an event. */
  datatype EventCommitment = CommitmentTo(event: Event)

  /** The digest of the recording fields; events enter it through their commitments. */
  datatype RecordingId = IdOf(manifest: nat, pattern: string, host: nat, commitments: seq<EventCommitment>,
                              status: Status, telemetry: Telemetry)

  datatype Recording = Recording(id: RecordingId, manifest: nat, pattern: string, host: nat, events: seq<Event>,
                                 commitments: seq<EventCommitment>, status: Status, telemetry: Telemetry)

  function Commitments(events: seq<Event>): seq<EventCommitment> {
    seq(|events|, i requires 0 <= i < |events| => CommitmentTo(events[i]))
  }

  /** The record of these events, all commitments and identity fields derived. */
  function BuildRecording(pattern: string, host: nat, events: seq<Event>, status: Status): Recording {
    var telemetry := Aggregate(events);
    Recording(IdOf(CORPUS_MANIFEST, pattern, host, Commitments(events), status, telemetry),
              CORPUS_MANIFEST, pattern, host, events, Commitments(events), status, telemetry)
  }

  function Aggregate(events: seq<Event>): Telemetry {
    if events == [] then Incomplete
    else if forall e :: e in events ==> e.telemetry.Complete? then Complete
    else if exists e :: e in events && e.telemetry.Malformed? then Malformed
    else if exists e :: e in events && e.telemetry.Conflicting? then Conflicting
    else if exists e :: e in events && e.telemetry.Incomplete? then Incomplete
    else Unattested
  }

  /** Some event has this telemetry state. */
  ghost predicate Shows(events: seq<Event>, t: Telemetry) {
    exists i :: 0 <= i < |events| && events[i].telemetry == t
  }

  /** The worst state any event shows; nothing observed is incomplete. */
  lemma AggregateExactly(events: seq<Event>)
    ensures Aggregate(events).Malformed? <==> Shows(events, Malformed)
    ensures Aggregate(events).Conflicting? <==> Shows(events, Conflicting) && !Shows(events, Malformed)
    ensures Aggregate(events).Incomplete? <==>
            events == [] || (Shows(events, Incomplete) && !Shows(events, Malformed) && !Shows(events, Conflicting))
    ensures Aggregate(events).Complete? <==> events != [] && forall i :: 0 <= i < |events| ==> events[i].telemetry.Complete?
  {
    forall t ensures Shows(events, t) <==> exists e :: e in events && e.telemetry == t {
      if i :| 0 <= i < |events| && events[i].telemetry == t { assert events[i] in events; }
    }
    assert forall i :: 0 <= i < |events| ==> events[i] in events;
  }

  function Ids(events: seq<Event>): seq<EventId> {
    seq(|events|, i requires 0 <= i < |events| => events[i].id)
  }

  predicate SameProject(a: Event, b: Event) {
    a.project == b.project && a.repository == b.repository && a.repositorySha == b.repositorySha
  }

  /** Every parent of event i is the identifier of an earlier event. */
  ghost predicate ParentsBefore(events: seq<Event>, i: nat)
    requires i < |events|
  {
    forall p :: p in events[i].parents ==> exists k :: 0 <= k < i && events[k].id == p
  }

  /** Among the first n events: one project, times in order, and every parent earlier. */
  ghost predicate CausalUpTo(events: seq<Event>, n: nat)
    requires n <= |events|
  {
    && (forall i :: 0 <= i < n ==> SameProject(events[i], events[0]))
    && (forall i, j :: 0 <= i < j < n ==> events[i].at <= events[j].at)
    && (forall i :: 0 <= i < n ==> ParentsBefore(events, i))
  }

  ghost predicate CausalOrder(events: seq<Event>) {
    CausalUpTo(events, |events|)
  }

  /** The recording contract. */
  ghost predicate ValidRecording(corpus: set<string>, r: Recording) {
    && r.pattern in corpus && r.manifest == CORPUS_MANIFEST && 1 <= |r.events| <= MAX_EVENTS
    && (forall e :: e in r.events ==> ValidEvent(e))
    && Distinct(Ids(r.events)) && CausalOrder(r.events) && r.commitments == Commitments(r.events)
    && r.id == IdOf(r.manifest, r.pattern, r.host, r.commitments, r.status, r.telemetry)
    && r.telemetry == Aggregate(r.events)
    && (r.status.Completed? ==> r.telemetry.Complete?)
  }

  /** What `seen` and the adjacent comparison decide about one more event. */
  lemma OneMoreEvent(events: seq<Event>, i: nat, seen: set<EventId>)
    requires i < |events| && seen == Elements(Ids(events)[..i]) && CausalUpTo(events, i)
    ensures CausalUpTo(events, i + 1) <==>
            && SameProject(events[i], events[0])
            && (i > 0 ==> events[i - 1].at <= events[i].at)
            && (forall p :: p in events[i].parents ==> p in seen)
  {
    forall p ensures p in seen <==> exists k :: 0 <= k < i && events[k].id == p {
      if p in seen {
        var k :| 0 <= k < i && Ids(events)[..i][k] == p;
        assert events[k].id == p;
      }
      if k :| 0 <= k < i && events[k].id == p {
        assert Ids(events)[..i][k] == p;
      }
    }
    assert ParentsBefore(events, i) <==> forall p :: p in events[i].parents ==> p in seen;
    if CausalUpTo(events, i + 1) {
      assert SameProject(events[i], events[0]) && ParentsBefore(events, i);
    }
  }

  /** The loop over events and commitments. */
  method CheckOrder(events: seq<Event>, commitments: seq<EventCommitment>) returns (ok: bool)
    requires events != [] && |commitments| == |events|
    ensures ok <==> CausalOrder(events) && commitments == Commitments(events)
  {
    hide SameProject;
    var seen: set<EventId> := {};
    var previous := events[0].at;
    for i := 0 to |events|
      invariant seen == Elements(Ids(events)[..i]) && CausalUpTo(events, i)
      invariant i > 0 ==> previous == events[i - 1].at
      invariant forall k :: 0 <= k < i ==> commitments[k] == CommitmentTo(events[k])
    {
      var e := events[i];
      OneMoreEvent(events, i, seen);
      if !SameProject(e, events[0]) { return false; }
      if i > 0 && e.at < previous { return false; }
      if exists p :: p in e.parents && p !in seen { return false; }
      if commitments[i] != CommitmentTo(e) {
        assert Commitments(events)[i] == CommitmentTo(e);
        return false;
      }
      ElementsTake(Ids(events), i);
      previous := e.at;
      seen := seen + {e.id};
    }
    return true;
  }

  method ValidateRecording(corpus: set<string>, r: Recording) returns (ok: bool)
    requires forall e :: e in r.events ==> ValidEvent(e)
    ensures ok <==> ValidRecording(corpus, r)
  {
    hide ValidEvent, Aggregate, CausalOrder;
    if !(1 <= |r.events| <= MAX_EVENTS) || r.pattern !in corpus || r.manifest != CORPUS_MANIFEST { return false; }
    if |r.events| != |r.commitments| { return false; }
    DistinctExactly(Ids(r.events));
    var unique := set x | x in Ids(r.events);
    assert unique == Elements(Ids(r.events));
    if |unique| != |r.events| { return false; }
    var ordered := CheckOrder(r.events, r.commitments);
    if !ordered || r.telemetry != Aggregate(r.events) { return false; }
    if r.status.Completed? && !r.telemetry.Complete? { return false; }
    return r.id == IdOf(r.manifest, r.pattern, r.host, r.commitments, r.status, r.telemetry);
  }

  /** The recording identity binds the whole recording. */
  lemma IdentityBindsRecording(corpus: set<string>, r: Recording, s: Recording)
    requires ValidRecording(corpus, r) && ValidRecording(corpus, s) && r.id == s.id
    ensures r == s
  {
    hide ValidEvent, CausalOrder;
    assert Commitments(r.events) == Commitments(s.events);
    forall i | 0 <= i < |r.events| ensures |s.events| == |r.events| && r.events[i] == s.events[i] {
      assert Commitments(r.events)[i] == CommitmentTo(r.events[i]);
      assert Commitments(s.events)[i] == CommitmentTo(s.events[i]);
    }
    assert |r.events| == |Commitments(r.events)| && |s.events| == |Commitments(s.events)|;
  }

  // ------------------------------------------------------------ event graph

  /** The last event with an identifier, as a dictionary keeps it. */
  function ById(events: seq<Event>): (m: map<EventId, Event>)
    ensures forall x :: x in m ==> m[x] in events && m[x].id == x
    ensures forall e :: e in events ==> e.id in m
  {
    if events == [] then map[]
    else
      var n := |events| - 1;
      assert events == events[..n] + [events[n]];
      ById(events[..n])[events[n].id := events[n]]
  }

  function Parents(events: seq<Event>): map<EventId, seq<EventId>> {
    var m := ById(events);
    map x | x in m :: m[x].parents
  }

  lemma ParentsAreRecorded(events: seq<Event>)
    requires CausalOrder(events)
    ensures Closed(Parents(events))
  {
    forall a, b | a in Parents(events) && b in Parents(events)[a] ensures b in Parents(events) {
      var e := ById(events)[a];
      var i :| 0 <= i < |events| && events[i] == e;
      assert ParentsBefore(events, i);
      var k :| 0 <= k < i && events[k].id == b;
      assert events[k] in events;
    }
  }

  /** The graph of distinct events: its nodes are their identifiers, each leading to its own parents. */
  lemma ParentsExactly(events: seq<Event>)
    requires Distinct(Ids(events))
    ensures forall x :: x in Parents(events) <==> exists i :: 0 <= i < |events| && events[i].id == x
    ensures forall i :: 0 <= i < |events| ==> events[i].id in Parents(events) && Parents(events)[events[i].id] == events[i].parents
  {
    hide ById;
    var m := ById(events);
    forall i | 0 <= i < |events| ensures events[i].id in m && m[events[i].id] == events[i] {
      assert events[i] in events;
      var k :| 0 <= k < |events| && events[k] == m[events[i].id];
      assert Ids(events)[k] == Ids(events)[i];
    }
    forall x | x in m ensures exists i :: 0 <= i < |events| && events[i].id == x {
      var k :| 0 <= k < |events| && events[k] == m[x];
    }
  }

  /** Every event is this one or an ancestor of it. */
  ghost predicate Covers(events: seq<Event>, id: EventId) {
    forall e :: e in events ==> Reaches(Parents(events), id, e.id)
  }

  /** The worklist over parents, compared with the set of all identifiers. */
  method TerminalCovers(events: seq<Event>, terminal: Event) returns (ok: bool)
    requires CausalOrder(events) && terminal in events
    ensures ok <==> Covers(events, terminal.id)
  {
    hide CausalOrder;
    ParentsAreRecorded(events);
    var g := Parents(events);
    var covered := AncestorClosure(g, terminal.id);
    ok := covered == g.Keys;
    forall x | x in covered ensures x in g {
      var p :| WalkFromTo(g, p, terminal.id, x);
    }
    assert forall x :: x in g ==> ById(events)[x] in events && ById(events)[x].id == x;
  }

  // -------------------------------------------------------------- evaluation

  datatype Verdict = Pass | Finding | Inconclusive | AdapterError

  datatype Reason =
    | RecordingAdapterError | RecordingTelemetryIncomplete | RecordingInconclusive
    | TerminalMissing | TerminalMultiple | TerminalNotFinal | TerminalDisconnected
    | TerminalPreserved | TerminalViolated | TerminalAdapterError | TerminalInconclusive

  datatype Evaluation = Evaluation(outcome: Verdict, reason: Reason, terminal: Option<EventId>)

  function VerdictOf(reason: Reason): Verdict {
    match reason
    case TerminalPreserved => Pass
    case TerminalViolated => Finding
    case RecordingAdapterError | TerminalAdapterError => AdapterError
    case _ => Inconclusive
  }

  predicate NamesTerminal(reason: Reason) {
    reason in {TerminalPreserved, TerminalViolated, TerminalAdapterError, TerminalDisconnected, TerminalInconclusive, TerminalNotFinal}
  }

  /** The evaluation contract: the reason belongs to the outcome, and names an event exactly when it should. */
  predicate ValidEvaluation(e: Evaluation) {
    e.outcome == VerdictOf(e.reason) && (e.terminal.Some? <==> NamesTerminal(e.reason))
  }

  ghost predicate TerminalAt(events: seq<Event>, k: nat) {
    k < |events| && IsTerminal(events[k].activity)
  }

  ghost predicate OnlyTerminal(events: seq<Event>, k: nat) {
    TerminalAt(events, k) && forall j: nat :: TerminalAt(events, j) ==> j == k
  }

  /** What each reason says of a recording. */
  ghost predicate Means(r: Recording, reason: Reason) {
    var n := |r.events| - 1;
    match reason
    case RecordingAdapterError => r.status.AdapterErrorStatus?
    case RecordingTelemetryIncomplete => !r.status.AdapterErrorStatus? && !r.telemetry.Complete?
    case RecordingInconclusive => r.status.InconclusiveStatus? && r.telemetry.Complete?
    case TerminalMissing => Decidable(r) && forall k: nat :: !TerminalAt(r.events, k)
    case TerminalMultiple => Decidable(r) && exists j: nat, k: nat :: TerminalAt(r.events, j) && TerminalAt(r.events, k) && j < k
    case TerminalNotFinal => Decidable(r) && exists k: nat :: OnlyTerminal(r.events, k) && k < n
    case TerminalDisconnected => Decidable(r) && n >= 0 && OnlyTerminal(r.events, n) && !Covers(r.events, r.events[n].id)
    case TerminalPreserved => Conclusive(r) && r.events[n].activity == PASS
    case TerminalViolated => Conclusive(r) && r.events[n].activity == FINDING
    case TerminalAdapterError => Conclusive(r) && r.events[n].activity == ADAPTER_ERROR
    case TerminalInconclusive => Conclusive(r) && r.events[n].activity == INCONCLUSIVE
  }

  ghost predicate Decidable(r: Recording) {
    r.status.Completed? && r.telemetry.Complete?
  }

  /** The last event is the only terminal one, and everything else led up to it. */
  ghost predicate Conclusive(r: Recording) {
    Decidable(r) && r.events != [] && OnlyTerminal(r.events, |r.events| - 1) && Covers(r.events, r.events[|r.events| - 1].id)
  }

  /** Positions, among the first n, of the events that claim to be terminal. */
  function TerminalPositions(events: seq<Event>, n: nat): seq<nat>
    requires n <= |events|
  {
    if n == 0 then []
    else TerminalPositions(events, n - 1) + if IsTerminal(events[n - 1].activity) then [n - 1] else []
  }

  lemma {:induction false} TerminalPositionsAre(events: seq<Event>, n: nat)
    requires n <= |events|
    ensures forall k: nat :: k in TerminalPositions(events, n) <==> k < n && TerminalAt(events, k)
    ensures Distinct(TerminalPositions(events, n))
  {
    hide IsTerminal;
    if n > 0 {
      TerminalPositionsAre(events, n - 1);
      var earlier := TerminalPositions(events, n - 1);
      assert forall i :: 0 <= i < |earlier| ==> earlier[i] in earlier;
    }
  }

  /** Classification by the terminal event and the ancestry of that event. */
  method Classify(r: Recording) returns (v: Evaluation)
    requires CausalOrder(r.events)
    ensures ValidEvaluation(v) && Means(r, v.reason)
    ensures v.terminal.Some? ==> exists k: nat :: OnlyTerminal(r.events, k) && r.events[k].id == v.terminal.value
    ensures v.terminal.Some? <==> r.status.Completed? && r.telemetry.Complete? && exists k: nat :: OnlyTerminal(r.events, k)
  {
    hide CausalOrder, Covers, TerminalPositions, Parents, ById;
    if r.status.AdapterErrorStatus? { return Evaluation(AdapterError, RecordingAdapterError, None); }
    if !r.telemetry.Complete? { return Evaluation(Inconclusive, RecordingTelemetryIncomplete, None); }
    if r.status.InconclusiveStatus? { return Evaluation(Inconclusive, RecordingInconclusive, None); }
    TerminalPositionsAre(r.events, |r.events|);
    var candidates := TerminalPositions(r.events, |r.events|);
    if candidates == [] {
      return Evaluation(Inconclusive, TerminalMissing, None);
    }
    if |candidates| != 1 {
      SeveralTerminals(r.events, candidates);
      return Evaluation(Inconclusive, TerminalMultiple, None);
    }
    var index := candidates[0];
    OneTerminal(r.events, candidates);
    var terminal := r.events[index];
    if index != |r.events| - 1 { return Evaluation(Inconclusive, TerminalNotFinal, Some(terminal.id)); }
    var covers := TerminalCovers(r.events, terminal);
    if !covers { return Evaluation(Inconclusive, TerminalDisconnected, Some(terminal.id)); }
    if terminal.activity == PASS { return Evaluation(Pass, TerminalPreserved, Some(terminal.id)); }
    if terminal.activity == FINDING { return Evaluation(Finding, TerminalViolated, Some(terminal.id)); }
    if terminal.activity == ADAPTER_ERROR { return Evaluation(AdapterError, TerminalAdapterError, Some(terminal.id)); }
    return Evaluation(Inconclusive, TerminalInconclusive, Some(terminal.id));
  }

  lemma SeveralTerminals(events: seq<Event>, candidates: seq<nat>)
    requires forall k: nat :: k in candidates <==> TerminalAt(events, k)
    requires Distinct(candidates) && |candidates| >= 2
    ensures exists j: nat, k: nat :: TerminalAt(events, j) && TerminalAt(events, k) && j < k
  {
    hide TerminalAt;
    var a, b := candidates[0], candidates[1];
    assert a in candidates && b in candidates;
    assert TerminalAt(events, a) && TerminalAt(events, b);
    if b < a { assert TerminalAt(events, b) && TerminalAt(events, a) && b < a; }
  }

  lemma OneTerminal(events: seq<Event>, candidates: seq<nat>)
    requires forall k: nat :: k in candidates <==> TerminalAt(events, k)
    requires |candidates| == 1
    ensures OnlyTerminal(events, candidates[0])
  {
    hide TerminalAt;
    assert candidates[0] in candidates;
  }

  /** The eleven reasons exclude one another, so the meaning of a recording's reason determines it. */
  lemma ReasonIsUnique(r: Recording, a: Reason, b: Reason)
    requires Means(r, a) && Means(r, b)
    ensures a == b
  {
    hide Covers, TerminalAt;
    TerminalActivitiesDiffer();
  }

  lemma TerminalActivitiesDiffer()
    ensures |PASS| == 28 && |FINDING| == 27 && |INCONCLUSIVE| == 22 && |ADAPTER_ERROR| == 23
  {
  }

  /** A recording is judged a pass, or a finding, exactly when it is conclusive and ends that way. */
  lemma DecisiveExactly(r: Recording, v: Evaluation)
    requires ValidEvaluation(v) && Means(r, v.reason)
    ensures v.outcome.Pass? <==> Conclusive(r) && r.events[|r.events| - 1].activity == PASS
    ensures v.outcome.Finding? <==> Conclusive(r) && r.events[|r.events| - 1].activity == FINDING
  {
    hide Decidable, OnlyTerminal, Covers, NamesTerminal;
    if Conclusive(r) && r.events[|r.events| - 1].activity == PASS { ReasonIsUnique(r, v.reason, TerminalPreserved); }
    if Conclusive(r) && r.events[|r.events| - 1].activity == FINDING { ReasonIsUnique(r, v.reason, TerminalViolated); }
  }
}
