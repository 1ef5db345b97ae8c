/**
 * The append-only session that records one owned workflow, and the run that evaluates it.
 *
 * A workflow is the series of calls it makes on the session, followed by a return or an
 * exception; a call that raises leaves the session as it was.
 *
 * Main results: `RunOwned`, `ClosedIsRecordable`, `ChainIsCovered`, `PassExactly`, `AdapterErrorExactly`.
 */
module AgentSession {
  import opened Wrappers
  import opened Digraph
  import opened AgentRecording

  const PROJECT := "agentic-security-harness"
  const REPOSITORY := "example/owned-agent-host"

  datatype Config = Config(pattern: string, repositorySha: string, start: int, host: nat)

  datatype State = State(events: seq<Event>, closed: bool)

  datatype Call =
    | Observe(surface: string, activity: string, data: Commitment, authority: Option<Commitment>)
    | BoundaryPreserved | BoundaryViolated | DeclareInconclusive | DeclareAdapterError

  function LastIds(events: seq<Event>): seq<EventId> {
    if events == [] then [] else [events[|events| - 1].id]
  }

  /** The event an observation would append. */
  function NextEvent(c: Config, events: seq<Event>, call: Call): Event
    requires call.Observe?
  {
    var parents := LastIds(events);
    Event(OwnedId(c.pattern, c.repositorySha, |events|, c.start, call.surface, call.activity, call.data, call.authority, parents),
          PROJECT, REPOSITORY, c.repositorySha, c.start + |events|,
          call.surface, call.activity, parents, call.data, call.authority, Complete)
  }

  /** The observation a call makes. */
  function AsObservation(call: Call): (o: Call)
    ensures o.Observe?
  {
    match call
    case Observe(_, _, _, _) => call
    case BoundaryPreserved => Observe("audit", PASS, DigestOf("protected-boundary-preserved"), None)
    case BoundaryViolated => Observe("audit", FINDING, DigestOf("synthetic-boundary-violation"), None)
    case DeclareInconclusive => Observe("audit", INCONCLUSIVE, DigestOf("synthetic-inconclusive"), None)
    case DeclareAdapterError => Observe("audit", ADAPTER_ERROR, DigestOf("sanitized-adapter-error"), None)
  }

  /** A call raises on a closed session and on an event outside its contract. */
  predicate Accepts(c: Config, s: State, call: Call) {
    !s.closed && ValidEvent(NextEvent(c, s.events, AsObservation(call)))
  }

  function After(c: Config, s: State, call: Call): State {
    if Accepts(c, s, call) then State(s.events + [NextEvent(c, s.events, AsObservation(call))], !call.Observe?) else s
  }

  function AfterAll(c: Config, script: seq<Call>): State {
    if script == [] then State([], false)
    else After(c, AfterAll(c, script[..|script| - 1]), script[|script| - 1])
  }

  /** The event that a session with these events records for an observation. */
  ghost predicate Records(c: Config, events: seq<Event>, e: Event, surface: string, activity: string, data: Commitment, authority: Option<Commitment>) {
    && e.surface == surface && e.activity == activity && e.data == data && e.authority == authority
    && e.project == "agentic-security-harness" && e.repository == "example/owned-agent-host" && e.repositorySha == c.repositorySha
    && e.at == c.start + |events| && e.telemetry.Complete?
    && e.parents == (if events == [] then [] else [events[|events| - 1].id])
    && e.id == OwnedId(c.pattern, c.repositorySha, |events|, c.start, surface, activity, data, authority, e.parents)
  }

  /** The repository and the time of the n-th event are within the event contract. */
  ghost predicate InRange(c: Config, n: nat) {
    (|c.repositorySha| == 40 || |c.repositorySha| == 64) && Hexadecimal(c.repositorySha) && 0 <= c.start + n <= 4102444800000000
  }

  /** What an observation may say. */
  ghost predicate Sayable(surface: string, activity: string, data: Commitment, authority: Option<Commitment>) {
    && surface in {"user", "agent", "model", "tool", "mcp", "retrieval", "memory", "document", "app", "sensor", "environment", "provider", "audit"}
    && 1 <= |activity| <= 128 && 'a' <= activity[0] <= 'z'
    && (forall i :: 0 <= i < |activity| ==> 'a' <= activity[i] <= 'z' || activity[i] in "0123456789_.-")
    && (data.Supplied? ==> |data.text| == 64 && Hexadecimal(data.text))
    && (authority.Some? && authority.value.Supplied? ==> |authority.value.text| == 64 && Hexadecimal(authority.value.text))
  }

  /** The event of a terminal call. */
  ghost predicate Settles(call: Call, e: Event) {
    && e.surface == "audit" && e.authority.None?
    && match call
       case Observe(_, _, _, _) => false
       case BoundaryPreserved => e.activity == "benchmark.boundary_preserved" && e.data == DigestOf("protected-boundary-preserved")
       case BoundaryViolated => e.activity == "benchmark.boundary_violated" && e.data == DigestOf("synthetic-boundary-violation")
       case DeclareInconclusive => e.activity == "benchmark.inconclusive" && e.data == DigestOf("synthetic-inconclusive")
       case DeclareAdapterError => e.activity == "benchmark.adapter_error" && e.data == DigestOf("sanitized-adapter-error")
  }

  /** The event contract of a session's next event, in full. */
  lemma AcceptsExactly(c: Config, s: State, call: Call)
    requires call.Observe?
    ensures Accepts(c, s, call) <==> !s.closed && InRange(c, |s.events|) && Sayable(call.surface, call.activity, call.data, call.authority)
    ensures Records(c, s.events, NextEvent(c, s.events, call), call.surface, call.activity, call.data, call.authority)
  {
    hide IsHex, IsToken, Hexadecimal;
    HexExactly(c.repositorySha, 40);
    HexExactly(c.repositorySha, 64);
    HexExactly(call.data.text, 64);
    if call.authority.Some? { HexExactly(call.authority.value.text, 64); }
    TokenExactly(call.activity);
    var e := NextEvent(c, s.events, call);
    assert e.id !in e.parents;
  }

  lemma PassIsSayable()
    ensures Sayable("audit", PASS, DigestOf("protected-boundary-preserved"), None)
  {
  }

  lemma FindingIsSayable()
    ensures Sayable("audit", FINDING, DigestOf("synthetic-boundary-violation"), None)
  {
  }

  lemma InconclusiveIsSayable()
    ensures Sayable("audit", INCONCLUSIVE, DigestOf("synthetic-inconclusive"), None)
  {
  }

  lemma AdapterErrorIsSayable()
    ensures Sayable("audit", ADAPTER_ERROR, DigestOf("sanitized-adapter-error"), None)
  {
  }

  lemma TerminalIsSayable(call: Call)
    requires !call.Observe?
    ensures var o := AsObservation(call); Sayable(o.surface, o.activity, o.data, o.authority)
  {
    hide Sayable;
    PassIsSayable();
    FindingIsSayable();
    InconclusiveIsSayable();
    AdapterErrorIsSayable();
  }

  class Session {
    const config: Config
    var events: seq<Event>
    var closed: bool

    ghost function Now(): State
      reads this
    {
      State(events, closed)
    }

    constructor (c: Config)
      ensures config == c && Now() == State([], false)
    {
      config := c;
      events := [];
      closed := false;
    }

    method Observe(surface: string, activity: string, data: Commitment, authority: Option<Commitment>) returns (event: Option<Event>)
      modifies this
      ensures event.Some? <==> Accepts(config, old(Now()), Call.Observe(surface, activity, data, authority))
      ensures event.Some? ==> event.value == NextEvent(config, old(events), Call.Observe(surface, activity, data, authority))
      ensures Now() == After(config, old(Now()), Call.Observe(surface, activity, data, authority))
      ensures event.Some? <==> !old(closed) && InRange(config, |old(events)|) && Sayable(surface, activity, data, authority)
      ensures event.Some? ==> Records(config, old(events), event.value, surface, activity, data, authority)
      ensures closed == old(closed) && events == old(events) + if event.Some? then [event.value] else []
    {
      hide ValidEvent, InRange, Sayable, Records;
      AcceptsExactly(config, Now(), Call.Observe(surface, activity, data, authority));
      if closed { return None; }
      var parents := if events == [] then [] else [events[|events| - 1].id];
      var id := OwnedId(config.pattern, config.repositorySha, |events|, config.start, surface, activity, data, authority, parents);
      var e := Event(id, PROJECT, REPOSITORY, config.repositorySha, config.start + |events|,
                     surface, activity, parents, data, authority, Complete);
      if !ValidEvent(e) { return None; }
      events := events + [e];
      return Some(e);
    }

    method Terminal(call: Call) returns (ok: bool)
      requires !call.Observe?
      modifies this
      ensures ok <==> Accepts(config, old(Now()), call)
      ensures Now() == After(config, old(Now()), call)
      ensures ok <==> !old(closed) && InRange(config, |old(events)|)
      ensures !ok ==> events == old(events) && closed == old(closed)
      ensures ok ==> closed && |events| == |old(events)| + 1 && events[..|old(events)|] == old(events)
      ensures ok ==> var e := events[|old(events)|]; Settles(call, e) && Records(config, old(events), e, e.surface, e.activity, e.data, e.authority)
    {
      hide ValidEvent, InRange, Sayable;
      TerminalIsSayable(call);
      var o := AsObservation(call);
      var event := Observe(o.surface, o.activity, o.data, o.authority);
      if event.None? { return false; }
      closed := true;
      return true;
    }

    /** A workflow making its calls, going on after one that raised. */
    method Perform(script: seq<Call>)
      requires Now() == State([], false)
      modifies this
      ensures Now() == AfterAll(config, script)
    {
      hide Accepts, NextEvent;
      for i := 0 to |script|
        invariant Now() == AfterAll(config, script[..i])
      {
        assert script[..i + 1][..i] == script[..i];
        match script[i] {
          case Observe(surface, activity, data, authority) =>
            var _ := Observe(surface, activity, data, authority);
          case _ =>
            var _ := Terminal(script[i]);
        }
      }
      assert script[..|script|] == script;
    }
  }

  // --------------------------------------------------------------- the chain

  /** Event k is valid and continues the chain of the events before it. */
  ghost predicate LinkAt(c: Config, events: seq<Event>, k: nat)
    requires k < |events|
  {
    var e := events[k];
    && ValidEvent(e)
    && e.id == OwnedId(c.pattern, c.repositorySha, k, c.start, e.surface, e.activity, e.data, e.authority, e.parents)
    && e.project == PROJECT && e.repository == REPOSITORY && e.repositorySha == c.repositorySha
    && e.at == c.start + k && e.telemetry.Complete?
    && e.parents == if k == 0 then [] else [events[k - 1].id]
  }

  ghost predicate Chained(c: Config, s: State) {
    && (forall k :: 0 <= k < |s.events| ==> LinkAt(c, s.events, k))
    && (s.closed ==> s.events != [] && IsTerminal(s.events[|s.events| - 1].activity))
  }

  lemma AfterKeepsChain(c: Config, s: State, call: Call)
    requires Chained(c, s)
    ensures Chained(c, After(c, s, call))
  {
    hide ValidEvent;
    var t := After(c, s, call);
    forall k | 0 <= k < |t.events| ensures LinkAt(c, t.events, k) {
      if k < |s.events| { assert LinkAt(c, s.events, k); }
    }
  }

  /** Whatever a workflow calls, the events recorded form a chain. */
  lemma {:induction false} SessionIsChain(c: Config, script: seq<Call>)
    ensures Chained(c, AfterAll(c, script))
  {
    hide After, LinkAt;
    if script != [] {
      SessionIsChain(c, script[..|script| - 1]);
      AfterKeepsChain(c, AfterAll(c, script[..|script| - 1]), script[|script| - 1]);
    }
  }

  // ------------------------------------------------------------ owned runs

  /** The session once the run has settled it; none when the run raises instead. */
  function Finish(c: Config, s: State, raised: bool): Option<State> {
    if raised && s.closed then None
    else if raised then
      if Accepts(c, s, DeclareAdapterError) then Some(After(c, s, DeclareAdapterError)) else None
    else if s.closed then Some(s)
    else if Accepts(c, s, DeclareInconclusive) then Some(After(c, s, DeclareInconclusive))
    else None
  }

  function StatusOf(activity: string): Status {
    if activity == ADAPTER_ERROR then AdapterErrorStatus
    else if activity == INCONCLUSIVE then InconclusiveStatus
    else Completed
  }

  function OwnedRecording(c: Config, s: State): Recording
    requires s.events != []
  {
    BuildRecording(c.pattern, c.host, s.events, StatusOf(s.events[|s.events| - 1].activity))
  }

  lemma FinishKeepsChain(c: Config, s: State, raised: bool)
    requires Chained(c, s) && Finish(c, s, raised).Some?
    ensures Chained(c, Finish(c, s, raised).value) && Finish(c, s, raised).value.closed
  {
    hide Chained, ValidEvent, NextEvent;
    AfterKeepsChain(c, s, DeclareAdapterError);
    AfterKeepsChain(c, s, DeclareInconclusive);
  }

  /** A chain is a causally ordered list of distinct, valid, completely observed events. */
  lemma ChainIsRecordable(c: Config, s: State)
    requires Chained(c, s) && s.events != []
    ensures forall e :: e in s.events ==> ValidEvent(e)
    ensures Distinct(Ids(s.events)) && CausalOrder(s.events) && Aggregate(s.events).Complete?
  {
    hide ValidEvent;
    var events := s.events;
    assert LinkAt(c, events, 0);
    forall e | e in events ensures ValidEvent(e) && e.telemetry.Complete? {
      var k :| 0 <= k < |events| && events[k] == e;
      assert LinkAt(c, events, k);
    }
    forall i, j | 0 <= i < j < |events| ensures events[i].id != events[j].id && events[i].at <= events[j].at {
      assert LinkAt(c, events, i) && LinkAt(c, events, j);
    }
    forall i | 0 <= i < |events| ensures ParentsBefore(events, i) && SameProject(events[i], events[0]) {
      assert LinkAt(c, events, i);
      forall p | p in events[i].parents ensures exists k :: 0 <= k < i && events[k].id == p {
        assert events[i - 1].id == p;
      }
    }
  }

  /** A settled session makes a valid recording, up to its length. */
  lemma ClosedIsRecordable(c: Config, s: State)
    requires Chained(c, s) && s.closed
    ensures s.events != [] && CausalOrder(s.events) && forall e :: e in s.events ==> ValidEvent(e)
    ensures forall corpus: set<string> :: ValidRecording(corpus, OwnedRecording(c, s)) <==> c.pattern in corpus && |s.events| <= MAX_EVENTS
  {
    hide ValidEvent, CausalOrder, Aggregate, LinkAt;
    ChainIsRecordable(c, s);
  }

  /** The last event of a chain has every event among its ancestors. */
  lemma ChainIsCovered(c: Config, s: State)
    requires Chained(c, s) && s.events != []
    ensures Covers(s.events, s.events[|s.events| - 1].id)
  {
    hide LinkAt;
    forall e | e in s.events ensures Reaches(Parents(s.events), s.events[|s.events| - 1].id, e.id) {
      var k :| 0 <= k < |s.events| && s.events[k] == e;
      LastReaches(c, s, k);
    }
  }

  lemma {:induction false} LastReaches(c: Config, s: State, k: nat)
    requires Chained(c, s) && k < |s.events|
    ensures Reaches(Parents(s.events), s.events[|s.events| - 1].id, s.events[k].id)
    decreases |s.events| - k
  {
    hide ValidEvent, Reaches;
    var g, last := Parents(s.events), s.events[|s.events| - 1].id;
    ChainParents(c, s, k);
    if k == |s.events| - 1 {
      ReachesSelf(g, last);
    } else {
      LastReaches(c, s, k + 1);
      ChainParents(c, s, k + 1);
      ReachesByEdgeLast(g, last, s.events[k + 1].id, s.events[k].id);
    }
  }

  /** In the graph of a chain every node leads to the node before it. */
  lemma ChainParents(c: Config, s: State, k: nat)
    requires Chained(c, s) && k < |s.events|
    ensures s.events[k].id in Parents(s.events)
    ensures k > 0 ==> Edge(Parents(s.events), s.events[k].id, s.events[k - 1].id)
  {
    hide ValidEvent;
    var events := s.events;
    var m := ById(events);
    assert events[k] in events;
    var e := m[events[k].id];
    var j :| 0 <= j < |events| && events[j] == e;
    assert LinkAt(c, events, j) && LinkAt(c, events, k);
    if k > 0 { assert events[k - 1] in events; }
  }

  /** What a run records: a completely observed chain under its configuration, the status told by the last activity. */
  ghost predicate RecordsRun(c: Config, r: Recording) {
    && r.events != [] && r.pattern == c.pattern && r.host == c.host && r.telemetry.Complete?
    && (forall k :: 0 <= k < |r.events| ==> LinkAt(c, r.events, k))
    && var last := r.events[|r.events| - 1].activity;
    && (r.status.AdapterErrorStatus? <==> last == "benchmark.adapter_error")
    && (r.status.InconclusiveStatus? <==> last == "benchmark.inconclusive")
    && (r.status.Completed? <==> last == "benchmark.boundary_preserved" || last == "benchmark.boundary_violated")
  }

  lemma SettledIsRecorded(c: Config, s: State)
    requires Chained(c, s) && s.closed
    ensures RecordsRun(c, OwnedRecording(c, s))
  {
    hide LinkAt, Aggregate;
    TerminalActivitiesDiffer();
    ChainIsRecordable(c, s);
  }

  /**
   * One owned workflow, from its session to its evaluation. `fits` says whether a recording
   * and its events encode within their byte limits.
   */
  method RunOwned(corpus: set<string>, c: Config, script: seq<Call>, raised: bool, fits: Recording -> bool)
    returns (r: Option<(Recording, Evaluation)>)
    ensures r.Some? <==>
            && c.pattern in corpus
            && var f := Finish(c, AfterAll(c, script), raised);
            && f.Some? && 1 <= |f.value.events| <= MAX_EVENTS && fits(OwnedRecording(c, f.value))
    ensures r.Some? ==>
            var f := Finish(c, AfterAll(c, script), raised);
            && f.Some? && f.value.events != []
            && r.value.0 == OwnedRecording(c, f.value)
            && ValidRecording(corpus, r.value.0)
            && ValidEvaluation(r.value.1) && Means(r.value.0, r.value.1.reason)
    ensures r.Some? ==> RecordsRun(c, r.value.0)
  {
    hide ValidEvent, AsObservation, NextEvent, Accepts, AfterAll, Chained, CausalOrder, Aggregate, StatusOf, Means, ValidEvaluation, RecordsRun;
    if c.pattern !in corpus { return None; }
    var session := new Session(c);
    session.Perform(script);
    SessionIsChain(c, script);
    if raised {
      if session.closed { return None; }
      var ok := session.Terminal(DeclareAdapterError);
      if !ok { return None; }
    }
    if !session.closed {
      var ok := session.Terminal(DeclareInconclusive);
      if !ok { return None; }
    }
    FinishKeepsChain(c, AfterAll(c, script), raised);
    ClosedIsRecordable(c, session.Now());
    SettledIsRecorded(c, session.Now());
    var terminal := session.events[|session.events| - 1].activity;
    var status := StatusOf(terminal);
    var recording := BuildRecording(c.pattern, c.host, session.events, status);
    var valid := ValidateRecording(corpus, recording);
    if !valid || !fits(recording) { return None; }
    var evaluation := Classify(recording);
    return Some((recording, evaluation));
  }

  // ---------------------------------------------------------------- verdicts

  /** No event recorded so far claims to be terminal. */
  ghost predicate NoTerminalYet(events: seq<Event>) {
    forall k: nat :: !TerminalAt(events, k)
  }

  /** Call i closed the session. */
  ghost predicate ClosedBy(c: Config, script: seq<Call>, i: nat) {
    && i < |script| && !script[i].Observe?
    && Accepts(c, AfterAll(c, script[..i]), script[i])
    && AfterAll(c, script) == After(c, AfterAll(c, script[..i]), script[i])
  }

  /** A closed session was closed by exactly one of the workflow's calls. */
  lemma {:induction false} ClosedByOneCall(c: Config, script: seq<Call>) returns (i: nat)
    requires AfterAll(c, script).closed
    ensures ClosedBy(c, script, i)
    ensures forall j: nat :: ClosedBy(c, script, j) ==> j == i
  {
    hide ValidEvent, NextEvent;
    var n := |script| - 1;
    var before := AfterAll(c, script[..n]);
    if before.closed {
      i := ClosedByOneCall(c, script[..n]);
      assert script[..n][..i] == script[..i];
    } else {
      i := n;
    }
    forall j: nat | ClosedBy(c, script, j) ensures j == i {
      OpenBeforeClosing(c, script, i);
      OpenBeforeClosing(c, script, j);
      if j < i {
        assert script[..i][..j + 1] == script[..j + 1];
        ClosedStays(c, script[..i], j + 1);
      }
      if i < j {
        assert script[..j][..i + 1] == script[..i + 1];
        ClosedStays(c, script[..j], i + 1);
      }
    }
  }

  lemma OpenBeforeClosing(c: Config, script: seq<Call>, i: nat)
    requires ClosedBy(c, script, i)
    ensures !AfterAll(c, script[..i]).closed && AfterAll(c, script[..i + 1]).closed
  {
    hide ValidEvent, NextEvent;
    assert script[..i + 1][..i] == script[..i];
  }

  lemma {:induction false} ClosedStays(c: Config, script: seq<Call>, i: nat)
    requires i <= |script| && AfterAll(c, script[..i]).closed
    ensures AfterAll(c, script).closed
  {
    hide NextEvent, ValidEvent;
    if i == |script| {
      assert script[..i] == script;
    } else {
      var n := |script| - 1;
      assert script[..n][..i] == script[..i];
      ClosedStays(c, script[..n], i);
    }
  }

  /** Closed, by an event with this activity. */
  ghost predicate EndsWith(s: State, activity: string) {
    s.closed && s.events != [] && s.events[|s.events| - 1].activity == activity
  }

  ghost predicate TerminalOnlyAtEnd(s: State) {
    s.events != [] && NoTerminalYet(s.events[..|s.events| - 1])
  }

  /** The verdict on a settled session, from its last event and the terminal claims before it. */
  lemma SettledVerdict(c: Config, s: State, v: Evaluation)
    requires Chained(c, s) && s.closed
    requires s.events != [] && ValidEvaluation(v) && Means(OwnedRecording(c, s), v.reason)
    ensures v.outcome.Pass? <==> EndsWith(s, PASS) && TerminalOnlyAtEnd(s)
    ensures v.outcome.Finding? <==> EndsWith(s, FINDING) && TerminalOnlyAtEnd(s)
    ensures v.outcome.AdapterError? <==> EndsWith(s, ADAPTER_ERROR)
  {
    hide LinkAt, Covers, IsTerminal, Aggregate;
    TerminalActivitiesDiffer();
    ChainIsRecordable(c, s);
    ChainIsCovered(c, s);
    var r := OwnedRecording(c, s);
    OnlyLast(s.events);
    DecisiveExactly(r, v);
  }

  lemma OnlyLast(events: seq<Event>)
    requires events != [] && IsTerminal(events[|events| - 1].activity)
    ensures OnlyTerminal(events, |events| - 1) <==> NoTerminalYet(events[..|events| - 1])
  {
    hide IsTerminal;
    var n := |events| - 1;
    forall k: nat | k < n ensures TerminalAt(events[..n], k) <==> TerminalAt(events, k) {
    }
  }

  /**
   * A run is judged a pass exactly when the workflow returned normally after closing the
   * session with `BoundaryPreserved`, and had used no terminal activity before that.
   */
  lemma PassExactly(c: Config, script: seq<Call>, raised: bool, v: Evaluation)
    requires var f := Finish(c, AfterAll(c, script), raised);
      f.Some? && f.value.events != [] && ValidEvaluation(v) && Means(OwnedRecording(c, f.value), v.reason)
    ensures v.outcome.Pass? <==>
            exists i: nat :: ClosedBy(c, script, i) && script[i].BoundaryPreserved? && NoTerminalYet(AfterAll(c, script[..i]).events)
    ensures v.outcome.Finding? <==>
            exists i: nat :: ClosedBy(c, script, i) && script[i].BoundaryViolated? && NoTerminalYet(AfterAll(c, script[..i]).events)
  {
    hide LinkAt, NoTerminalYet, Means, ValidEvaluation, OwnedRecording, ValidEvent, NextEvent, AfterAll, IsTerminal;
    TerminalActivitiesDiffer();
    var s := AfterAll(c, script);
    SessionIsChain(c, script);
    FinishKeepsChain(c, s, raised);
    SettledVerdict(c, Finish(c, s, raised).value, v);
    if s.closed {
      var i := ClosedByOneCall(c, script);
      ClosingEvent(c, AfterAll(c, script[..i]), script[i]);
    } else {
      ClosingEvent(c, s, if raised then DeclareAdapterError else DeclareInconclusive);
      if i: nat :| ClosedBy(c, script, i) {
        ClosingEvent(c, AfterAll(c, script[..i]), script[i]);
      }
    }
  }

  lemma ClosingEvent(c: Config, s: State, call: Call)
    requires !call.Observe? && Accepts(c, s, call)
    ensures var t := After(c, s, call);
      && t.closed && t.events != [] && t.events[..|t.events| - 1] == s.events
      && t.events[|t.events| - 1].activity == AsObservation(call).activity
  {
    hide ValidEvent;
  }

  /** A run is judged an adapter error exactly when the workflow raised or declared one. */
  lemma AdapterErrorExactly(c: Config, script: seq<Call>, raised: bool, v: Evaluation)
    requires var f := Finish(c, AfterAll(c, script), raised);
      f.Some? && f.value.events != [] && ValidEvaluation(v) && Means(OwnedRecording(c, f.value), v.reason)
    ensures v.outcome.AdapterError? <==>
            raised || exists i: nat :: ClosedBy(c, script, i) && script[i].DeclareAdapterError?
  {
    hide LinkAt, NoTerminalYet, Means, ValidEvaluation, OwnedRecording, ValidEvent, NextEvent, AfterAll, IsTerminal;
    TerminalActivitiesDiffer();
    var s := AfterAll(c, script);
    SessionIsChain(c, script);
    FinishKeepsChain(c, s, raised);
    SettledVerdict(c, Finish(c, s, raised).value, v);
    if s.closed {
      var i := ClosedByOneCall(c, script);
      ClosingEvent(c, AfterAll(c, script[..i]), script[i]);
    } else {
      ClosingEvent(c, s, if raised then DeclareAdapterError else DeclareInconclusive);
      if i: nat :| ClosedBy(c, script, i) {
        ClosingEvent(c, AfterAll(c, script[..i]), script[i]);
      }
    }
  }
}
