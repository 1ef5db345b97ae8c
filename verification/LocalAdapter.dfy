/**
 * The controlled local adapter: one serialized invocation from request to receipt, and the
 * replay reservation that spans invocations.
 *
 * The gateway's audit ledger is a log whose head digest is an injective constructor over
 * the previous head and the entry; tool-call identities are naturals. What other code
 * contributes (parsing, normalization, policy, the synthetic tools) is in `Peers`.
 *
 * Main results: `Adapter.Invoke` (every path leaves a coherent receipt, and what each
 * path does), `InvocationKeepsOnceOnly`, `ReservedOnce`, `DecodedExactly`.
 */
module LocalAdapter {
  import opened Wrappers
  import opened Digraph
  import opened LocalTransport
  import J = JsonText
  import JsonCanonical
  import JsonScanner

  const MAX_IDENTITIES: nat := 4096
  const MAX_TOOLS: nat := 8
  const DEFAULT_POLICY: nat := 1

  // ----------------------------------------------------------------- gateway

  datatype Disposition = Allow | Deny | RequireApproval

  datatype ToolCall = ToolCall(identity: nat, name: string, arguments: Bytes)

  datatype Entry = ToolEntry(identity: nat, disposition: Disposition) | ResponseEntry(body: Bytes)

  /** The head digest of an audit ledger. */
  datatype Head = ZeroHead | Link(previous: Head, entry: Entry)

  function HeadOf(log: seq<Entry>): Head {
    if log == [] then ZeroHead else Link(HeadOf(log[..|log| - 1]), log[|log| - 1])
  }

  lemma {:induction false} HeadBindsLog(a: seq<Entry>, b: seq<Entry>)
    requires HeadOf(a) == HeadOf(b)
    ensures a == b
  {
    if a != [] && b != [] {
      HeadBindsLog(a[..|a| - 1], b[..|b| - 1]);
      assert a == a[..|a| - 1] + [a[|a| - 1]] && b == b[..|b| - 1] + [b[|b| - 1]];
    }
  }

  datatype Decision = Decision(identity: nat, policy: nat, disposition: Disposition, permitted: bool)

  datatype Execution = Execution(decision: Decision, result: Option<Bytes>)

  /**
   * What the adapter calls: the JSON parser, the encoder's text for a float, the provider
   * normalizer, the response test, the policy and the tools.
   */
  datatype Peers = Peers(parse: Bytes -> Option<J.Value>, float: Bytes -> Bytes, normalize: Bytes -> Option<seq<ToolCall>>,
                         finished: J.Value -> bool, decide: ToolCall -> Disposition, perform: ToolCall -> Bytes)

  /**
   * The parser returns what the text means, and no repeated keys; rewriting a float settles;
   * a normalized payload has one to eight calls.
   */
  ghost predicate Sound(p: Peers) {
    && (forall b :: p.parse(b).Some? ==> J.IsText(b, p.parse(b).value) && JsonCanonical.UniqueKeys(p.parse(b).value))
    && JsonCanonical.RewritesFloats(p.float)
    && (forall b :: p.normalize(b).Some? ==> 1 <= |p.normalize(b).value| <= MAX_TOOLS)
  }

  function Entries(p: Peers, calls: seq<ToolCall>): seq<Entry> {
    seq(|calls|, i requires 0 <= i < |calls| => ToolEntry(calls[i].identity, p.decide(calls[i])))
  }

  function ExecutionOf(p: Peers, call: ToolCall): Execution {
    var d := p.decide(call);
    Execution(Decision(call.identity, DEFAULT_POLICY, d, d.Allow?), if d.Allow? then Some(p.perform(call)) else None)
  }

  function Executions(p: Peers, calls: seq<ToolCall>): seq<Execution> {
    seq(|calls|, i requires 0 <= i < |calls| => ExecutionOf(p, calls[i]))
  }

  class Gateway {
    var policy: nat
    var log: seq<Entry>

    constructor (policyDigest: nat)
      ensures policy == policyDigest && log == []
    {
      policy, log := policyDigest, [];
    }

    method CallTool(p: Peers, call: ToolCall) returns (e: Execution)
      requires policy == DEFAULT_POLICY
      modifies this`log
      ensures e == ExecutionOf(p, call)
      ensures log == old(log) + [ToolEntry(call.identity, p.decide(call))]
    {
      var disposition := p.decide(call);
      var decision := Decision(call.identity, policy, disposition, disposition.Allow?);
      log := log + [ToolEntry(call.identity, disposition)];
      if !decision.permitted { return Execution(decision, None); }
      return Execution(decision, Some(p.perform(call)));
    }

    method Record(body: Bytes)
      modifies this`log
      ensures log == old(log) + [ResponseEntry(body)]
    {
      log := log + [ResponseEntry(body)];
    }

    /** Normalizes the payload again, then audits and dispatches call by call. */
    method Execute(p: Peers, body: Bytes) returns (executions: Option<seq<Execution>>)
      requires policy == DEFAULT_POLICY
      modifies this`log
      ensures executions.None? <==> p.normalize(body).None?
      ensures executions.None? ==> log == old(log)
      ensures executions.Some? ==>
              var calls := p.normalize(body).value;
              executions.value == Executions(p, calls) && log == old(log) + Entries(p, calls)
    {
      var calls :- p.normalize(body);
      var done: seq<Execution> := [];
      for i := 0 to |calls|
        invariant |done| == i && forall k :: 0 <= k < i ==> done[k] == ExecutionOf(p, calls[k])
        invariant log == old(log) + Entries(p, calls)[..i]
      {
        var e := CallTool(p, calls[i]);
        done := done + [e];
        assert Entries(p, calls)[..i + 1] == Entries(p, calls)[..i] + [Entries(p, calls)[i]];
      }
      assert Entries(p, calls)[..|calls|] == Entries(p, calls);
      return Some(done);
    }
  }

  // ---------------------------------------------------------------- receipts

  datatype Digest = Zero | Of(bytes: Bytes)

  datatype ToolReceipt = ToolReceipt(sequence: nat, identity: nat, policy: nat, disposition: Disposition,
                                     permitted: bool, observed: bool, result: Digest)

  datatype Status = Completed | Error | Cancelled

  datatype Receipt = Receipt(policy: nat, responseObserved: bool, response: Digest, attempts: nat,
                             status: Status, reason: Reason, httpStatus: Option<HttpStatus>, tools: seq<ToolReceipt>,
                             recordsBefore: nat, recordsAfter: nat, headBefore: Head, headAfter: Head)

  predicate ToolCoherent(t: ToolReceipt) {
    && 1 <= t.sequence <= MAX_TOOLS
    && t.permitted == t.disposition.Allow? && t.observed == t.permitted
    && t.observed == (t.result != Zero)
  }

  predicate IsTransportError(r: Reason) {
    r in {LocalConnectError, LocalTimeout, LocalProtocolError, HeadersOversized}
  }

  predicate IsStatusError(r: Reason) {
    r in {RedirectForbidden, HttpStatusInvalid, ContentTypeInvalid, ContentLengthMissing, ContentLengthInvalid,
          ContentLengthDuplicate, TransferEncodingForbidden, ContentEncodingForbidden, BodyTruncated,
          BodyLengthMismatch, BodyOversized}
  }

  predicate IsBodyError(r: Reason) {
    r in {JsonInvalid, JsonNoncanonical, ToolPayloadInvalid, IdentityDuplicate, ReplayDenied, ReplayCapacityExhausted}
  }

  predicate StatusFits(r: Reason, status: Option<HttpStatus>) {
    status.Some? &&
    match r
    case RedirectForbidden => 300 <= status.value <= 399
    case HttpStatusInvalid => status.value != 200 && !(300 <= status.value <= 399)
    case _ => status.value == 200
  }

  /** The terminal states a receipt may describe. */
  predicate TerminalState(r: Receipt, delta: int) {
    if r.reason.CompletedWithoutToolCalls? then
      r.status.Completed? && r.attempts >= 1 && r.httpStatus == Some(200) && r.responseObserved && r.tools == [] && delta == 1
    else if r.reason.CompletedWithToolCalls? then
      r.status.Completed? && r.attempts >= 1 && r.httpStatus == Some(200) && r.responseObserved && r.tools != [] && delta == 1 + |r.tools|
    else if r.reason.CancelledBeforeRequest? then
      r.status.Cancelled? && r.attempts == 0 && r.httpStatus.None? && !r.responseObserved && r.tools == [] && delta == 0
    else if r.reason.CancelledDuringTransport? then
      r.status.Cancelled? && r.attempts >= 1 && r.httpStatus.None? && !r.responseObserved && r.tools == [] && delta == 0
    else if r.reason.CancelledAfterResponse? then
      r.status.Cancelled? && r.attempts >= 1 && r.httpStatus == Some(200) && r.responseObserved && r.tools == [] && delta == 0
    else if IsTransportError(r.reason) then
      r.status.Error? && r.attempts >= 1 && r.httpStatus.None? && !r.responseObserved && r.tools == [] && delta == 0
    else if IsStatusError(r.reason) then
      r.status.Error? && r.attempts >= 1 && StatusFits(r.reason, r.httpStatus) && !r.responseObserved && r.tools == [] && delta == 0
    else
      IsBodyError(r.reason) && r.status.Error? && r.attempts >= 1 && r.httpStatus == Some(200) && r.responseObserved && r.tools == [] && delta == 0
  }

  /** The receipt contract. */
  ghost predicate Coherent(r: Receipt) {
    && r.attempts <= 3 && |r.tools| <= MAX_TOOLS
    && r.responseObserved == (r.response != Zero)
    && r.recordsBefore <= r.recordsAfter
    && ((r.recordsAfter == r.recordsBefore) <==> (r.headAfter == r.headBefore))
    && (forall i :: 0 <= i < |r.tools| ==> r.tools[i].sequence == i + 1 && r.tools[i].policy == r.policy && ToolCoherent(r.tools[i]))
    && r.policy == DEFAULT_POLICY
    && TerminalState(r, r.recordsAfter - r.recordsBefore)
  }

  // ---------------------------------------------------------------- decoding

  datatype Decoded = Fails(reason: Reason) | Decodes(value: J.Value)

  /** A parsed value, and what normalizing makes of it. */
  lemma ParsedIsRenderable(p: Peers, body: Bytes)
    requires Sound(p) && p.parse(body).Some?
    ensures var v := p.parse(body).value; J.WellFormed(v) && J.WellFormed(JsonCanonical.Normalize(p.float, v))
  {
    J.TextIsWellFormed(body, p.parse(body).value);
    JsonCanonical.NormalizedIsNormal(p.float, p.parse(body).value);
  }

  /** Lexical scan, parse, value check, and comparison with the canonical text. */
  function Decode(p: Peers, body: Bytes): (d: Decoded)
    requires Sound(p)
    ensures d.Fails? ==> d.reason.JsonInvalid? || d.reason.JsonNoncanonical?
  {
    if !JsonScanner.Accepts(body, 12) then Fails(JsonInvalid)
    else match p.parse(body)
      case None => Fails(JsonInvalid)
      case Some(v) =>
        ParsedIsRenderable(p, body);
        if !v.Object? || JsonScanner.CheckValue(v, 0).Some? then Fails(JsonInvalid)
        else if JsonCanonical.CanonicalText(p.float, v) != body then Fails(JsonNoncanonical)
        else Decodes(v)
  }

  /** An object within the nesting and width limits. */
  ghost predicate Admissible(v: J.Value) {
    v.Object? && JsonScanner.Nesting(v) <= 12 && JsonScanner.Narrow(v)
  }

  /** In normal form and spelled plainly: keys in order, numbers as encoded, no white space, no needless escapes. */
  ghost predicate IsCanonical(p: Peers, v: J.Value, body: Bytes) {
    J.WellFormed(v) && JsonCanonical.Normal(p.float, v) && body == JsonCanonical.Render(v)
  }

  /**
   * A body decodes exactly when it is the canonical text of an object within the limits; it
   * is non-canonical exactly when it is another text of such an object; else it is invalid.
   */
  lemma DecodedExactly(p: Peers, body: Bytes)
    requires Sound(p)
    ensures forall v :: Decode(p, body) == Decodes(v) <==> p.parse(body) == Some(v) && Admissible(v) && IsCanonical(p, v, body)
    ensures Decode(p, body) == Fails(JsonNoncanonical) <==>
            p.parse(body).Some? && Admissible(p.parse(body).value) && !IsCanonical(p, p.parse(body).value, body)
    ensures Decode(p, body) == Fails(JsonInvalid) <==> (p.parse(body).Some? ==> !Admissible(p.parse(body).value))
  {
    hide JsonCanonical.Normal, JsonCanonical.Render, JsonCanonical.Normalize, JsonCanonical.CanonicalText;
    hide JsonScanner.Accepts, JsonScanner.CheckValue, JsonScanner.Narrow, JsonScanner.Nesting, J.IsText, J.WellFormed;
    if p.parse(body).Some? {
      var v := p.parse(body).value;
      ParsedIsRenderable(p, body);
      JsonScanner.AcceptsExactly(body, v, 12);
      JsonScanner.CheckExactly(v, 0);
      JsonScanner.LevelsAndNesting(v);
      JsonCanonical.CanonicalExactly(p.float, body, v);
    }
  }

  /** {"b":1,"a":2} */
  const UNSORTED: J.Value := J.Object([[0x62], [0x61]], [J.Literal([0x31]), J.Literal([0x32])])

  /** An object with its keys out of order is refused, however it is spelled. */
  lemma UnsortedIsNoncanonical(p: Peers, body: Bytes)
    requires Sound(p) && p.parse(body) == Some(UNSORTED)
    ensures Decode(p, body) == Fails(JsonNoncanonical)
  {
    DecodedExactly(p, body);
    UnsortedShape(p.float);
  }

  lemma UnsortedShape(float: Bytes -> Bytes)
    ensures Admissible(UNSORTED) && !JsonCanonical.Normal(float, UNSORTED)
  {
    var values := UNSORTED.values;
    assert values[1..][1..] == [];
    assert JsonScanner.NestingOf(values[1..]) == 0 && JsonScanner.NestingOf(values) == 0;
    assert !JsonCanonical.KeyBefore(UNSORTED.keys[0], UNSORTED.keys[1]);
  }

  method DecodeResponse(p: Peers, body: Bytes) returns (d: Decoded)
    requires Sound(p)
    ensures d == Decode(p, body)
    ensures d.Decodes? ==> p.parse(body) == Some(d.value) && Admissible(d.value) && IsCanonical(p, d.value, body)
    ensures d == Fails(JsonNoncanonical) <==>
            p.parse(body).Some? && Admissible(p.parse(body).value) && !IsCanonical(p, p.parse(body).value, body)
    ensures d == Fails(JsonInvalid) <==> (p.parse(body).Some? ==> !Admissible(p.parse(body).value))
  {
    hide JsonScanner.Accepts, JsonScanner.CheckValue, JsonCanonical.CanonicalText, Admissible, IsCanonical;
    DecodedExactly(p, body);
    var scanned := JsonScanner.Scan(body, 12);
    if !scanned { return Fails(JsonInvalid); }
    match p.parse(body) {
      case None => return Fails(JsonInvalid);
      case Some(v) =>
        ParsedIsRenderable(p, body);
        if !v.Object? { return Fails(JsonInvalid); }
        if JsonScanner.CheckValue(v, 0).Some? { return Fails(JsonInvalid); }
        if JsonCanonical.CanonicalText(p.float, v) != body { return Fails(JsonNoncanonical); }
        return Decodes(v);
    }
  }

  // ------------------------------------------------------------ reservations

  function Identities(calls: seq<ToolCall>): seq<nat> {
    seq(|calls|, i requires 0 <= i < |calls| => calls[i].identity)
  }

  /** Why a batch of identities is refused, if it is. */
  ghost function Refusal(seen: set<nat>, ids: seq<nat>): (r: Option<Reason>)
    ensures r.Some? ==> r.value.IdentityDuplicate? || r.value.ReplayDenied? || r.value.ReplayCapacityExhausted?
  {
    if !Distinct(ids) then Some(IdentityDuplicate)
    else if exists x :: x in ids && x in seen then Some(ReplayDenied)
    else if |seen| + |ids| > MAX_IDENTITIES then Some(ReplayCapacityExhausted)
    else None
  }

  ghost function Reserved(seen: set<nat>, ids: seq<nat>): set<nat> {
    if Refusal(seen, ids).None? then seen + Elements(ids) else seen
  }

  /** The batches granted over a series of requests, concatenated, and the identities then seen. */
  ghost function ReservedOver(batches: seq<seq<nat>>): (seq<nat>, set<nat>) {
    if batches == [] then ([], {})
    else
      var n := |batches| - 1;
      var (granted, seen) := ReservedOver(batches[..n]);
      if Refusal(seen, batches[n]).None? then (granted + batches[n], seen + Elements(batches[n])) else (granted, seen)
  }

  /** Over the adapter's life no identity is granted twice, batches are granted whole, and 4096 are never exceeded. */
  lemma {:induction false} ReservedOnce(batches: seq<seq<nat>>)
    ensures var (granted, seen) := ReservedOver(batches);
      Distinct(granted) && Elements(granted) == seen && |granted| == |seen| <= MAX_IDENTITIES
  {
    if batches != [] {
      var n := |batches| - 1;
      ReservedOnce(batches[..n]);
      var (granted, seen) := ReservedOver(batches[..n]);
      if Refusal(seen, batches[n]).None? {
        assert forall i :: 0 <= i < |granted| ==> granted[i] in Elements(granted);
        assert forall i :: 0 <= i < |batches[n]| ==> batches[n][i] in batches[n];
        var all := granted + batches[n];
        assert Distinct(all);
        DistinctExactly(all);
        assert Elements(all) == seen + Elements(batches[n]);
      }
    }
  }

  // -------------------------------------------------------------- invocation

  /** What one invocation meets: cancellation before, the attempts, and cancellation after. */
  datatype Weather = Weather(cancelBefore: bool, attempt: nat -> Attempt, cancelAfter: bool)

  /** Why an invocation ends as it does, given the transport result. */
  ghost function ReasonOf(p: Peers, w: Weather, t: HttpResult, seen: set<nat>): Reason
    requires Sound(p) && WellShaped(t)
  {
    if w.cancelBefore then CancelledBeforeRequest
    else if t.reason.Some? then t.reason.value
    else
      var body := t.body.value;
      match Decode(p, body)
      case Fails(reason) => reason
      case Decodes(response) =>
        match p.normalize(body)
        case None =>
          if !p.finished(response) then ToolPayloadInvalid
          else if w.cancelAfter then CancelledAfterResponse
          else CompletedWithoutToolCalls
        case Some(calls) =>
          var refusal := Refusal(seen, Identities(calls));
          if refusal.Some? then refusal.value
          else if w.cancelAfter then CancelledAfterResponse
          else CompletedWithToolCalls
  }

  /** The calls an invocation reserves identities for, and the calls it dispatches. */
  ghost function CallsReserved(p: Peers, w: Weather, t: HttpResult, seen: set<nat>): seq<ToolCall>
    requires Sound(p) && WellShaped(t)
  {
    if w.cancelBefore || t.body.None? || Decode(p, t.body.value).Fails? || p.normalize(t.body.value).None? then []
    else if Refusal(seen, Identities(p.normalize(t.body.value).value)).Some? then []
    else p.normalize(t.body.value).value
  }

  ghost function CallsDispatched(p: Peers, w: Weather, t: HttpResult, seen: set<nat>): seq<ToolCall>
    requires Sound(p) && WellShaped(t)
  {
    if w.cancelAfter then [] else CallsReserved(p, w, t, seen)
  }

  /** Nothing is audited unless the invocation completes; then the dispatched calls, and last the response. */
  ghost function LogAfter(p: Peers, w: Weather, t: HttpResult, seen: set<nat>, log: seq<Entry>): seq<Entry>
    requires Sound(p) && WellShaped(t)
  {
    var reason := ReasonOf(p, w, t, seen);
    if t.body.None? || !(reason.CompletedWithToolCalls? || reason.CompletedWithoutToolCalls?) then log
    else log + Entries(p, CallsDispatched(p, w, t, seen)) + [ResponseEntry(t.body.value)]
  }

  function ToolReceiptOf(sequence: nat, e: Execution): ToolReceipt {
    ToolReceipt(sequence, e.decision.identity, e.decision.policy, e.decision.disposition, e.decision.permitted,
                e.result.Some?, if e.result.Some? then Of(e.result.value) else Zero)
  }

  function ToolReceipts(executions: seq<Execution>): seq<ToolReceipt> {
    seq(|executions|, i requires 0 <= i < |executions| => ToolReceiptOf(i + 1, executions[i]))
  }

  function StatusOf(reason: Reason): Status {
    match reason
    case CompletedWithoutToolCalls | CompletedWithToolCalls => Completed
    case CancelledBeforeRequest | CancelledDuringTransport | CancelledAfterResponse => Status.Cancelled
    case _ => Error
  }

  /** The receipt of an invocation. */
  ghost function ReceiptFor(p: Peers, w: Weather, t: HttpResult, seen: set<nat>, log: seq<Entry>): Receipt
    requires Sound(p) && WellShaped(t)
  {
    var reason := ReasonOf(p, w, t, seen);
    var after := LogAfter(p, w, t, seen, log);
    var body := if w.cancelBefore then None else t.body;
    Receipt(DEFAULT_POLICY, body.Some?, if body.Some? then Of(body.value) else Zero,
            if w.cancelBefore then 0 else t.attempts, StatusOf(reason), reason, if w.cancelBefore then None else t.status,
            ToolReceipts(Executions(p, CallsDispatched(p, w, t, seen))), |log|, |after|, HeadOf(log), HeadOf(after))
  }

  /** A transport reason is a cancellation during transport or an error. */
  lemma TransportFailed(t: HttpResult)
    requires WellShaped(t) && t.reason.Some?
    ensures !t.reason.value.CompletedWithToolCalls? && !t.reason.value.CompletedWithoutToolCalls?
    ensures StatusOf(t.reason.value) == if t.reason.value.CancelledDuringTransport? then Status.Cancelled else Error
  {
  }

  /** Calls are dispatched exactly when the invocation completes with tool calls. */
  lemma DispatchMeansCompleted(p: Peers, w: Weather, t: HttpResult, seen: set<nat>)
    requires Sound(p) && WellShaped(t)
    ensures CallsDispatched(p, w, t, seen) != [] <==> ReasonOf(p, w, t, seen).CompletedWithToolCalls?
    ensures |CallsDispatched(p, w, t, seen)| <= MAX_TOOLS
  {
    hide Decode, Distinct;
  }

  /** The terminal state of each path, one audit record per gateway call. */
  lemma TerminalStateHolds(p: Peers, w: Weather, t: HttpResult, seen: set<nat>, log: seq<Entry>)
    requires Sound(p) && WellShaped(t) && 1 <= t.attempts
    ensures TerminalState(ReceiptFor(p, w, t, seen, log), |LogAfter(p, w, t, seen, log)| - |log|)
  {
    hide Decode, Distinct, HeadOf, CallsDispatched, ExecutionOf, ToolReceiptOf;
    DispatchMeansCompleted(p, w, t, seen);
  }

  /** Every path ends in a receipt that meets the receipt contract. */
  lemma EveryPathIsCoherent(p: Peers, w: Weather, t: HttpResult, seen: set<nat>, log: seq<Entry>)
    requires Sound(p) && WellShaped(t) && 1 <= t.attempts <= 3
    ensures Coherent(ReceiptFor(p, w, t, seen, log))
  {
    hide ReasonOf, CallsDispatched, HeadOf, TerminalState;
    DispatchMeansCompleted(p, w, t, seen);
    TerminalStateHolds(p, w, t, seen, log);
    var after := LogAfter(p, w, t, seen, log);
    if |after| == |log| { assert after == log; }
    if HeadOf(after) == HeadOf(log) { HeadBindsLog(after, log); }
  }

  // -------------------------------------------------------- at most one dispatch

  /** The identities of the tool calls in a log. */
  ghost function Dispatched(log: seq<Entry>): seq<nat> {
    if log == [] then []
    else
      var n := |log| - 1;
      Dispatched(log[..n]) + if log[n].ToolEntry? then [log[n].identity] else []
  }

  /** The calls dispatched since `start` are pairwise distinct, and all of them are seen. */
  ghost predicate OnceOnly(start: seq<Entry>, seen: set<nat>, log: seq<Entry>) {
    && |seen| <= MAX_IDENTITIES && start <= log
    && Distinct(Dispatched(log[|start|..])) && Elements(Dispatched(log[|start|..])) <= seen
  }

  ghost function SeenAfter(p: Peers, w: Weather, t: HttpResult, seen: set<nat>): set<nat>
    requires Sound(p) && WellShaped(t)
  {
    seen + Elements(Identities(CallsReserved(p, w, t, seen)))
  }

  lemma DispatchedAppend(log: seq<Entry>, e: Entry)
    ensures Dispatched(log + [e]) == Dispatched(log) + if e.ToolEntry? then [e.identity] else []
  {
    assert (log + [e])[..|log|] == log;
  }

  lemma {:induction false} DispatchedOfCalls(p: Peers, log: seq<Entry>, calls: seq<ToolCall>, n: nat)
    requires n <= |calls|
    ensures Dispatched(log + Entries(p, calls)[..n]) == Dispatched(log) + Identities(calls)[..n]
  {
    hide Dispatched;
    var e, ids := Entries(p, calls), Identities(calls);
    if n == 0 {
      assert log + e[..0] == log;
    } else {
      DispatchedOfCalls(p, log, calls, n - 1);
      DispatchedAppend(log + e[..n - 1], e[n - 1]);
      assert log + e[..n] == log + e[..n - 1] + [e[n - 1]];
      assert ids[..n] == ids[..n - 1] + [ids[n - 1]];
    }
  }

  lemma DispatchedOfCompletion(p: Peers, log: seq<Entry>, calls: seq<ToolCall>, body: Bytes)
    ensures Dispatched(log + Entries(p, calls) + [ResponseEntry(body)]) == Dispatched(log) + Identities(calls)
  {
    hide Dispatched;
    var n := |calls|;
    DispatchedOfCalls(p, log, calls, n);
    assert Entries(p, calls)[..n] == Entries(p, calls) && Identities(calls)[..n] == Identities(calls);
    DispatchedAppend(log + Entries(p, calls), ResponseEntry(body));
  }

  /** What is reserved was not seen before, holds no repetition, and fits. */
  lemma ReservedAreFresh(p: Peers, w: Weather, t: HttpResult, seen: set<nat>)
    requires Sound(p) && WellShaped(t) && |seen| <= MAX_IDENTITIES
    ensures var ids := Identities(CallsReserved(p, w, t, seen));
      Distinct(ids) && Elements(ids) !! seen && |SeenAfter(p, w, t, seen)| <= MAX_IDENTITIES
  {
    hide Decode;
    var ids := Identities(CallsReserved(p, w, t, seen));
    if ids == [] { assert Elements(ids) == {}; }
    DistinctExactly(ids);
  }

  /** An invocation dispatches no identity that this adapter dispatched before. */
  lemma InvocationKeepsOnceOnly(p: Peers, w: Weather, t: HttpResult, start: seq<Entry>, seen: set<nat>, log: seq<Entry>)
    requires Sound(p) && WellShaped(t) && OnceOnly(start, seen, log)
    ensures OnceOnly(start, SeenAfter(p, w, t, seen), LogAfter(p, w, t, seen, log))
  {
    hide ReasonOf, CallsReserved, Entries, Dispatched;
    ReservedAreFresh(p, w, t, seen);
    var after, calls := LogAfter(p, w, t, seen, log), CallsDispatched(p, w, t, seen);
    if after != log {
      var since, ids := log[|start|..], Identities(calls);
      assert after[|start|..] == since + Entries(p, calls) + [ResponseEntry(t.body.value)];
      DispatchedOfCompletion(p, since, calls, t.body.value);
      assert forall i :: 0 <= i < |Dispatched(since)| ==> Dispatched(since)[i] in Elements(Dispatched(since));
      assert forall i :: 0 <= i < |ids| ==> ids[i] in Elements(ids);
    }
  }

  /** Without a reservation nothing becomes seen. */
  lemma NothingReserved(p: Peers, w: Weather, t: HttpResult, seen: set<nat>)
    requires Sound(p) && WellShaped(t) && CallsReserved(p, w, t, seen) == []
    ensures SeenAfter(p, w, t, seen) == seen
  {
    hide CallsReserved;
    assert Elements(Identities([])) == {};
  }

  ghost function Unfinished(w: Weather, t: HttpResult, reason: Reason, log: seq<Entry>): Receipt {
    var body := if w.cancelBefore then None else t.body;
    Receipt(DEFAULT_POLICY, body.Some?, if body.Some? then Of(body.value) else Zero,
            if w.cancelBefore then 0 else t.attempts, StatusOf(reason), reason, if w.cancelBefore then None else t.status,
            [], |log|, |log|, HeadOf(log), HeadOf(log))
  }

  ghost function Finished(p: Peers, t: HttpResult, reason: Reason, calls: seq<ToolCall>, log: seq<Entry>): Receipt
    requires t.body.Some?
  {
    var after := log + Entries(p, calls) + [ResponseEntry(t.body.value)];
    Receipt(DEFAULT_POLICY, true, Of(t.body.value), t.attempts, Completed, reason, t.status,
            ToolReceipts(Executions(p, calls)), |log|, |after|, HeadOf(log), HeadOf(after))
  }

  /** An invocation that does not complete audits nothing and lists no tools. */
  lemma NotCompleted(p: Peers, w: Weather, t: HttpResult, seen: set<nat>, log: seq<Entry>)
    requires Sound(p) && WellShaped(t)
    requires !ReasonOf(p, w, t, seen).CompletedWithToolCalls? && !ReasonOf(p, w, t, seen).CompletedWithoutToolCalls?
    ensures LogAfter(p, w, t, seen, log) == log
    ensures ReceiptFor(p, w, t, seen, log) == Unfinished(w, t, ReasonOf(p, w, t, seen), log)
  {
    hide ReasonOf, CallsDispatched, HeadOf;
    DispatchMeansCompleted(p, w, t, seen);
  }

  /** A completed invocation audits its calls and then the response. */
  lemma IsCompleted(p: Peers, w: Weather, t: HttpResult, seen: set<nat>, log: seq<Entry>, calls: seq<ToolCall>)
    requires Sound(p) && WellShaped(t) && t.body.Some? && !w.cancelBefore
    requires var reason := ReasonOf(p, w, t, seen); reason.CompletedWithToolCalls? || reason.CompletedWithoutToolCalls?
    requires calls == CallsDispatched(p, w, t, seen)
    ensures LogAfter(p, w, t, seen, log) == log + Entries(p, calls) + [ResponseEntry(t.body.value)]
    ensures ReceiptFor(p, w, t, seen, log) == Finished(p, t, ReasonOf(p, w, t, seen), calls, log)
  {
    hide ReasonOf, CallsDispatched, HeadOf, Entries;
  }

  /** How an invocation ends, whichever path it takes. */
  lemma PathEnds(p: Peers, w: Weather, t: HttpResult, seen: set<nat>, log: seq<Entry>)
    requires Sound(p) && WellShaped(t)
    ensures CallsReserved(p, w, t, seen) == [] ==> SeenAfter(p, w, t, seen) == seen
    ensures var reason := ReasonOf(p, w, t, seen);
      !reason.CompletedWithToolCalls? && !reason.CompletedWithoutToolCalls? ==>
      LogAfter(p, w, t, seen, log) == log && ReceiptFor(p, w, t, seen, log) == Unfinished(w, t, reason, log)
    ensures var calls, reason := CallsDispatched(p, w, t, seen), ReasonOf(p, w, t, seen);
      t.body.Some? && !w.cancelBefore && (reason.CompletedWithToolCalls? || reason.CompletedWithoutToolCalls?) ==>
      && LogAfter(p, w, t, seen, log) == log + Entries(p, calls) + [ResponseEntry(t.body.value)]
      && ReceiptFor(p, w, t, seen, log) == Finished(p, t, reason, calls, log)
  {
    hide ReasonOf, CallsReserved, CallsDispatched, LogAfter, ReceiptFor, SeenAfter, Unfinished, Finished;
    if CallsReserved(p, w, t, seen) == [] { NothingReserved(p, w, t, seen); }
    var reason := ReasonOf(p, w, t, seen);
    if !reason.CompletedWithToolCalls? && !reason.CompletedWithoutToolCalls? {
      NotCompleted(p, w, t, seen, log);
    } else if t.body.Some? && !w.cancelBefore {
      IsCompleted(p, w, t, seen, log, CallsDispatched(p, w, t, seen));
    }
  }

  lemma NoCalls(p: Peers, log: seq<Entry>)
    ensures ToolReceipts(Executions(p, [])) == [] && log + Entries(p, []) == log
  {
  }

  // ------------------------------------------------- what each ending means

  /** Uncancelled so far, the response is the canonical text of this admissible object. */
  ghost predicate Answers(p: Peers, w: Weather, t: HttpResult, v: J.Value) {
    && !w.cancelBefore && t.body.Some?
    && p.parse(t.body.value) == Some(v) && Admissible(v) && IsCanonical(p, v, t.body.value)
  }

  /** The response names these calls. */
  ghost predicate Names(p: Peers, w: Weather, t: HttpResult, calls: seq<ToolCall>) {
    (exists v :: Answers(p, w, t, v)) && p.normalize(t.body.value) == Some(calls)
  }

  /** The response is complete without naming any call. */
  ghost predicate Completes(p: Peers, w: Weather, t: HttpResult) {
    exists v :: Answers(p, w, t, v) && p.finished(v) && p.normalize(t.body.value).None?
  }

  ghost predicate Repeats(calls: seq<ToolCall>) {
    exists i, j :: 0 <= i < j < |calls| && calls[i].identity == calls[j].identity
  }

  ghost predicate Replays(calls: seq<ToolCall>, seen: set<nat>) {
    exists i :: 0 <= i < |calls| && calls[i].identity in seen
  }

  /** The response names these calls, and their identities are new and fit. */
  ghost predicate Grants(p: Peers, w: Weather, t: HttpResult, seen: set<nat>, calls: seq<ToolCall>) {
    Names(p, w, t, calls) && !Repeats(calls) && !Replays(calls, seen) && |seen| + |calls| <= 4096
  }

  /** When an invocation ends for each reason. */
  ghost predicate Because(reason: Reason, p: Peers, w: Weather, t: HttpResult, seen: set<nat>) {
    match reason
    case CancelledBeforeRequest => w.cancelBefore
    case JsonInvalid => !w.cancelBefore && t.body.Some? && forall v :: p.parse(t.body.value) == Some(v) ==> !Admissible(v)
    case JsonNoncanonical =>
      !w.cancelBefore && t.body.Some? && exists v :: p.parse(t.body.value) == Some(v) && Admissible(v) && !IsCanonical(p, v, t.body.value)
    case ToolPayloadInvalid => exists v :: Answers(p, w, t, v) && !p.finished(v) && p.normalize(t.body.value).None?
    case IdentityDuplicate => exists calls :: Names(p, w, t, calls) && Repeats(calls)
    case ReplayDenied => exists calls :: Names(p, w, t, calls) && !Repeats(calls) && Replays(calls, seen)
    case ReplayCapacityExhausted =>
      exists calls :: Names(p, w, t, calls) && !Repeats(calls) && !Replays(calls, seen) && |seen| + |calls| > 4096
    case CancelledAfterResponse => w.cancelAfter && (Completes(p, w, t) || exists calls :: Grants(p, w, t, seen, calls))
    case CompletedWithoutToolCalls => !w.cancelAfter && Completes(p, w, t)
    case CompletedWithToolCalls => !w.cancelAfter && exists calls :: Grants(p, w, t, seen, calls)
    case _ => !w.cancelBefore && t.reason == Some(reason)
  }

  lemma RefusalMeans(seen: set<nat>, calls: seq<ToolCall>)
    ensures Refusal(seen, Identities(calls)) ==
            if Repeats(calls) then Some(IdentityDuplicate)
            else if Replays(calls, seen) then Some(ReplayDenied)
            else if |seen| + |calls| > 4096 then Some(ReplayCapacityExhausted)
            else None
  {
    var ids := Identities(calls);
    assert forall i :: 0 <= i < |calls| ==> ids[i] == calls[i].identity;
    assert Replays(calls, seen) <==> exists x :: x in ids && x in seen;
    assert Repeats(calls) <==> !Distinct(ids);
  }

  /** Without a response body, the reason is the cancellation or the transport's. */
  lemma BodilessExactly(p: Peers, w: Weather, t: HttpResult, seen: set<nat>, reason: Reason)
    requires Sound(p) && WellShaped(t) && (w.cancelBefore || t.body.None?)
    ensures ReasonOf(p, w, t, seen) == reason <==> Because(reason, p, w, t, seen)
  {
    hide Sound, Admissible, IsCanonical, Repeats, Replays;
  }

  lemma RefusedExactly(p: Peers, w: Weather, t: HttpResult, seen: set<nat>, reason: Reason)
    requires Sound(p) && WellShaped(t) && !w.cancelBefore && t.body.Some? && Decode(p, t.body.value).Fails?
    ensures ReasonOf(p, w, t, seen) == reason <==> Because(reason, p, w, t, seen)
  {
    hide Sound, Admissible, IsCanonical, Repeats, Replays, Decode;
    DecodedExactly(p, t.body.value);
  }

  lemma AnsweredExactly(p: Peers, w: Weather, t: HttpResult, seen: set<nat>, reason: Reason)
    requires Sound(p) && WellShaped(t) && !w.cancelBefore && t.body.Some? && Decode(p, t.body.value).Decodes?
    ensures ReasonOf(p, w, t, seen) == reason <==> Because(reason, p, w, t, seen)
  {
    hide Sound, Admissible, IsCanonical, Repeats, Replays, Decode, Refusal;
    var body, v := t.body.value, Decode(p, t.body.value).value;
    DecodedExactly(p, body);
    assert Decode(p, body) == Decodes(v);
    assert Answers(p, w, t, v);
    match p.normalize(body) {
      case None =>
      case Some(calls) =>
        RefusalMeans(seen, calls);
        assert Names(p, w, t, calls);
        assert Grants(p, w, t, seen, calls) <==> Refusal(seen, Identities(calls)).None?;
        assert forall other :: Names(p, w, t, other) ==> other == calls;
    }
  }

  /** Each reason arises exactly in its case. */
  lemma ReasonExactly(p: Peers, w: Weather, t: HttpResult, seen: set<nat>)
    requires Sound(p) && WellShaped(t)
    ensures forall reason :: ReasonOf(p, w, t, seen) == reason <==> Because(reason, p, w, t, seen)
  {
    hide ReasonOf, Because, Sound, Decode;
    forall reason ensures ReasonOf(p, w, t, seen) == reason <==> Because(reason, p, w, t, seen) {
      if w.cancelBefore || t.body.None? {
        BodilessExactly(p, w, t, seen, reason);
      } else if Decode(p, t.body.value).Fails? {
        RefusedExactly(p, w, t, seen, reason);
      } else {
        AnsweredExactly(p, w, t, seen, reason);
      }
    }
  }

  /** A log that grew by one entry per call, with the policy's decision, and then by the response. */
  ghost predicate Audited(p: Peers, before: seq<Entry>, after: seq<Entry>, calls: seq<ToolCall>, body: Bytes) {
    && before <= after && |after| == |before| + |calls| + 1 && after[|before| + |calls|] == ResponseEntry(body)
    && forall i :: 0 <= i < |calls| ==> after[|before| + i] == ToolEntry(calls[i].identity, p.decide(calls[i]))
  }

  /** One receipt per call, in order; a result exactly where the policy allows the call. */
  ghost predicate Receipted(p: Peers, tools: seq<ToolReceipt>, calls: seq<ToolCall>) {
    && |tools| == |calls|
    && forall i :: 0 <= i < |calls| ==>
         tools[i] == if p.decide(calls[i]).Allow? then ToolReceipt(i + 1, calls[i].identity, 1, Allow, true, true, Of(p.perform(calls[i])))
                     else ToolReceipt(i + 1, calls[i].identity, 1, p.decide(calls[i]), false, false, Zero)
  }

  /** What the log and the tool receipts hold after an invocation. */
  ghost predicate Recorded(p: Peers, w: Weather, t: HttpResult, seen: set<nat>, before: seq<Entry>, after: seq<Entry>, r: Receipt) {
    match r.reason
    case CompletedWithoutToolCalls => t.body.Some? && r.tools == [] && Audited(p, before, after, [], t.body.value)
    case CompletedWithToolCalls =>
      && t.body.Some?
      && forall calls :: Grants(p, w, t, seen, calls) ==> Receipted(p, r.tools, calls) && Audited(p, before, after, calls, t.body.value)
    case _ => r.tools == [] && after == before
  }

  /** The rest of a receipt: what was observed, and the ledger before and after. */
  ghost predicate Observed(w: Weather, t: HttpResult, before: seq<Entry>, after: seq<Entry>, r: Receipt) {
    && r.policy == 1 && r.recordsBefore == |before| && r.recordsAfter == |after|
    && r.headBefore == HeadOf(before) && r.headAfter == HeadOf(after)
    && (r.status.Completed? <==> r.reason in {CompletedWithoutToolCalls, CompletedWithToolCalls})
    && (r.status.Cancelled? <==> r.reason in {CancelledBeforeRequest, CancelledDuringTransport, CancelledAfterResponse})
    && (w.cancelBefore ==> r.attempts == 0 && r.httpStatus.None? && !r.responseObserved && r.response == Zero)
    && (!w.cancelBefore ==>
          && r.attempts == t.attempts && r.httpStatus == t.status && r.responseObserved == t.body.Some?
          && r.response == if t.body.Some? then Of(t.body.value) else Zero)
  }

  /** The identities of granted calls become seen, cancelled afterwards or not, and no others. */
  ghost predicate Remembered(p: Peers, w: Weather, t: HttpResult, before: set<nat>, after: set<nat>) {
    forall x :: x in after <==> x in before || exists calls: seq<ToolCall>, i :: Grants(p, w, t, before, calls) && 0 <= i < |calls| && calls[i].identity == x
  }

  lemma ReservedExactly(p: Peers, w: Weather, t: HttpResult, seen: set<nat>, calls: seq<ToolCall>)
    requires Sound(p) && WellShaped(t)
    ensures Grants(p, w, t, seen, calls) ==> CallsReserved(p, w, t, seen) == calls
    ensures CallsReserved(p, w, t, seen) == calls && calls != [] ==> Grants(p, w, t, seen, calls)
  {
    hide Admissible, IsCanonical, Repeats, Replays, Decode, Refusal;
    RefusalMeans(seen, calls);
    if !w.cancelBefore && t.body.Some? {
      DecodedExactly(p, t.body.value);
      if Decode(p, t.body.value).Decodes? {
        assert Answers(p, w, t, Decode(p, t.body.value).value);
      } else {
        assert forall v :: !Answers(p, w, t, v);
      }
    }
  }

  lemma RemembersExactly(p: Peers, w: Weather, t: HttpResult, seen: set<nat>)
    requires Sound(p) && WellShaped(t)
    ensures Remembered(p, w, t, seen, SeenAfter(p, w, t, seen))
  {
    hide Sound, Grants, CallsReserved;
    var calls := CallsReserved(p, w, t, seen);
    var ids := Identities(calls);
    ReservedExactly(p, w, t, seen, calls);
    forall other | Grants(p, w, t, seen, other) ensures other == calls {
      ReservedExactly(p, w, t, seen, other);
    }
    assert forall i :: 0 <= i < |calls| ==> ids[i] == calls[i].identity && ids[i] in Elements(ids);
  }

  lemma ReceiptedExactly(p: Peers, calls: seq<ToolCall>)
    ensures Receipted(p, ToolReceipts(Executions(p, calls)), calls)
  {
  }

  lemma AuditedExactly(p: Peers, log: seq<Entry>, calls: seq<ToolCall>, body: Bytes)
    ensures Audited(p, log, log + Entries(p, calls) + [ResponseEntry(body)], calls, body)
  {
  }

  lemma RecordsExactly(p: Peers, w: Weather, t: HttpResult, seen: set<nat>, log: seq<Entry>)
    requires Sound(p) && WellShaped(t)
    ensures Recorded(p, w, t, seen, log, LogAfter(p, w, t, seen, log), ReceiptFor(p, w, t, seen, log))
  {
    hide Grants, Audited, Receipted, CallsReserved, Entries, ToolReceipts, Executions, HeadOf, Decode;
    PathEnds(p, w, t, seen, log);
    var calls := CallsDispatched(p, w, t, seen);
    DispatchMeansCompleted(p, w, t, seen);
    ReceiptedExactly(p, calls);
    NoCalls(p, log);
    if t.body.Some? { AuditedExactly(p, log, calls, t.body.value); }
    forall other | Grants(p, w, t, seen, other) ensures other == CallsReserved(p, w, t, seen) {
      ReservedExactly(p, w, t, seen, other);
    }
  }

  lemma ObservesExactly(p: Peers, w: Weather, t: HttpResult, seen: set<nat>, log: seq<Entry>)
    requires Sound(p) && WellShaped(t)
    ensures Observed(w, t, log, LogAfter(p, w, t, seen, log), ReceiptFor(p, w, t, seen, log))
  {
    hide ReasonOf, CallsDispatched, LogAfter, ToolReceipts, Executions, HeadOf;
  }

  /** An invocation's reason, receipt, audit entries and reservations, each exactly. */
  lemma EndingExactly(p: Peers, w: Weather, t: HttpResult, seen: set<nat>, log: seq<Entry>)
    requires Sound(p) && WellShaped(t)
    ensures var r, after := ReceiptFor(p, w, t, seen, log), LogAfter(p, w, t, seen, log);
      && (forall reason :: r.reason == reason <==> Because(reason, p, w, t, seen))
      && Observed(w, t, log, after, r) && Recorded(p, w, t, seen, log, after, r)
      && Remembered(p, w, t, seen, SeenAfter(p, w, t, seen))
  {
    hide Sound, Because, Observed, Recorded, Remembered, ReasonOf, LogAfter, SeenAfter, CallsDispatched, HeadOf;
    ReasonExactly(p, w, t, seen);
    ObservesExactly(p, w, t, seen, log);
    RecordsExactly(p, w, t, seen, log);
    RemembersExactly(p, w, t, seen);
  }

  class Adapter {
    const maxRetries: nat
    const maxBytes: nat
    const gateway: Gateway
    ghost const start: seq<Entry>
    var seen: set<nat>

    /**
     * At most 4096 identities are seen; the calls dispatched since this adapter took over
     * the gateway are pairwise distinct and all among them.
     */
    ghost predicate Valid()
      reads this, gateway
    {
      maxRetries <= MAX_RETRIES && OnceOnly(start, seen, gateway.log)
    }

    constructor (retries: nat, bytes: nat, g: Gateway)
      requires retries <= MAX_RETRIES && g.policy == DEFAULT_POLICY
      ensures Valid() && seen == {} && gateway == g && maxRetries == retries && maxBytes == bytes && start == g.log
    {
      maxRetries, maxBytes, gateway, start, seen := retries, bytes, g, g.log, {};
    }

    method Reserve(ids: seq<nat>) returns (refusal: Option<Reason>)
      modifies this`seen
      ensures refusal.Some? ==> seen == old(seen)
      ensures refusal.None? ==> seen == old(seen) + Elements(ids) && old(seen) !! Elements(ids)
      ensures Distinct(ids) ==> refusal == Refusal(old(seen), ids) && seen == Reserved(old(seen), ids)
    {
      if exists x :: x in ids && x in seen { return Some(ReplayDenied); }
      if |seen| + |ids| > MAX_IDENTITIES { return Some(ReplayCapacityExhausted); }
      seen := seen + set x | x in ids;
      return None;
    }

    method Outcome(recordsBefore: nat, headBefore: Head, body: Option<Bytes>, attempts: nat,
                   status: Status, reason: Reason, httpStatus: Option<HttpStatus>, tools: seq<ToolReceipt>) returns (r: Receipt)
      ensures r == Receipt(gateway.policy, body.Some?, if body.Some? then Of(body.value) else Zero, attempts, status, reason,
                           httpStatus, tools, recordsBefore, |gateway.log|, headBefore, HeadOf(gateway.log))
    {
      r := Receipt(gateway.policy, body.Some?, if body.Some? then Of(body.value) else Zero, attempts, status, reason,
                   httpStatus, tools, recordsBefore, |gateway.log|, headBefore, HeadOf(gateway.log));
    }

    /** The part of an invocation after a response named tool calls: reserve, then dispatch unless cancelled. */
    method Dispatch(p: Peers, w: Weather, t: HttpResult, body: Bytes, calls: seq<ToolCall>) returns (r: Receipt)
      requires Sound(p) && gateway.policy == DEFAULT_POLICY && WellShaped(t) && !w.cancelBefore && t.body == Some(body)
      requires Decode(p, body).Decodes? && p.normalize(body) == Some(calls)
      modifies this`seen, gateway`log
      ensures r == ReceiptFor(p, w, t, old(seen), old(gateway.log))
      ensures gateway.log == LogAfter(p, w, t, old(seen), old(gateway.log))
      ensures seen == SeenAfter(p, w, t, old(seen))
    {
      hide Sound, Decode, HeadOf, Reserved, Matches, Identities;
      hide ExecutionOf, Executions, Entries, Distinct, ToolReceiptOf, ReceiptFor, LogAfter, ToolReceipts;
      PathEnds(p, w, t, seen, gateway.log);
      var before, head := |gateway.log|, HeadOf(gateway.log);
      var ids := Identities(calls);
      DistinctExactly(ids);
      var unique := set x | x in ids;
      assert unique == Elements(ids);
      if |unique| != |ids| {
        r := Outcome(before, head, Some(body), t.attempts, Error, IdentityDuplicate, t.status, []);
        return;
      }
      var refusal := Reserve(ids);
      if refusal.Some? {
        r := Outcome(before, head, Some(body), t.attempts, Error, refusal.value, t.status, []);
        return;
      }
      if w.cancelAfter {
        r := Outcome(before, head, Some(body), t.attempts, Status.Cancelled, CancelledAfterResponse, t.status, []);
        return;
      }
      var executions := gateway.Execute(p, body);
      if executions.None? {
        // The same bytes normalized before.
        assert false;
      }
      gateway.Record(body);
      r := Outcome(before, head, Some(body), t.attempts, Completed, CompletedWithToolCalls, t.status, ToolReceipts(executions.value));
    }

    /** The second half of an invocation: what is made of a response body. */
    method Conclude(p: Peers, w: Weather, t: HttpResult, body: Bytes) returns (r: Receipt)
      requires Sound(p) && gateway.policy == DEFAULT_POLICY && WellShaped(t) && !w.cancelBefore && t.body == Some(body)
      modifies this`seen, gateway`log
      ensures r == ReceiptFor(p, w, t, old(seen), old(gateway.log))
      ensures gateway.log == LogAfter(p, w, t, old(seen), old(gateway.log))
      ensures seen == SeenAfter(p, w, t, old(seen))
      ensures forall reason :: r.reason == reason <==> Because(reason, p, w, t, old(seen))
      ensures Observed(w, t, old(gateway.log), gateway.log, r)
      ensures Recorded(p, w, t, old(seen), old(gateway.log), gateway.log, r)
      ensures Remembered(p, w, t, old(seen), seen)
    {
      hide Sound, Decode, HeadOf, Reserved, Matches, Identities, Because, Observed, Recorded, Remembered;
      hide ExecutionOf, Executions, Entries, Distinct, ToolReceiptOf, ReceiptFor, LogAfter, ToolReceipts;
      EndingExactly(p, w, t, seen, gateway.log);
      PathEnds(p, w, t, seen, gateway.log);
      NoCalls(p, gateway.log);
      var before, head := |gateway.log|, HeadOf(gateway.log);
      var decoded := DecodeResponse(p, body);
      if decoded.Fails? {
        r := Outcome(before, head, Some(body), t.attempts, Error, decoded.reason, t.status, []);
        return;
      }
      var normalized := p.normalize(body);
      if normalized.None? {
        if !p.finished(decoded.value) {
          r := Outcome(before, head, Some(body), t.attempts, Error, ToolPayloadInvalid, t.status, []);
          return;
        }
        if w.cancelAfter {
          r := Outcome(before, head, Some(body), t.attempts, Status.Cancelled, CancelledAfterResponse, t.status, []);
          return;
        }
        gateway.Record(body);
        r := Outcome(before, head, Some(body), t.attempts, Completed, CompletedWithoutToolCalls, t.status, []);
        return;
      }
      r := Dispatch(p, w, t, body, normalized.value);
    }

    /** One serialized invocation; `None` when the gateway no longer runs the closed default policy. */
    method Invoke(p: Peers, w: Weather) returns (r: Option<Receipt>)
      requires Sound(p) && Valid()
      modifies this`seen, gateway`log
      ensures Valid()
      ensures r.None? <==> gateway.policy != DEFAULT_POLICY
      ensures r.None? ==> seen == old(seen) && gateway.log == old(gateway.log)
      ensures r.Some? ==>
              var t := Requested(maxRetries, maxBytes, w.attempt, 0);
              && WellShaped(t) && Coherent(r.value)
              && r.value == ReceiptFor(p, w, t, old(seen), old(gateway.log))
              && gateway.log == LogAfter(p, w, t, old(seen), old(gateway.log))
              && seen == SeenAfter(p, w, t, old(seen))
      ensures r.Some? ==>
              var t := Requested(maxRetries, maxBytes, w.attempt, 0);
              && Obtained(t, maxRetries, maxBytes, w.attempt)
              && (forall reason :: r.value.reason == reason <==> Because(reason, p, w, t, old(seen)))
              && Observed(w, t, old(gateway.log), gateway.log, r.value)
              && Recorded(p, w, t, old(seen), old(gateway.log), gateway.log, r.value)
              && Remembered(p, w, t, old(seen), seen)
    {
      hide Sound, Decode, Requested, OnceOnly, Coherent, HeadOf, Refusal, Matches, ReceiptFor, LogAfter, SeenAfter;
      hide Obtained, Because, Observed, Recorded, Remembered;
      ghost var result, seen0, log0 := Requested(maxRetries, maxBytes, w.attempt, 0), seen, gateway.log;
      RequestedIsWellShaped(maxRetries, maxBytes, w.attempt, 0);
      EveryPathIsCoherent(p, w, result, seen0, log0);
      InvocationKeepsOnceOnly(p, w, result, start, seen0, log0);
      PathEnds(p, w, result, seen0, log0);
      RequestedIsObtained(maxRetries, maxBytes, w.attempt);
      EndingExactly(p, w, result, seen0, log0);
      if gateway.policy != DEFAULT_POLICY { return None; }
      var before, head := |gateway.log|, HeadOf(gateway.log);
      if w.cancelBefore {
        var o := Outcome(before, head, None, 0, Status.Cancelled, CancelledBeforeRequest, None, []);
        return Some(o);
      }
      var t := RequestLocal(maxRetries, maxBytes, w.attempt);
      if t.reason.Some? {
        TransportFailed(t);
        var status := if t.reason.value.CancelledDuringTransport? then Status.Cancelled else Error;
        var o := Outcome(before, head, t.body, t.attempts, status, t.reason.value, t.status, []);
        return Some(o);
      }
      if t.body.None? {
        // A result without a reason has a body.
        assert false;
      }
      var o := Conclude(p, w, t, t.body.value);
      return Some(o);
    }
  }
}
