/**
 * Advisory ingress: one pure transition per source result, threaded through a
 * caller-owned replay state.
 *
 * SHA-256 of a payload is an arbitrary function `sha`; the receipt digest is an injective
 * constructor over what it commits to. `inspect` stands for the decoding and contract
 * checks of a payload of admissible size.
 *
 * Main results: `SessionSafety`, `ReceiptBindsSession`.
 */
module AdvisoryIngress {
  import opened Wrappers
  import opened Digraph
  import opened Ordering

  const MAX_CONSUMED: nat := 64
  const MAX_SEQUENCE: nat := 9007199254740991
  const MAX_FILTER_RECEIPT_BYTES: nat := 16777216
  const MAX_PLAYBOOKS_BYTES: nat := 1048576

  datatype SourceKind = CheapFilterReceipt | PlaybooksEvaluation

  datatype Profile = Profile(id: string, version: string, kind: SourceKind, riskLabel: string)

  /** What the ingress receipt digest commits to. */
  datatype Receipt = Transition(profile: Profile, input: ReplayState, session: nat, sequence: nat, source: nat,
                                nextConsumed: seq<nat>, nextSequence: nat)

  datatype ReplayState = ReplayState(session: nat, nextSequence: nat, previous: Option<Receipt>, consumed: seq<nat>)

  datatype Call = Call(profile: Profile, selectedId: string, selectedVersion: string, session: nat, sequence: int, payload: seq<Byte>)

  datatype Reason =
    | ProfileIdentityMismatch | SessionIdentityMismatch | SequenceMismatch | ReplayHistoryFull
    | SourceResultReplay | InputEmpty | InputOversized | InputInvalid(code: string) | SemanticLabelMismatch

  datatype Outcome =
    | Rejected(reason: Reason, inputDigest: Option<nat>)
    | Admitted(source: nat, next: ReplayState, receipt: Receipt)

  /** The state contract. */
  predicate ValidState(s: ReplayState) {
    && s.nextSequence <= MAX_SEQUENCE && |s.consumed| <= MAX_CONSUMED
    && (forall i, j :: 0 <= i < j < |s.consumed| ==> s.consumed[i] < s.consumed[j])
    && (if s.nextSequence == 0 then s.previous.None? && s.consumed == [] else s.previous.Some?)
  }

  function Maximum(kind: SourceKind): nat {
    match kind case CheapFilterReceipt => MAX_FILTER_RECEIPT_BYTES case PlaybooksEvaluation => MAX_PLAYBOOKS_BYTES
  }

  /** The digest looked up before validation; none for a payload that validation refuses by size. */
  function BoundedDigest(profile: Profile, payload: seq<Byte>, sha: seq<Byte> -> nat): Option<nat> {
    if payload == [] || |payload| > Maximum(profile.kind) then None else Some(sha(payload))
  }

  /** Size checks, then the inspection; the label of an accepted payload. */
  function ValidateSource(profile: Profile, payload: seq<Byte>, sha: seq<Byte> -> nat,
                          inspect: (SourceKind, seq<Byte>) -> Result<string, string>): Result<(nat, string), (Reason, Option<nat>)> {
    if payload == [] then Err((InputEmpty, None))
    else if |payload| > Maximum(profile.kind) then Err((InputOversized, None))
    else match inspect(profile.kind, payload)
      case Err(code) => Err((InputInvalid(code), Some(sha(payload))))
      case Ok(semantic) => Ok((sha(payload), semantic))
  }

  /** sorted((*consumed, d)) */
  function InsertSorted(s: seq<nat>, d: nat): seq<nat> {
    if s == [] then [d] else if d <= s[0] then [d] + s else [s[0]] + InsertSorted(s[1..], d)
  }

  function NextState(c: Call, s: ReplayState, source: nat): (ReplayState, Receipt)
    requires c.sequence >= 0
  {
    var consumed := InsertSorted(s.consumed, source);
    var receipt := Transition(c.profile, s, c.session, c.sequence, source, consumed, c.sequence + 1);
    (ReplayState(c.session, c.sequence + 1, Some(receipt), consumed), receipt)
  }

  /** One ingestion; `None` is caller misuse (an invalid state or a sequence out of range). */
  function Ingest(c: Call, s: ReplayState, sha: seq<Byte> -> nat,
                  inspect: (SourceKind, seq<Byte>) -> Result<string, string>): Option<Outcome> {
    if !ValidState(s) || !(0 <= c.sequence <= MAX_SEQUENCE - 1) then None
    else if c.selectedId != c.profile.id || c.selectedVersion != c.profile.version then Some(Rejected(ProfileIdentityMismatch, None))
    else if c.session != s.session then Some(Rejected(SessionIdentityMismatch, None))
    else if c.sequence != s.nextSequence then Some(Rejected(SequenceMismatch, None))
    else if |s.consumed| >= MAX_CONSUMED then Some(Rejected(ReplayHistoryFull, None))
    else
      var preliminary := BoundedDigest(c.profile, c.payload, sha);
      if preliminary.Some? && preliminary.value in s.consumed then Some(Rejected(SourceResultReplay, preliminary))
      else match ValidateSource(c.profile, c.payload, sha, inspect)
        case Err((reason, source)) => Some(Rejected(reason, source))
        case Ok((source, semantic)) =>
          if semantic != c.profile.riskLabel then Some(Rejected(SemanticLabelMismatch, Some(source)))
          else
            var (next, receipt) := NextState(c, s, source);
            Some(Admitted(source, next, receipt))
  }

  /** The addressing of a call fits the profile and the state, and the state has room. */
  ghost predicate Addressed(c: Call, s: ReplayState) {
    && c.selectedId == c.profile.id && c.selectedVersion == c.profile.version
    && c.session == s.session && c.sequence == s.nextSequence && |s.consumed| < 64
  }

  /** The payload is as long as its kind allows. */
  ghost predicate Sized(c: Call) {
    1 <= |c.payload| <= if c.profile.kind.CheapFilterReceipt? then 16777216 else 1048576
  }

  /** Addressed and sized, with a digest not consumed before. */
  ghost predicate Fresh(c: Call, s: ReplayState, sha: seq<Byte> -> nat) {
    Addressed(c, s) && Sized(c) && sha(c.payload) !in s.consumed
  }

  /** When a call is refused for each reason. */
  ghost predicate RefusedFor(reason: Reason, c: Call, s: ReplayState, sha: seq<Byte> -> nat,
                             inspect: (SourceKind, seq<Byte>) -> Result<string, string>) {
    var mine := c.selectedId == c.profile.id && c.selectedVersion == c.profile.version;
    match reason
    case ProfileIdentityMismatch => c.selectedId != c.profile.id || c.selectedVersion != c.profile.version
    case SessionIdentityMismatch => mine && c.session != s.session
    case SequenceMismatch => mine && c.session == s.session && c.sequence != s.nextSequence
    case ReplayHistoryFull => mine && c.session == s.session && c.sequence == s.nextSequence && |s.consumed| >= 64
    case SourceResultReplay => Addressed(c, s) && Sized(c) && sha(c.payload) in s.consumed
    case InputEmpty => Addressed(c, s) && c.payload == []
    case InputOversized => Addressed(c, s) && c.payload != [] && !Sized(c)
    case InputInvalid(code) => Fresh(c, s, sha) && inspect(c.profile.kind, c.payload) == Err(code)
    case SemanticLabelMismatch => Fresh(c, s, sha) && exists found :: inspect(c.profile.kind, c.payload) == Ok(found) && found != c.profile.riskLabel
  }

  /** An admission's transition: the digest joins the consumed ones, the sequence advances, the receipt commits to both sides. */
  ghost predicate Advances(c: Call, s: ReplayState, source: nat, next: ReplayState, receipt: Receipt) {
    && next.session == s.session && next.nextSequence == s.nextSequence + 1 && next.previous == Some(receipt)
    && (forall x :: x in next.consumed <==> x in s.consumed || x == source)
    && (forall i, j :: 0 <= i < j < |next.consumed| ==> next.consumed[i] < next.consumed[j])
    && receipt.profile == c.profile && receipt.input == s && receipt.session == s.session
    && receipt.sequence == s.nextSequence && receipt.source == source
    && receipt.nextConsumed == next.consumed && receipt.nextSequence == next.nextSequence
  }

  /**
   * Every outcome exactly: misuse, each refusal with the digest it reports, and the
   * admission with the state it leads to.
   */
  lemma IngestExactly(c: Call, s: ReplayState, sha: seq<Byte> -> nat, inspect: (SourceKind, seq<Byte>) -> Result<string, string>)
    ensures var o := Ingest(c, s, sha, inspect);
      && (o.Some? <==>
            && s.nextSequence <= 9007199254740991 && |s.consumed| <= 64
            && (forall i, j :: 0 <= i < j < |s.consumed| ==> s.consumed[i] < s.consumed[j])
            && (s.nextSequence == 0 <==> s.previous.None?) && (s.nextSequence == 0 ==> s.consumed == [])
            && 0 <= c.sequence <= 9007199254740990)
      && (o.Some? ==> forall reason ::
            (o.value.Rejected? && o.value.reason == reason) <==> RefusedFor(reason, c, s, sha, inspect))
      && (o.Some? && o.value.Rejected? ==>
            o.value.inputDigest ==
            if o.value.reason.SourceResultReplay? || o.value.reason.InputInvalid? || o.value.reason.SemanticLabelMismatch?
            then Some(sha(c.payload)) else None)
      && (o.Some? ==> (o.value.Admitted? <==> Fresh(c, s, sha) && inspect(c.profile.kind, c.payload) == Ok(c.profile.riskLabel)))
      && (o.Some? && o.value.Admitted? ==> o.value.source == sha(c.payload) && Advances(c, s, o.value.source, o.value.next, o.value.receipt))
  {
    var o := Ingest(c, s, sha, inspect);
    if o.Some? && o.value.Admitted? {
      InsertSortedKeeps(s.consumed, o.value.source);
    }
  }

  // -------------------------------------------------------------- sessions

  /** The state and the admitted digests, in order, after a series of calls; only an admission replaces the state. */
  function Thread(s: ReplayState, calls: seq<Call>, sha: seq<Byte> -> nat,
                  inspect: (SourceKind, seq<Byte>) -> Result<string, string>): (ReplayState, seq<nat>) {
    if calls == [] then (s, [])
    else
      var n := |calls| - 1;
      var (before, admitted) := Thread(s, calls[..n], sha, inspect);
      match Ingest(calls[n], before, sha, inspect)
      case Some(Admitted(source, next, _)) => (next, admitted + [source])
      case _ => (before, admitted)
  }

  function InitialState(session: nat): ReplayState {
    ReplayState(session, 0, None, [])
  }

  lemma {:induction false} InsertSortedMembers(s: seq<nat>, d: nat)
    ensures |InsertSorted(s, d)| == |s| + 1
    ensures forall x :: x in InsertSorted(s, d) <==> x in s || x == d
  {
    if s != [] {
      var first, rest := s[0], s[1..];
      assert s == [first] + rest;
      InsertSortedMembers(rest, d);
      assert forall x :: x in [first] + InsertSorted(rest, d) <==> x == first || x in InsertSorted(rest, d);
    }
  }

  lemma {:induction false} InsertSortedKeeps(s: seq<nat>, d: nat)
    requires Ascending(s) && d !in s
    ensures Ascending(InsertSorted(s, d)) && |InsertSorted(s, d)| == |s| + 1
    ensures forall x :: x in InsertSorted(s, d) <==> x in s || x == d
  {
    InsertSortedMembers(s, d);
    if s != [] && d > s[0] {
      InsertSortedKeeps(s[1..], d);
      InsertSortedMembers(s[1..], d);
      var t := InsertSorted(s[1..], d);
      forall j | 0 <= j < |t| ensures s[0] < t[j] { assert t[j] in t; }
    }
  }

  /** What a session threaded from the initial state satisfies. */
  ghost predicate SessionState(session: nat, s: ReplayState, admitted: seq<nat>) {
    && ValidState(s) && s.session == session
    && Distinct(admitted) && |admitted| == s.nextSequence == |s.consumed|
    && forall x :: x in s.consumed <==> x in admitted
  }

  /** An admission adds exactly one digest, and one that was not consumed before. */
  lemma AdmissionStep(session: nat, s: ReplayState, admitted: seq<nat>, c: Call, sha: seq<Byte> -> nat,
                      inspect: (SourceKind, seq<Byte>) -> Result<string, string>)
    requires SessionState(session, s, admitted)
    requires Ingest(c, s, sha, inspect).Some? && Ingest(c, s, sha, inspect).value.Admitted?
    ensures var o := Ingest(c, s, sha, inspect).value;
      && SessionState(session, o.next, admitted + [o.source])
      && o.source == sha(c.payload) && o.source !in admitted && o.next.previous == Some(o.receipt)
  {
    var o := Ingest(c, s, sha, inspect).value;
    assert o.source !in s.consumed;
    InsertSortedKeeps(s.consumed, o.source);
    assert forall x :: x in admitted + [o.source] <==> x in admitted || x == o.source;
  }

  /**
   * Replay safety over whole sessions: whatever calls are made, no digest is admitted
   * twice, the consumed tuple is the sorted listing of the admitted digests, its size is
   * the next sequence number, the state always revalidates, and at most 64 results get in.
   */
  lemma {:induction false} SessionSafety(session: nat, calls: seq<Call>, sha: seq<Byte> -> nat,
                                         inspect: (SourceKind, seq<Byte>) -> Result<string, string>)
    ensures var (s, admitted) := Thread(InitialState(session), calls, sha, inspect);
      && ValidState(s) && s.session == session
      && Distinct(admitted) && |admitted| == s.nextSequence <= MAX_CONSUMED
      && s.consumed == Sorted(Elements(admitted))
  {
    SessionKeepsState(session, calls, sha, inspect);
    var (s, admitted) := Thread(InitialState(session), calls, sha, inspect);
    AscendingUnique(s.consumed, Sorted(Elements(admitted)));
  }

  lemma {:induction false} SessionKeepsState(session: nat, calls: seq<Call>, sha: seq<Byte> -> nat,
                                             inspect: (SourceKind, seq<Byte>) -> Result<string, string>)
    ensures var (s, admitted) := Thread(InitialState(session), calls, sha, inspect); SessionState(session, s, admitted)
  {
    if calls != [] {
      var n := |calls| - 1;
      SessionKeepsState(session, calls[..n], sha, inspect);
      var (before, admitted) := Thread(InitialState(session), calls[..n], sha, inspect);
      var o := Ingest(calls[n], before, sha, inspect);
      if o.Some? && o.value.Admitted? {
        AdmissionStep(session, before, admitted, calls[n], sha, inspect);
      }
    }
  }

  /** In any session a fresh, well-addressed, valid payload gets in exactly while fewer than 64 have. */
  lemma FreshIsAdmittedExactly(session: nat, calls: seq<Call>, c: Call, sha: seq<Byte> -> nat,
                               inspect: (SourceKind, seq<Byte>) -> Result<string, string>)
    requires var (s, _) := Thread(InitialState(session), calls, sha, inspect);
      c.selectedId == c.profile.id && c.selectedVersion == c.profile.version && c.session == session && c.sequence == s.nextSequence
    requires 1 <= |c.payload| <= Maximum(c.profile.kind) && inspect(c.profile.kind, c.payload) == Ok(c.profile.riskLabel)
    ensures var (s, admitted) := Thread(InitialState(session), calls, sha, inspect);
      var o := Ingest(c, s, sha, inspect);
      && o.Some?
      && (o.value.Admitted? <==> sha(c.payload) !in admitted && |admitted| < MAX_CONSUMED)
      && (o.value == Rejected(SourceResultReplay, Some(sha(c.payload))) <==> sha(c.payload) in admitted && |admitted| < MAX_CONSUMED)
  {
    SessionKeepsState(session, calls, sha, inspect);
  }

  // --------------------------------------------------------- receipt chain

  /** The admitted digests recorded in a receipt chain. */
  function ChainOf(s: ReplayState): seq<nat>
    decreases s
  {
    match s.previous
    case None => []
    case Some(r) => ChainOf(r.input) + [r.source]
  }

  lemma {:induction false} ChainRecordsSession(session: nat, calls: seq<Call>, sha: seq<Byte> -> nat,
                                               inspect: (SourceKind, seq<Byte>) -> Result<string, string>)
    ensures var (s, admitted) := Thread(InitialState(session), calls, sha, inspect); ChainOf(s) == admitted
  {
    if calls != [] {
      ChainRecordsSession(session, calls[..|calls| - 1], sha, inspect);
    }
  }

  /** Two sessions that end with the same receipt admitted the same results in the same order. */
  lemma ReceiptBindsSession(a: nat, callsA: seq<Call>, b: nat, callsB: seq<Call>, sha: seq<Byte> -> nat,
                            inspect: (SourceKind, seq<Byte>) -> Result<string, string>)
    requires var (s, _) := Thread(InitialState(a), callsA, sha, inspect);
      var (t, _) := Thread(InitialState(b), callsB, sha, inspect);
      s.previous == t.previous
    ensures Thread(InitialState(a), callsA, sha, inspect).1 == Thread(InitialState(b), callsB, sha, inspect).1
  {
    ChainRecordsSession(a, callsA, sha, inspect);
    ChainRecordsSession(b, callsB, sha, inspect);
  }
}
