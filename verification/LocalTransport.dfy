/**
 * The local adapter's transport: one bounded request, retried a bounded number of times.
 *
 * Sockets and deadlines appear as what each attempt ran into; a reply as its parsed
 * header fields and the body bytes received.
 *
 * Main results: `RequestLocal` and `DecidingAttempt` (which attempt decides),
 * `RequestedIsWellShaped` (the shape of every result).
 */
module LocalTransport {
  import opened Wrappers

  type Bytes = seq<Byte>
  type HttpStatus = x: nat | 100 <= x <= 599 witness 200

  const MAX_RETRIES: nat := 2

  datatype Reason =
    | CompletedWithoutToolCalls | CompletedWithToolCalls
    | CancelledBeforeRequest | CancelledDuringTransport | CancelledAfterResponse
    | LocalConnectError | LocalTimeout | LocalProtocolError
    | RedirectForbidden | HttpStatusInvalid | ContentTypeInvalid
    | ContentLengthMissing | ContentLengthInvalid | ContentLengthDuplicate
    | HeadersOversized | TransferEncodingForbidden | ContentEncodingForbidden
    | BodyTruncated | BodyLengthMismatch | BodyOversized
    | JsonInvalid | JsonNoncanonical | ToolPayloadInvalid
    | IdentityDuplicate | ReplayDenied | ReplayCapacityExhausted

  datatype Reply =
    | OversizedHeaders
    | Reply(status: HttpStatus, contentTypes: seq<string>, transferEncoding: bool, contentEncoding: bool,
            lengths: seq<string>, received: Bytes)

  datatype Attempt = Answered(reply: Reply) | Cancelled | PastDeadline | ConnectionFailed | ProtocolFailed

  datatype HttpResult = HttpResult(body: Option<Bytes>, attempts: nat, reason: Option<Reason>, status: Option<HttpStatus>)

  predicate IsDecimal(s: string) {
    s != "" && (forall c :: c in s ==> '0' <= c <= '9') && (|s| > 1 ==> s[0] != '0')
  }

  function ParseDecimal(s: string): nat
    requires forall c :: c in s ==> '0' <= c <= '9'
  {
    if s == "" then 0
    else
      var n := |s| - 1;
      assert forall c :: c in s[..n] ==> c in s;
      assert s[n] in s;
      10 * ParseDecimal(s[..n]) + (s[n] as int - '0' as int)
  }

  /** The answer to a reply: the body, or the first check it fails. */
  function Respond(reply: Reply, attempts: nat, maxBytes: nat): HttpResult {
    match reply
    case OversizedHeaders => HttpResult(None, attempts, Some(HeadersOversized), None)
    case Reply(status, contentTypes, transferEncoding, contentEncoding, lengths, received) =>
      if 300 <= status <= 399 then HttpResult(None, attempts, Some(RedirectForbidden), Some(status))
      else if status != 200 then HttpResult(None, attempts, Some(HttpStatusInvalid), Some(status))
      else if contentTypes != ["application/json"] then HttpResult(None, attempts, Some(ContentTypeInvalid), Some(status))
      else if transferEncoding then HttpResult(None, attempts, Some(TransferEncodingForbidden), Some(status))
      else if contentEncoding then HttpResult(None, attempts, Some(ContentEncodingForbidden), Some(status))
      else if lengths == [] then HttpResult(None, attempts, Some(ContentLengthMissing), Some(status))
      else if |lengths| != 1 then HttpResult(None, attempts, Some(ContentLengthDuplicate), Some(status))
      else if !IsDecimal(lengths[0]) then HttpResult(None, attempts, Some(ContentLengthInvalid), Some(status))
      else
        var length := ParseDecimal(lengths[0]);
        if length < 1 then HttpResult(None, attempts, Some(ContentLengthInvalid), Some(status))
        else if length > maxBytes then HttpResult(None, attempts, Some(BodyOversized), Some(status))
        else if |received| < length then HttpResult(None, attempts, Some(BodyTruncated), Some(status))
        else if |received| > length then HttpResult(None, attempts, Some(BodyLengthMismatch), Some(status))
        else HttpResult(Some(received), attempts, None, Some(status))
  }

  predicate Retried(a: Attempt) {
    a.ConnectionFailed? || a.ProtocolFailed?
  }

  /** What the deciding attempt makes of the request. */
  function Decided(a: Attempt, attempts: nat, maxBytes: nat): HttpResult {
    match a
    case Answered(reply) => Respond(reply, attempts, maxBytes)
    case Cancelled => HttpResult(None, attempts, Some(CancelledDuringTransport), None)
    case PastDeadline => HttpResult(None, attempts, Some(LocalTimeout), None)
    case ConnectionFailed => HttpResult(None, attempts, Some(LocalConnectError), None)
    case ProtocolFailed => HttpResult(None, attempts, Some(LocalProtocolError), None)
  }

  /** How reason and status go together in a result. */
  predicate Matches(reason: Option<Reason>, status: Option<HttpStatus>) {
    match reason
    case None => status == Some(200)
    case Some(r) =>
      match r
      case CancelledDuringTransport | LocalConnectError | LocalTimeout | LocalProtocolError | HeadersOversized => status.None?
      case RedirectForbidden => status.Some? && 300 <= status.value <= 399
      case HttpStatusInvalid => status.Some? && status.value != 200 && !(300 <= status.value <= 399)
      case ContentTypeInvalid | ContentLengthMissing | ContentLengthInvalid | ContentLengthDuplicate
        | TransferEncodingForbidden | ContentEncodingForbidden | BodyTruncated | BodyLengthMismatch | BodyOversized => status == Some(200)
      case _ => false
  }

  /** A body exactly when there is no reason, the two agreeing with the status. */
  predicate WellShaped(r: HttpResult) {
    (r.body.Some? <==> r.reason.None?) && Matches(r.reason, r.status)
  }

  /** The result when attempt k is about to be made: the first attempt that is not retried decides, or the last one allowed. */
  function Requested(maxRetries: nat, maxBytes: nat, attempt: nat -> Attempt, k: nat): HttpResult
    requires k <= maxRetries
    decreases maxRetries - k
  {
    if k < maxRetries && Retried(attempt(k)) then Requested(maxRetries, maxBytes, attempt, k + 1)
    else Decided(attempt(k), k + 1, maxBytes)
  }

  lemma {:induction false} RequestedIsWellShaped(maxRetries: nat, maxBytes: nat, attempt: nat -> Attempt, k: nat)
    requires k <= maxRetries
    ensures var r := Requested(maxRetries, maxBytes, attempt, k); WellShaped(r) && k + 1 <= r.attempts <= maxRetries + 1
    decreases maxRetries - k
  {
    if k < maxRetries && Retried(attempt(k)) { RequestedIsWellShaped(maxRetries, maxBytes, attempt, k + 1); }
  }

  /** The deciding attempt is not retried unless it is the last, and every attempt before it is. */
  lemma {:induction false} DecidingAttempt(maxRetries: nat, maxBytes: nat, attempt: nat -> Attempt, k: nat)
    requires k <= maxRetries
    ensures var n := Requested(maxRetries, maxBytes, attempt, k).attempts;
      && k + 1 <= n <= maxRetries + 1
      && (n <= maxRetries ==> !Retried(attempt(n - 1)))
      && (forall j: nat :: k <= j < n - 1 ==> Retried(attempt(j)))
      && Requested(maxRetries, maxBytes, attempt, k) == Decided(attempt(n - 1), n, maxBytes)
    decreases maxRetries - k
  {
    if k < maxRetries && Retried(attempt(k)) { DecidingAttempt(maxRetries, maxBytes, attempt, k + 1); }
  }

  // ------------------------------------------------- what each answer means

  /** The decimal text of a number. */
  function DecimalText(n: nat): string {
    (if n < 10 then "" else DecimalText(n / 10)) + [('0' as int + n % 10) as char]
  }

  lemma {:induction false} DecimalTextParses(n: nat)
    ensures IsDecimal(DecimalText(n)) && ParseDecimal(DecimalText(n)) == n
    ensures n >= 10 ==> |DecimalText(n)| > 1
    ensures n >= 1 ==> DecimalText(n)[0] != '0'
  {
    var s, k := DecimalText(n), |DecimalText(n)| - 1;
    if n >= 10 {
      DecimalTextParses(n / 10);
      assert s[..k] == DecimalText(n / 10);
    } else {
      assert s[..0] == "";
    }
    forall c | c in s ensures '0' <= c <= '9' {
      var i :| 0 <= i < |s| && s[i] == c;
      if i < k { assert s[..k][i] in s[..k]; }
    }
  }

  /** One more digit. */
  lemma DecimalTextGrows(m: nat, c: char)
    requires '0' <= c <= '9'
    ensures var n := 10 * m + (c as int - '0' as int); DecimalText(n) == (if m == 0 then "" else DecimalText(m)) + [c]
  {
    var d := c as int - '0' as int;
    assert (10 * m + d) / 10 == m && (10 * m + d) % 10 == d;
    assert ('0' as int + d) as char == c;
  }

  lemma {:induction false} DecimalIsText(s: string)
    requires IsDecimal(s)
    ensures s == DecimalText(ParseDecimal(s)) && (s[0] != '0' ==> ParseDecimal(s) >= 1)
    decreases |s|
  {
    hide DecimalText;
    var k := |s| - 1;
    var t := s[..k];
    assert s[k] in s && s == t + [s[k]];
    assert forall c :: c in t ==> c in s;
    DecimalTextGrows(ParseDecimal(t), s[k]);
    if k > 0 {
      assert s[0] == t[0];
      DecimalIsText(t);
    }
  }

  lemma DecimalExactly(s: string, n: nat)
    ensures IsDecimal(s) && ParseDecimal(s) == n <==> s == DecimalText(n)
  {
    DecimalTextParses(n);
    if IsDecimal(s) { DecimalIsText(s); }
  }

  /** A plain, unencoded JSON reply with status 200. */
  ghost predicate Plain(a: Attempt) {
    && a.Answered? && a.reply.Reply? && a.reply.status == 200 && a.reply.contentTypes == ["application/json"]
    && !a.reply.transferEncoding && !a.reply.contentEncoding
  }

  /** A plain reply that declares exactly one length, this one. */
  ghost predicate Declares(a: Attempt, n: nat) {
    Plain(a) && a.reply.lengths == [DecimalText(n)]
  }

  /** When the deciding attempt leads to each reason. */
  ghost predicate Means(reason: Reason, a: Attempt, maxBytes: nat) {
    var r := a.Answered? && a.reply.Reply?;
    match reason
    case CancelledDuringTransport => a.Cancelled?
    case LocalTimeout => a.PastDeadline?
    case LocalConnectError => a.ConnectionFailed?
    case LocalProtocolError => a.ProtocolFailed?
    case HeadersOversized => a.Answered? && a.reply.OversizedHeaders?
    case RedirectForbidden => r && 300 <= a.reply.status <= 399
    case HttpStatusInvalid => r && a.reply.status != 200 && !(300 <= a.reply.status <= 399)
    case ContentTypeInvalid => r && a.reply.status == 200 && a.reply.contentTypes != ["application/json"]
    case TransferEncodingForbidden => r && a.reply.status == 200 && a.reply.contentTypes == ["application/json"] && a.reply.transferEncoding
    case ContentEncodingForbidden =>
      r && a.reply.status == 200 && a.reply.contentTypes == ["application/json"] && !a.reply.transferEncoding && a.reply.contentEncoding
    case ContentLengthMissing => Plain(a) && a.reply.lengths == []
    case ContentLengthDuplicate => Plain(a) && |a.reply.lengths| >= 2
    case ContentLengthInvalid => Plain(a) && |a.reply.lengths| == 1 && forall n: nat :: n >= 1 ==> !Declares(a, n)
    case BodyOversized => exists n: nat :: Declares(a, n) && n >= 1 && n > maxBytes
    case BodyTruncated => exists n: nat :: Declares(a, n) && 1 <= n <= maxBytes && |a.reply.received| < n
    case BodyLengthMismatch => exists n: nat :: Declares(a, n) && 1 <= n <= maxBytes && |a.reply.received| > n
    case _ => false
  }

  lemma DeclaresMeans(a: Attempt, n: nat)
    ensures Declares(a, n) <==> Plain(a) && |a.reply.lengths| == 1 && IsDecimal(a.reply.lengths[0]) && ParseDecimal(a.reply.lengths[0]) == n
  {
    if Plain(a) && |a.reply.lengths| == 1 {
      DecimalExactly(a.reply.lengths[0], n);
      assert a.reply.lengths == [a.reply.lengths[0]];
    }
  }

  lemma ReasonMeans(a: Attempt, attempts: nat, maxBytes: nat, reason: Reason)
    ensures Decided(a, attempts, maxBytes).reason == Some(reason) <==> Means(reason, a, maxBytes)
  {
    hide ParseDecimal, DecimalText, Declares;
    if Plain(a) && |a.reply.lengths| == 1 {
      LengthReasonMeans(a, attempts, maxBytes, reason);
    } else {
      forall n: nat ensures !Declares(a, n) { DeclaresMeans(a, n); }
    }
  }

  /** A plain reply with one length field: what is wrong with the length, if anything. */
  lemma LengthReasonMeans(a: Attempt, attempts: nat, maxBytes: nat, reason: Reason)
    requires Plain(a) && |a.reply.lengths| == 1
    ensures Decided(a, attempts, maxBytes).reason == Some(reason) <==> Means(reason, a, maxBytes)
  {
    hide ParseDecimal, DecimalText, Declares;
    var text := a.reply.lengths[0];
    forall n: nat ensures Declares(a, n) <==> IsDecimal(text) && ParseDecimal(text) == n { DeclaresMeans(a, n); }
    if IsDecimal(text) { assert Declares(a, ParseDecimal(text)); }
  }

  /** The reason, the body and the status of the deciding attempt, each exactly. */
  lemma DecidedMeans(a: Attempt, attempts: nat, maxBytes: nat)
    ensures forall reason :: Decided(a, attempts, maxBytes).reason == Some(reason) <==> Means(reason, a, maxBytes)
    ensures forall b :: Decided(a, attempts, maxBytes).body == Some(b) <==>
              Declares(a, |b|) && 1 <= |b| <= maxBytes && b == a.reply.received
    ensures Decided(a, attempts, maxBytes).status == if a.Answered? && a.reply.Reply? then Some(a.reply.status) else None
  {
    hide ParseDecimal, DecimalText, Declares, Means;
    forall n: nat
      ensures Declares(a, n) <==> Plain(a) && |a.reply.lengths| == 1 && IsDecimal(a.reply.lengths[0]) && ParseDecimal(a.reply.lengths[0]) == n
    {
      DeclaresMeans(a, n);
    }
    forall reason ensures Decided(a, attempts, maxBytes).reason == Some(reason) <==> Means(reason, a, maxBytes) {
      ReasonMeans(a, attempts, maxBytes, reason);
    }
  }

  /**
   * A request's outcome: every attempt before the last one made failed to connect or broke
   * the protocol, the last one did not unless no retry was left, and it alone decides.
   */
  ghost predicate Obtained(r: HttpResult, maxRetries: nat, maxBytes: nat, attempt: nat -> Attempt) {
    && 1 <= r.attempts <= maxRetries + 1
    && (forall j: nat :: j < r.attempts - 1 ==> attempt(j).ConnectionFailed? || attempt(j).ProtocolFailed?)
    && var a := attempt(r.attempts - 1);
    && (r.attempts <= maxRetries ==> !a.ConnectionFailed? && !a.ProtocolFailed?)
    && (forall reason :: r.reason == Some(reason) <==> Means(reason, a, maxBytes))
    && (forall b :: r.body == Some(b) <==>
          && a.Answered? && a.reply.Reply? && a.reply.status == 200 && a.reply.contentTypes == ["application/json"]
          && !a.reply.transferEncoding && !a.reply.contentEncoding && a.reply.lengths == [DecimalText(|b|)]
          && 1 <= |b| <= maxBytes && b == a.reply.received)
    && r.status == if a.Answered? && a.reply.Reply? then Some(a.reply.status) else None
  }

  lemma RequestedIsObtained(maxRetries: nat, maxBytes: nat, attempt: nat -> Attempt)
    ensures Obtained(Requested(maxRetries, maxBytes, attempt, 0), maxRetries, maxBytes, attempt)
  {
    hide Means, DecimalText, Requested, Decided;
    DecidingAttempt(maxRetries, maxBytes, attempt, 0);
    var n := Requested(maxRetries, maxBytes, attempt, 0).attempts;
    DecidedMeans(attempt(n - 1), n, maxBytes);
  }

  method RequestLocal(maxRetries: nat, maxBytes: nat, attempt: nat -> Attempt) returns (r: HttpResult)
    ensures r == Requested(maxRetries, maxBytes, attempt, 0)
    ensures WellShaped(r) && 1 <= r.attempts <= maxRetries + 1
    ensures Obtained(r, maxRetries, maxBytes, attempt)
  {
    hide Obtained, ParseDecimal, IsDecimal;
    RequestedIsObtained(maxRetries, maxBytes, attempt);
    RequestedIsWellShaped(maxRetries, maxBytes, attempt, 0);
    for k := 0 to maxRetries + 1
      invariant k <= maxRetries && Requested(maxRetries, maxBytes, attempt, 0) == Requested(maxRetries, maxBytes, attempt, k)
    {
      var attempts := k + 1;
      match attempt(k) {
        case Answered(reply) => return Respond(reply, attempts, maxBytes);
        case Cancelled => return HttpResult(None, attempts, Some(CancelledDuringTransport), None);
        case PastDeadline => return HttpResult(None, attempts, Some(LocalTimeout), None);
        case ConnectionFailed => if k == maxRetries { return HttpResult(None, attempts, Some(LocalConnectError), None); }
        case ProtocolFailed => if k == maxRetries { return HttpResult(None, attempts, Some(LocalProtocolError), None); }
      }
    }
  }
}
