/**
 * The witness file: its canonical text and the strict reader.
 *
 * A text is a sequence of tokens, one per character, except that the 64 hexadecimal
 * characters of a digest form a single token carrying the digest.
 */
module WitnessCodec {
  import opened Wrappers
  import opened AncestryRecords

  const MAX_WITNESS: nat := 4096

  datatype Token = Ch(c: char) | Hex(digest: Digest)

  type Text = seq<Token>

  datatype Pending = Pending(before: Checkpoint, after: Checkpoint)

  datatype Witness = Witness(committed: Checkpoint, pending: Option<Pending>)

  function TextLength(t: Text): nat {
    if t == [] then 0 else (if t[0].Ch? then 1 else t[0].digest.Length()) + TextLength(t[1..])
  }

  function Lit(s: string): (t: Text)
    ensures |t| == |s|
  {
    seq(|s|, i requires 0 <= i < |s| => Ch(s[i]))
  }

  function Decimal(n: nat): string {
    if n < 10 then [('0' as int + n) as char] else Decimal(n / 10) + [('0' as int + n % 10) as char]
  }

  predicate IsDigit(c: char) {
    '0' <= c <= '9'
  }

  function ParseDecimal(s: string): nat
    requires forall i :: 0 <= i < |s| ==> IsDigit(s[i])
  {
    if s == "" then 0
    else
      assert IsDigit(s[|s| - 1]);
      10 * ParseDecimal(s[..|s| - 1]) + (s[|s| - 1] as int - '0' as int)
  }

  // ------------------------------------------------------------- writing

  // Each part is written in front of the text that follows it.

  function LabelPart(lit: string, l: string, rest: Text): Text {
    Lit(lit) + (Lit(l) + rest)
  }

  function DigestPart(lit: string, d: Digest, rest: Text): Text {
    Lit(lit) + ([Hex(d)] + rest)
  }

  function NumberPart(lit: string, n: nat, rest: Text): Text {
    Lit(lit) + (Lit(Decimal(n)) + rest)
  }

  function CheckpointText(cp: Checkpoint, rest: Text): Text {
    LabelPart("{\"context\":\"", cp.context,
      DigestPart("\",\"event_head\":\"", cp.eventHead,
        DigestPart("\",\"root_digest\":\"", cp.rootDigest,
          NumberPart("\",\"sequence\":", cp.sequence,
            NumberPart(",\"version\":", cp.version, Lit("}") + rest)))))
  }

  function PendingText(p: Option<Pending>, rest: Text): Text {
    match p
    case None => Lit("null") + rest
    case Some(p) =>
      Lit("{\"after\":") + CheckpointText(p.after, Lit(",\"before\":") + CheckpointText(p.before, Lit("}") + rest))
  }

  function WitnessText(w: Witness): Text {
    Lit("{\"committed\":") + CheckpointText(w.committed, Lit(",\"pending\":") + PendingText(w.pending, Lit(",\"version\":1}")))
  }

  // ------------------------------------------------------------- reading

  function Skip(lit: string, t: Text): Option<Text> {
    if |lit| <= |t| && t[..|lit|] == Lit(lit) then Some(t[|lit|..]) else None
  }

  /** The longest prefix of admissible characters. */
  function Span(t: Text, ok: char -> bool): (s: string)
    ensures |s| <= |t| && t[..|s|] == Lit(s)
    ensures forall i :: 0 <= i < |s| ==> ok(s[i])
  {
    if t != [] && t[0].Ch? && ok(t[0].c) then
      var s := Span(t[1..], ok);
      assert t[..1 + |s|] == [t[0]] + t[1..][..|s|];
      [t[0].c] + s
    else ""
  }

  function TakeDigest(lit: string, t: Text): Option<(Digest, Text)> {
    var t :- Skip(lit, t);
    if t != [] && t[0].Hex? && t[0].digest.IsHex() then Some((t[0].digest, t[1..])) else None
  }

  function TakeLabel(lit: string, t: Text): Option<(string, Text)> {
    var t :- Skip(lit, t);
    var s := Span(t, IsLabelChar);
    if IsLabel(s) then Some((s, t[|s|..])) else None
  }

  /** A number in canonical decimal notation, between the bounds. */
  function TakeNumber(lit: string, t: Text, low: nat, high: nat): Option<(nat, Text)> {
    var t :- Skip(lit, t);
    var s := Span(t, IsDigit);
    var n := ParseDecimal(s);
    if s == Decimal(n) && low <= n <= high then Some((n, t[|s|..])) else None
  }

  function TakeCheckpoint(t: Text): Option<(Checkpoint, Text)> {
    var (context, t) :- TakeLabel("{\"context\":\"", t);
    var (head, t) :- TakeDigest("\",\"event_head\":\"", t);
    var (root, t) :- TakeDigest("\",\"root_digest\":\"", t);
    var (sequence, t) :- TakeNumber("\",\"sequence\":", t, 1, MAX_RECORDS);
    var (version, t) :- TakeNumber(",\"version\":", t, VERSION, VERSION);
    var t :- Skip("}", t);
    Some((Checkpoint(context, root, version, sequence, head), t))
  }

  function TakePending(t: Text): Option<(Option<Pending>, Text)> {
    var none := Skip("null", t);
    if none.Some? then Some((None, none.value))
    else
      var t :- Skip("{\"after\":", t);
      var (after, t) :- TakeCheckpoint(t);
      var t :- Skip(",\"before\":", t);
      var (before, t) :- TakeCheckpoint(t);
      var t :- Skip("}", t);
      Some((Some(Pending(before, after)), t))
  }

  function ReadWitness(t: Text): Option<Witness> {
    if TextLength(t) > MAX_WITNESS then None
    else
      var t :- Skip("{\"committed\":", t);
      var (committed, t) :- TakeCheckpoint(t);
      var t :- Skip(",\"pending\":", t);
      var (pending, t) :- TakePending(t);
      if t == Lit(",\"version\":1}") then Some(Witness(committed, pending)) else None
  }

  predicate Readable(cp: Checkpoint) {
    && IsLabel(cp.context) && cp.version == VERSION && 1 <= cp.sequence <= MAX_RECORDS
    && cp.rootDigest.IsHex() && cp.eventHead.IsHex()
  }

  predicate ReadableWitness(w: Witness) {
    Readable(w.committed) && (w.pending.Some? ==> Readable(w.pending.value.before) && Readable(w.pending.value.after))
  }

  // --------------------------------------------------------- round trip

  lemma SkipExactly(lit: string, t: Text, rest: Text)
    ensures Skip(lit, t) == Some(rest) <==> t == Lit(lit) + rest
  {
    if t == Lit(lit) + rest {
      assert t[..|lit|] == Lit(lit) && t[|lit|..] == rest;
    }
    if Skip(lit, t) == Some(rest) {
      assert t == t[..|lit|] + t[|lit|..];
    }
  }

  /** The text goes on with a quote, comma or brace. */
  predicate StopsField(rest: Text) {
    rest != [] && rest[0].Ch? && rest[0].c in {'"', ',', '}'}
  }

  lemma {:induction false} SpanExactly(s: string, rest: Text, ok: char -> bool)
    requires forall i :: 0 <= i < |s| ==> ok(s[i])
    requires rest != [] && rest[0].Ch? && !ok(rest[0].c)
    ensures Span(Lit(s) + rest, ok) == s
    ensures (Lit(s) + rest)[|s|..] == rest
  {
    if s == "" {
      assert Lit(s) + rest == rest;
    } else {
      assert (Lit(s) + rest)[1..] == Lit(s[1..]) + rest;
      SpanExactly(s[1..], rest, ok);
    }
  }

  lemma TakeDigestExactly(lit: string, t: Text, d: Digest, rest: Text)
    ensures TakeDigest(lit, t) == Some((d, rest)) <==> d.IsHex() && t == DigestPart(lit, d, rest)
  {
    SkipExactly(lit, t, [Hex(d)] + rest);
    assert ([Hex(d)] + rest)[1..] == rest;
    if TakeDigest(lit, t) == Some((d, rest)) {
      var u := Skip(lit, t).value;
      assert u == [u[0]] + u[1..];
    }
  }

  lemma TakeLabelExactly(lit: string, t: Text, l: string, rest: Text)
    requires StopsField(rest)
    ensures TakeLabel(lit, t) == Some((l, rest)) <==> IsLabel(l) && t == LabelPart(lit, l, rest)
  {
    SkipExactly(lit, t, Lit(l) + rest);
    if IsLabel(l) {
      SpanExactly(l, rest, IsLabelChar);
    }
    if TakeLabel(lit, t) == Some((l, rest)) {
      var u := Skip(lit, t).value;
      assert u == u[..|l|] + u[|l|..];
    }
  }

  lemma {:induction false} DecimalParsesBack(n: nat)
    ensures forall i :: 0 <= i < |Decimal(n)| ==> IsDigit(Decimal(n)[i])
    ensures ParseDecimal(Decimal(n)) == n
  {
    if n >= 10 {
      DecimalParsesBack(n / 10);
      var s := Decimal(n);
      assert s[..|s| - 1] == Decimal(n / 10);
    }
  }

  lemma TakeNumberExactly(lit: string, t: Text, low: nat, high: nat, n: nat, rest: Text)
    requires StopsField(rest)
    ensures TakeNumber(lit, t, low, high) == Some((n, rest)) <==> low <= n <= high && t == NumberPart(lit, n, rest)
  {
    SkipExactly(lit, t, Lit(Decimal(n)) + rest);
    DecimalParsesBack(n);
    SpanExactly(Decimal(n), rest, IsDigit);
    if TakeNumber(lit, t, low, high) == Some((n, rest)) {
      var u := Skip(lit, t).value;
      var s := Span(u, IsDigit);
      assert u == u[..|s|] + u[|s|..];
    }
  }

  /** A written checkpoint is read back, leaving what follows it. */
  lemma WrittenCheckpointIsTaken(cp: Checkpoint, rest: Text)
    requires Readable(cp)
    ensures TakeCheckpoint(CheckpointText(cp, rest)) == Some((cp, rest))
  {
    var t5 := Lit("}") + rest;
    var t4 := NumberPart(",\"version\":", cp.version, t5);
    var t3 := NumberPart("\",\"sequence\":", cp.sequence, t4);
    var t2 := DigestPart("\",\"root_digest\":\"", cp.rootDigest, t3);
    var t1 := DigestPart("\",\"event_head\":\"", cp.eventHead, t2);
    TakeLabelExactly("{\"context\":\"", LabelPart("{\"context\":\"", cp.context, t1), cp.context, t1);
    TakeDigestExactly("\",\"event_head\":\"", t1, cp.eventHead, t2);
    TakeDigestExactly("\",\"root_digest\":\"", t2, cp.rootDigest, t3);
    TakeNumberExactly("\",\"sequence\":", t3, 1, MAX_RECORDS, cp.sequence, t4);
    TakeNumberExactly(",\"version\":", t4, VERSION, VERSION, cp.version, t5);
    SkipExactly("}", t5, rest);
  }

  /** Whatever is read as a checkpoint was written as that checkpoint. */
  lemma TakenCheckpointWasWritten(t: Text)
    requires TakeCheckpoint(t).Some?
    ensures var (cp, rest) := TakeCheckpoint(t).value; Readable(cp) && t == CheckpointText(cp, rest)
  {
    var (context, t1) := TakeLabel("{\"context\":\"", t).value;
    var (head, t2) := TakeDigest("\",\"event_head\":\"", t1).value;
    var (root, t3) := TakeDigest("\",\"root_digest\":\"", t2).value;
    var (sequence, t4) := TakeNumber("\",\"sequence\":", t3, 1, MAX_RECORDS).value;
    var (version, t5) := TakeNumber(",\"version\":", t4, VERSION, VERSION).value;
    var rest := Skip("}", t5).value;
    SkipExactly("}", t5, rest);
    TakeNumberExactly(",\"version\":", t4, VERSION, VERSION, version, t5);
    TakeNumberExactly("\",\"sequence\":", t3, 1, MAX_RECORDS, sequence, t4);
    TakeDigestExactly("\",\"root_digest\":\"", t2, root, t3);
    TakeDigestExactly("\",\"event_head\":\"", t1, head, t2);
    TakeLabelExactly("{\"context\":\"", t, context, t1);
  }

  lemma WrittenPendingIsTaken(p: Option<Pending>, rest: Text)
    requires p.Some? ==> Readable(p.value.before) && Readable(p.value.after)
    ensures TakePending(PendingText(p, rest)) == Some((p, rest))
  {
    var t := PendingText(p, rest);
    if p.None? {
      SkipExactly("null", t, rest);
    } else {
      var t3 := Lit("}") + rest;
      var t2 := CheckpointText(p.value.before, t3);
      var t1 := CheckpointText(p.value.after, Lit(",\"before\":") + t2);
      assert t[0] == Ch('{') && Lit("null")[0] == Ch('n');
      assert |t| >= 4 ==> t[..4][0] == t[0];
      SkipExactly("{\"after\":", t, t1);
      WrittenCheckpointIsTaken(p.value.after, Lit(",\"before\":") + t2);
      SkipExactly(",\"before\":", Lit(",\"before\":") + t2, t2);
      WrittenCheckpointIsTaken(p.value.before, t3);
      SkipExactly("}", t3, rest);
    }
  }

  lemma TakenPendingWasWritten(t: Text)
    requires TakePending(t).Some?
    ensures var (p, rest) := TakePending(t).value;
      (p.Some? ==> Readable(p.value.before) && Readable(p.value.after)) && t == PendingText(p, rest)
  {
    var none := Skip("null", t);
    if none.Some? {
      SkipExactly("null", t, none.value);
    } else {
      var t1 := Skip("{\"after\":", t).value;
      var (after, t2) := TakeCheckpoint(t1).value;
      var t3 := Skip(",\"before\":", t2).value;
      var (before, t4) := TakeCheckpoint(t3).value;
      var rest := Skip("}", t4).value;
      SkipExactly("{\"after\":", t, t1);
      TakenCheckpointWasWritten(t1);
      SkipExactly(",\"before\":", t2, t3);
      TakenCheckpointWasWritten(t3);
      SkipExactly("}", t4, rest);
    }
  }

  // -------------------------------------------------------------- length

  lemma {:induction false} LengthAfterLit(s: string, rest: Text)
    ensures TextLength(Lit(s) + rest) == |s| + TextLength(rest)
  {
    if s == "" {
      assert Lit(s) + rest == rest;
    } else {
      assert (Lit(s) + rest)[1..] == Lit(s[1..]) + rest;
      LengthAfterLit(s[1..], rest);
    }
  }

  lemma LengthOfParts(lit: string, l: string, d: Digest, rest: Text)
    ensures TextLength(LabelPart(lit, l, rest)) == |lit| + |l| + TextLength(rest)
    ensures TextLength(DigestPart(lit, d, rest)) == |lit| + d.Length() + TextLength(rest)
  {
    LengthAfterLit(l, rest);
    LengthAfterLit(lit, Lit(l) + rest);
    assert ([Hex(d)] + rest)[1..] == rest;
    LengthAfterLit(lit, [Hex(d)] + rest);
  }

  lemma DecimalLength(n: nat)
    requires n <= 9999
    ensures |Decimal(n)| <= 4
  {
    assert n / 10 < 1000 && n / 10 / 10 < 100 && n / 10 / 10 / 10 < 10;
    assert |Decimal(n / 10 / 10 / 10)| == 1;
    assert |Decimal(n / 10 / 10)| <= 2;
    assert |Decimal(n / 10)| <= 3;
  }

  lemma CheckpointFits(cp: Checkpoint, rest: Text)
    requires Readable(cp)
    ensures TextLength(CheckpointText(cp, rest)) <= 400 + TextLength(rest)
  {
    DecimalLength(cp.sequence);
    DecimalLength(cp.version);
    var t5 := Lit("}") + rest;
    var t4 := NumberPart(",\"version\":", cp.version, t5);
    var t3 := NumberPart("\",\"sequence\":", cp.sequence, t4);
    var t2 := DigestPart("\",\"root_digest\":\"", cp.rootDigest, t3);
    var t1 := DigestPart("\",\"event_head\":\"", cp.eventHead, t2);
    LengthAfterLit("}", rest);
    LengthOfParts(",\"version\":", Decimal(cp.version), cp.rootDigest, t5);
    LengthOfParts("\",\"sequence\":", Decimal(cp.sequence), cp.rootDigest, t4);
    LengthOfParts("\",\"root_digest\":\"", "", cp.rootDigest, t3);
    LengthOfParts("\",\"event_head\":\"", "", cp.eventHead, t2);
    LengthOfParts("{\"context\":\"", cp.context, cp.eventHead, t1);
  }

  lemma PendingFits(p: Option<Pending>, rest: Text)
    requires p.Some? ==> Readable(p.value.before) && Readable(p.value.after)
    ensures TextLength(PendingText(p, rest)) <= 900 + TextLength(rest)
  {
    if p.None? {
      LengthAfterLit("null", rest);
    } else {
      var t3 := Lit("}") + rest;
      var t2 := CheckpointText(p.value.before, t3);
      LengthAfterLit("}", rest);
      CheckpointFits(p.value.before, t3);
      LengthAfterLit(",\"before\":", t2);
      CheckpointFits(p.value.after, Lit(",\"before\":") + t2);
      LengthAfterLit("{\"after\":", CheckpointText(p.value.after, Lit(",\"before\":") + t2));
    }
  }

  /** Every witness over readable checkpoints fits the 4096 byte limit. */
  lemma WitnessFits(w: Witness)
    requires ReadableWitness(w)
    ensures TextLength(WitnessText(w)) <= MAX_WITNESS
  {
    var end := Lit(",\"version\":1}");
    LengthAfterLit(",\"version\":1}", []);
    assert end + [] == end;
    PendingFits(w.pending, end);
    LengthAfterLit(",\"pending\":", PendingText(w.pending, end));
    CheckpointFits(w.committed, Lit(",\"pending\":") + PendingText(w.pending, end));
    LengthAfterLit("{\"committed\":", CheckpointText(w.committed, Lit(",\"pending\":") + PendingText(w.pending, end)));
  }

  /**
   * The reader accepts a witness file exactly when it is the canonical text of a
   * readable witness, and then returns that witness.
   */
  lemma ReadIsInverseOfWrite(t: Text, w: Witness)
    ensures ReadWitness(t) == Some(w) <==> ReadableWitness(w) && t == WitnessText(w)
  {
    hide Skip, Lit, TakeCheckpoint, TakePending, CheckpointText, PendingText, Readable, TextLength;
    var end := Lit(",\"version\":1}");
    if ReadableWitness(w) && t == WitnessText(w) {
      WitnessFits(w);
      var t2 := PendingText(w.pending, end);
      var t1 := CheckpointText(w.committed, Lit(",\"pending\":") + t2);
      SkipExactly("{\"committed\":", t, t1);
      WrittenCheckpointIsTaken(w.committed, Lit(",\"pending\":") + t2);
      SkipExactly(",\"pending\":", Lit(",\"pending\":") + t2, t2);
      WrittenPendingIsTaken(w.pending, end);
    }
    if ReadWitness(t) == Some(w) {
      var t1 := Skip("{\"committed\":", t).value;
      var (committed, t2) := TakeCheckpoint(t1).value;
      var t3 := Skip(",\"pending\":", t2).value;
      SkipExactly("{\"committed\":", t, t1);
      TakenCheckpointWasWritten(t1);
      SkipExactly(",\"pending\":", t2, t3);
      TakenPendingWasWritten(t3);
    }
  }
}
