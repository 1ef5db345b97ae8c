/**
 * The witness file, read as JSON.
 *
 * Main result: `WitnessIsCanonicalJson` - its text is the canonical JSON text of the object
 * that names the committed checkpoint, the pending transition and the version.
 */
module WitnessJson {
  import opened Wrappers
  import opened AncestryRecords
  import opened WitnessCodec
  import opened LabelJson
  import J = JsonText
  import JsonCanonical

  type Bytes = seq<Byte>

  /** The bytes of a text, given the digits of each digest. */
  function BytesOf(hex: Digest -> string, t: Text): Bytes {
    if t == [] then []
    else Ascii(if t[0].Ch? then [t[0].c] else hex(t[0].digest)) + BytesOf(hex, t[1..])
  }

  ghost predicate NeedsNoEscape(s: string) {
    forall i :: 0 <= i < |s| ==> IsLabelChar(s[i])
  }

  /** Digests are written in hexadecimal, or at least in characters that need no escape. */
  ghost predicate WritesPlainly(hex: Digest -> string) {
    forall d :: NeedsNoEscape(hex(d))
  }

  // ---------------------------------------------------------------- as values

  function Number(n: nat): J.Value {
    J.Literal(Ascii(Decimal(n)))
  }

  function KeysOf(names: seq<string>): seq<Bytes> {
    if names == [] then [] else [Ascii(names[0])] + KeysOf(names[1..])
  }

  const CHECKPOINT_KEYS: seq<string> := ["context", "event_head", "root_digest", "sequence", "version"]

  const PENDING_KEYS: seq<string> := ["after", "before"]

  const WITNESS_KEYS: seq<string> := ["committed", "pending", "version"]

  /** The values of a checkpoint, by key. */
  function Fields(hex: Digest -> string, cp: Checkpoint): (vs: seq<J.Value>)
    ensures |vs| == 5
  {
    [J.Text(Ascii(cp.context)), J.Text(Ascii(hex(cp.eventHead))), J.Text(Ascii(hex(cp.rootDigest))), Number(cp.sequence), Number(cp.version)]
  }

  function CheckpointValue(hex: Digest -> string, cp: Checkpoint): J.Value {
    J.Object(KeysOf(CHECKPOINT_KEYS), Fields(hex, cp))
  }

  function PendingValue(hex: Digest -> string, p: Option<Pending>): J.Value {
    match p
    case None => J.Literal(Ascii("null"))
    case Some(p) => J.Object(KeysOf(PENDING_KEYS), [CheckpointValue(hex, p.after), CheckpointValue(hex, p.before)])
  }

  function WitnessValue(hex: Digest -> string, w: Witness): J.Value {
    J.Object(KeysOf(WITNESS_KEYS),
             [CheckpointValue(hex, w.committed), PendingValue(hex, w.pending), J.Literal(Ascii("1"))])
  }

  lemma {:induction false} DecimalIsLiteral(n: nat)
    ensures J.IsLiteral(Ascii(Decimal(n)))
  {
    if n >= 10 {
      DecimalIsLiteral(n / 10);
      AsciiOfConcat(Decimal(n / 10), [('0' as int + n % 10) as char]);
    }
  }

  lemma NullIsLiteral()
    ensures J.IsLiteral(Ascii("null")) && J.IsLiteral(Ascii("1"))
  {
  }

  lemma {:induction false} KeysOfLength(names: seq<string>)
    ensures |KeysOf(names)| == |names|
  {
    if names != [] { KeysOfLength(names[1..]); }
  }

  lemma CheckpointIsWellFormed(hex: Digest -> string, cp: Checkpoint)
    ensures J.WellFormed(CheckpointValue(hex, cp))
  {
    hide J.IsLiteral;
    KeysOfLength(CHECKPOINT_KEYS);
    DecimalIsLiteral(cp.sequence);
    DecimalIsLiteral(cp.version);
  }

  lemma PendingIsWellFormed(hex: Digest -> string, p: Option<Pending>)
    ensures J.WellFormed(PendingValue(hex, p))
  {
    hide J.IsLiteral, CheckpointValue;
    NullIsLiteral();
    KeysOfLength(PENDING_KEYS);
    if p.Some? {
      CheckpointIsWellFormed(hex, p.value.after);
      CheckpointIsWellFormed(hex, p.value.before);
    }
  }

  lemma WitnessIsWellFormed(hex: Digest -> string, w: Witness)
    ensures J.WellFormed(WitnessValue(hex, w))
  {
    hide J.IsLiteral, CheckpointValue, PendingValue;
    NullIsLiteral();
    KeysOfLength(WITNESS_KEYS);
    CheckpointIsWellFormed(hex, w.committed);
    PendingIsWellFormed(hex, w.pending);
  }

  // ----------------------------------------------------------------- as bytes

  lemma {:induction false} BytesOfConcat(hex: Digest -> string, a: Text, b: Text)
    ensures BytesOf(hex, a + b) == BytesOf(hex, a) + BytesOf(hex, b)
  {
    if a == [] {
      assert a + b == b;
    } else {
      assert (a + b)[1..] == a[1..] + b;
      BytesOfConcat(hex, a[1..], b);
    }
  }

  lemma {:induction false} BytesOfLit(hex: Digest -> string, s: string)
    ensures BytesOf(hex, Lit(s)) == Ascii(s)
  {
    if s != "" {
      assert Lit(s)[1..] == Lit(s[1..]) && s == [s[0]] + s[1..];
      BytesOfLit(hex, s[1..]);
      AsciiOfConcat([s[0]], s[1..]);
    }
  }

  lemma LitIsWritten(hex: Digest -> string, lit: string, rest: Text)
    ensures BytesOf(hex, Lit(lit) + rest) == Ascii(lit) + BytesOf(hex, rest)
  {
    hide BytesOf;
    BytesOfConcat(hex, Lit(lit), rest);
    BytesOfLit(hex, lit);
  }

  lemma DigestIsWritten(hex: Digest -> string, d: Digest, rest: Text)
    ensures BytesOf(hex, [Hex(d)] + rest) == Ascii(hex(d)) + BytesOf(hex, rest)
  {
    assert ([Hex(d)] + rest)[1..] == rest;
  }

  // ------------------------------------------------------------------ members

  /** Some members of an object, as rendered in front of what follows them. */
  function Members(names: seq<string>, vs: seq<J.Value>, rest: Bytes): Bytes
    requires |names| == |vs| && forall v :: v in vs ==> J.WellFormed(v)
  {
    KeysOfLength(names);
    J.MembersOnto(JsonCanonical.PlainKeys(KeysOf(names)), JsonCanonical.PlainValues(vs), rest)
  }

  lemma QuotesAre()
    ensures Ascii("\"") == [J.QUOTE] && Ascii("\":") == [J.QUOTE, J.COLON]
  {
  }

  lemma QuotedKey(name: string, rest: Bytes)
    ensures [J.QUOTE] + (Ascii(name) + ([J.QUOTE] + ([J.COLON] + rest))) == Ascii("\"" + (name + "\":")) + rest
  {
    hide Ascii;
    QuotesAre();
    AsciiOfConcat("\"", name + "\":");
    AsciiOfConcat(name, "\":");
  }

  lemma KeyIsSpelled(name: string, rest: Bytes)
    requires NeedsNoEscape(name)
    ensures J.KeyOnto(J.KeySpelling([], JsonCanonical.PlainPieces(Ascii(name)), []), [J.COLON] + rest) == Ascii("\"" + (name + "\":")) + rest
  {
    hide J.PiecesOnto, JsonCanonical.PlainPieces, IsLabelChar, Ascii;
    var none: Bytes := [];
    assert none + ([J.COLON] + rest) == [J.COLON] + rest;
    LabelIsPlain(name, [J.QUOTE] + ([J.COLON] + rest));
    QuotedKey(name, rest);
    var spelled := [J.QUOTE] + J.PiecesOnto(JsonCanonical.PlainPieces(Ascii(name)), [J.QUOTE] + ([J.COLON] + rest));
    assert none + spelled == spelled;
  }

  lemma MembersByFirst(names: seq<string>, vs: seq<J.Value>, rest: Bytes)
    requires |names| == |vs| && names != [] && NeedsNoEscape(names[0]) && forall v :: v in vs ==> J.WellFormed(v)
    ensures Members(names, vs, rest) == Ascii("\"" + (names[0] + "\":"))
         + J.SpellOnto(JsonCanonical.Plain(vs[0]), J.Comma(|vs| > 1) + Members(names[1..], vs[1..], rest))
  {
    hide J.SpellOnto, JsonCanonical.Plain, J.WellFormed, J.KeyOnto, NeedsNoEscape;
    KeysOfLength(names);
    KeysOfLength(names[1..]);
    var keys := KeysOf(names);
    assert keys[1..] == KeysOf(names[1..]);
    assert JsonCanonical.PlainValues(vs)[1..] == JsonCanonical.PlainValues(vs[1..]);
    assert JsonCanonical.PlainKeys(keys)[1..] == JsonCanonical.PlainKeys(keys[1..]);
    KeyIsSpelled(names[0], J.SpellOnto(JsonCanonical.Plain(vs[0]), J.Comma(|vs| > 1) + Members(names[1..], vs[1..], rest)));
  }

  lemma ObjectIsSpelled(names: seq<string>, vs: seq<J.Value>, rest: Bytes)
    requires |names| == |vs| && forall v :: v in vs ==> J.WellFormed(v)
    ensures |KeysOf(names)| == |vs|
    ensures J.SpellOnto(JsonCanonical.Plain(J.Object(KeysOf(names), vs)), rest) == [J.LBRACE] + Members(names, vs, [J.RBRACE] + rest)
  {
    hide J.MembersOnto, JsonCanonical.PlainKeys, JsonCanonical.PlainValues;
    KeysOfLength(names);
    var none: Bytes := [];
    assert none + rest == rest;
    assert forall t: Bytes :: none + t == t;
  }

  lemma LiteralIsSpelled(content: Bytes, rest: Bytes)
    requires J.IsLiteral(content)
    ensures J.SpellOnto(JsonCanonical.Plain(J.Literal(content)), rest) == content + rest
  {
    var none: Bytes := [];
    assert none + rest == rest && none + (content + rest) == content + rest;
  }

  /** A key with its quotes and its colon. */
  function Key(name: string): Bytes {
    Ascii("\"" + (name + "\":"))
  }

  /** The text of these members, behind what closes the member before them. */
  ghost predicate Writes(hex: Digest -> string, t: Text, before: Bytes, names: seq<string>, vs: seq<J.Value>, end: Bytes)
    requires |names| == |vs| && forall v :: v in vs ==> J.WellFormed(v)
  {
    BytesOf(hex, t) == before + Members(names, vs, end)
  }

  lemma NumberMember(hex: Digest -> string, lit: string, n: nat, t: Text, before: Bytes, names: seq<string>, vs: seq<J.Value>, end: Bytes)
    requires |names| == |vs| && names != [] && NeedsNoEscape(names[0]) && forall v :: v in vs ==> J.WellFormed(v)
    requires vs[0] == Number(n) && Ascii(lit) == before + Key(names[0])
    requires Writes(hex, t, J.Comma(|vs| > 1), names[1..], vs[1..], end)
    ensures Writes(hex, NumberPart(lit, n, t), before, names, vs, end)
  {
    hide Ascii, BytesOf, Members, J.SpellOnto, JsonCanonical.Plain, J.WellFormed, NeedsNoEscape, Decimal;
    MembersByFirst(names, vs, end);
    LitIsWritten(hex, lit, Lit(Decimal(n)) + t);
    LitIsWritten(hex, Decimal(n), t);
    DecimalIsLiteral(n);
    LiteralIsSpelled(Ascii(Decimal(n)), BytesOf(hex, t));
    assert before + Key(names[0]) + (Ascii(Decimal(n)) + BytesOf(hex, t)) == before + (Key(names[0]) + (Ascii(Decimal(n)) + BytesOf(hex, t)));
  }

  lemma StringIsSpelled(content: string, more: Bytes)
    requires NeedsNoEscape(content)
    ensures J.SpellOnto(JsonCanonical.Plain(J.Text(Ascii(content))), more) == [J.QUOTE] + (Ascii(content) + ([J.QUOTE] + more))
  {
    hide J.SpellOnto, JsonCanonical.Plain, J.PiecesOnto, JsonCanonical.PlainPieces, Ascii;
    TextIsSpelled(Ascii(content), more);
    LabelIsPlain(content, [J.QUOTE] + more);
  }

  /** A string member, from the bytes of its literal, its content and what follows. */
  lemma StringMember(written: Bytes, content: string, more: Bytes, before: Bytes, names: seq<string>, vs: seq<J.Value>, end: Bytes)
    requires |names| == |vs| && names != [] && NeedsNoEscape(names[0]) && forall v :: v in vs ==> J.WellFormed(v)
    requires vs[0] == J.Text(Ascii(content)) && NeedsNoEscape(content)
    requires written == before + (Key(names[0]) + [J.QUOTE])
    requires more == [J.QUOTE] + (J.Comma(|vs| > 1) + Members(names[1..], vs[1..], end))
    ensures written + (Ascii(content) + more) == before + Members(names, vs, end)
  {
    hide Ascii, Members, J.SpellOnto, JsonCanonical.Plain, J.WellFormed, NeedsNoEscape;
    MembersByFirst(names, vs, end);
    var tail := J.Comma(|vs| > 1) + Members(names[1..], vs[1..], end);
    StringIsSpelled(content, tail);
    assert written + (Ascii(content) + more) == before + (Key(names[0]) + ([J.QUOTE] + (Ascii(content) + ([J.QUOTE] + tail))));
  }

  lemma LabelMember(hex: Digest -> string, lit: string, l: string, t: Text, before: Bytes, names: seq<string>, vs: seq<J.Value>, end: Bytes)
    requires |names| == |vs| && names != [] && NeedsNoEscape(names[0]) && forall v :: v in vs ==> J.WellFormed(v)
    requires vs[0] == J.Text(Ascii(l)) && NeedsNoEscape(l) && Ascii(lit) == before + (Key(names[0]) + [J.QUOTE])
    requires Writes(hex, t, [J.QUOTE] + J.Comma(|vs| > 1), names[1..], vs[1..], end)
    ensures Writes(hex, LabelPart(lit, l, t), before, names, vs, end)
  {
    hide Ascii, BytesOf, Members, J.WellFormed, NeedsNoEscape;
    LitIsWritten(hex, lit, Lit(l) + t);
    LitIsWritten(hex, l, t);
    Regroup(J.Comma(|vs| > 1), Members(names[1..], vs[1..], end));
    StringMember(Ascii(lit), l, BytesOf(hex, t), before, names, vs, end);
  }

  lemma DigestMember(hex: Digest -> string, lit: string, d: Digest, t: Text, before: Bytes, names: seq<string>, vs: seq<J.Value>, end: Bytes)
    requires |names| == |vs| && names != [] && NeedsNoEscape(names[0]) && forall v :: v in vs ==> J.WellFormed(v)
    requires vs[0] == J.Text(Ascii(hex(d))) && NeedsNoEscape(hex(d)) && Ascii(lit) == before + (Key(names[0]) + [J.QUOTE])
    requires Writes(hex, t, [J.QUOTE] + J.Comma(|vs| > 1), names[1..], vs[1..], end)
    ensures Writes(hex, DigestPart(lit, d, t), before, names, vs, end)
  {
    hide Ascii, BytesOf, Members, J.WellFormed, NeedsNoEscape;
    LitIsWritten(hex, lit, [Hex(d)] + t);
    DigestIsWritten(hex, d, t);
    Regroup(J.Comma(|vs| > 1), Members(names[1..], vs[1..], end));
    StringMember(Ascii(lit), hex(d), BytesOf(hex, t), before, names, vs, end);
  }

  lemma Regroup(comma: Bytes, rest: Bytes)
    ensures [J.QUOTE] + comma + rest == [J.QUOTE] + (comma + rest)
  {
  }

  // -------------------------------------------------------------- checkpoints

  lemma ContextText()
    ensures Ascii("{\"context\":\"") == [J.LBRACE] + (Key("context") + [J.QUOTE])
  {
  }

  lemma HeadText()
    ensures Ascii("\",\"event_head\":\"") == [J.QUOTE, J.COMMA] + (Key("event_head") + [J.QUOTE])
  {
  }

  lemma RootText()
    ensures Ascii("\",\"root_digest\":\"") == [J.QUOTE, J.COMMA] + (Key("root_digest") + [J.QUOTE])
  {
  }

  lemma SequenceText()
    ensures Ascii("\",\"sequence\":") == [J.QUOTE, J.COMMA] + Key("sequence")
  {
  }

  lemma VersionText()
    ensures Ascii(",\"version\":") == [J.COMMA] + Key("version")
  {
  }

  lemma CheckpointKeysArePlain()
    ensures forall i :: 0 <= i < 5 ==> NeedsNoEscape(CHECKPOINT_KEYS[i])
  {
  }

  lemma NoMembers(end: Bytes)
    ensures Members([], [], end) == end
  {
  }

  lemma FieldsAreWellFormed(hex: Digest -> string, cp: Checkpoint)
    ensures forall v :: v in Fields(hex, cp) ==> J.WellFormed(v)
  {
    hide J.IsLiteral;
    DecimalIsLiteral(cp.sequence);
    DecimalIsLiteral(cp.version);
  }

  /** The two numbers that end a checkpoint. */
  lemma NumbersAreWritten(hex: Digest -> string, cp: Checkpoint, rest: Text)
    requires forall v :: v in Fields(hex, cp) ==> J.WellFormed(v)
    ensures var t := NumberPart("\",\"sequence\":", cp.sequence, NumberPart(",\"version\":", cp.version, Lit("}") + rest));
      Writes(hex, t, [J.QUOTE, J.COMMA], CHECKPOINT_KEYS[3..], Fields(hex, cp)[3..], [J.RBRACE] + BytesOf(hex, rest))
  {
    hide BytesOf, Members, J.WellFormed, NeedsNoEscape, Ascii, Key, Decimal, NumberPart;
    var vs, end := Fields(hex, cp), [J.RBRACE] + BytesOf(hex, rest);
    var names := CHECKPOINT_KEYS;
    CheckpointKeysArePlain();
    assert names[3..][1..] == names[4..] && vs[3..][1..] == vs[4..] && names[4..][1..] == [] && vs[4..][1..] == [];
    BraceIsWritten(hex, rest);
    NoMembers(end);
    VersionText();
    SequenceText();
    NumberMember(hex, ",\"version\":", cp.version, Lit("}") + rest, [J.COMMA], names[4..], vs[4..], end);
    NumberMember(hex, "\",\"sequence\":", cp.sequence, NumberPart(",\"version\":", cp.version, Lit("}") + rest), [J.QUOTE, J.COMMA], names[3..], vs[3..], end);
  }

  lemma BraceIsWritten(hex: Digest -> string, rest: Text)
    ensures BytesOf(hex, Lit("}") + rest) == J.Comma(false) + ([J.RBRACE] + BytesOf(hex, rest))
  {
    hide BytesOf;
    LitIsWritten(hex, "}", rest);
    assert Ascii("}") == [J.RBRACE];
  }

  /** A checkpoint is written as the plain rendering of its value. */
  lemma CheckpointIsWritten(hex: Digest -> string, cp: Checkpoint, rest: Text)
    requires WritesPlainly(hex) && NeedsNoEscape(cp.context)
    ensures J.WellFormed(CheckpointValue(hex, cp))
    ensures BytesOf(hex, CheckpointText(cp, rest)) == J.SpellOnto(JsonCanonical.Plain(CheckpointValue(hex, cp)), BytesOf(hex, rest))
  {
    hide BytesOf, Members, J.WellFormed, NeedsNoEscape, Ascii, Key, Decimal, J.SpellOnto, JsonCanonical.Plain, KeysOf, NumberPart, DigestPart, LabelPart;
    var vs, names, end := Fields(hex, cp), CHECKPOINT_KEYS, [J.RBRACE] + BytesOf(hex, rest);
    CheckpointIsWellFormed(hex, cp);
    FieldsAreWellFormed(hex, cp);
    CheckpointKeysArePlain();
    NumbersAreWritten(hex, cp, rest);
    var numbers := NumberPart("\",\"sequence\":", cp.sequence, NumberPart(",\"version\":", cp.version, Lit("}") + rest));
    var root := DigestPart("\",\"root_digest\":\"", cp.rootDigest, numbers);
    var head := DigestPart("\",\"event_head\":\"", cp.eventHead, root);
    assert names[2..][1..] == names[3..] && vs[2..][1..] == vs[3..];
    assert names[1..][1..] == names[2..] && vs[1..][1..] == vs[2..];
    RootText();
    DigestMember(hex, "\",\"root_digest\":\"", cp.rootDigest, numbers, [J.QUOTE, J.COMMA], names[2..], vs[2..], end);
    HeadText();
    DigestMember(hex, "\",\"event_head\":\"", cp.eventHead, root, [J.QUOTE, J.COMMA], names[1..], vs[1..], end);
    ContextText();
    LabelMember(hex, "{\"context\":\"", cp.context, head, [J.LBRACE], names, vs, end);
    ObjectIsSpelled(names, vs, BytesOf(hex, rest));
  }

  // ------------------------------------------------------------- the witness

  lemma OtherKeysArePlain()
    ensures forall i :: 0 <= i < 2 ==> NeedsNoEscape(PENDING_KEYS[i])
    ensures forall i :: 0 <= i < 3 ==> NeedsNoEscape(WITNESS_KEYS[i])
  {
  }

  lemma AfterText()
    ensures Ascii("{\"after\":") == [J.LBRACE] + Key("after")
  {
  }

  lemma BeforeText()
    ensures Ascii(",\"before\":") == [J.COMMA] + Key("before")
  {
  }

  lemma CommittedText()
    ensures Ascii("{\"committed\":") == [J.LBRACE] + Key("committed")
  {
  }

  lemma PendingKeyText()
    ensures Ascii(",\"pending\":") == [J.COMMA] + Key("pending")
  {
  }

  lemma EndText()
    ensures Ascii(",\"version\":1}") == [J.COMMA] + (Key("version") + (Ascii("1") + [J.RBRACE]))
  {
  }

  /** A member whose value is written already. */
  lemma ValueMember(hex: Digest -> string, lit: string, inner: Text, t: Text, before: Bytes, names: seq<string>, vs: seq<J.Value>, end: Bytes)
    requires |names| == |vs| && names != [] && NeedsNoEscape(names[0]) && forall v :: v in vs ==> J.WellFormed(v)
    requires Ascii(lit) == before + Key(names[0])
    requires BytesOf(hex, inner) == J.SpellOnto(JsonCanonical.Plain(vs[0]), BytesOf(hex, t))
    requires Writes(hex, t, J.Comma(|vs| > 1), names[1..], vs[1..], end)
    ensures Writes(hex, Lit(lit) + inner, before, names, vs, end)
  {
    hide Ascii, BytesOf, Members, J.SpellOnto, JsonCanonical.Plain, J.WellFormed, NeedsNoEscape;
    MembersByFirst(names, vs, end);
    LitIsWritten(hex, lit, inner);
    assert before + Key(names[0]) + BytesOf(hex, inner) == before + (Key(names[0]) + BytesOf(hex, inner));
  }

  ghost predicate LabelsArePlain(p: Option<Pending>) {
    p.Some? ==> NeedsNoEscape(p.value.before.context) && NeedsNoEscape(p.value.after.context)
  }

  lemma PendingIsWritten(hex: Digest -> string, p: Option<Pending>, rest: Text)
    requires WritesPlainly(hex) && LabelsArePlain(p)
    ensures J.WellFormed(PendingValue(hex, p))
    ensures BytesOf(hex, PendingText(p, rest)) == J.SpellOnto(JsonCanonical.Plain(PendingValue(hex, p)), BytesOf(hex, rest))
  {
    hide BytesOf, Members, J.WellFormed, J.IsLiteral, NeedsNoEscape, Ascii, Key, J.SpellOnto, JsonCanonical.Plain, KeysOf, CheckpointText, CheckpointValue;
    PendingIsWellFormed(hex, p);
    NullIsLiteral();
    match p {
      case None =>
        LitIsWritten(hex, "null", rest);
        LiteralIsSpelled(Ascii("null"), BytesOf(hex, rest));
      case Some(p) =>
        var names, vs, end := PENDING_KEYS, [CheckpointValue(hex, p.after), CheckpointValue(hex, p.before)], [J.RBRACE] + BytesOf(hex, rest);
        OtherKeysArePlain();
        assert names[1..][1..] == [] && vs[1..][1..] == [];
        BraceIsWritten(hex, rest);
        NoMembers(end);
        var close := Lit("}") + rest;
        CheckpointIsWritten(hex, p.before, close);
        BeforeText();
        ValueMember(hex, ",\"before\":", CheckpointText(p.before, close), close, [J.COMMA], names[1..], vs[1..], end);
        var second := Lit(",\"before\":") + CheckpointText(p.before, close);
        CheckpointIsWritten(hex, p.after, second);
        AfterText();
        ValueMember(hex, "{\"after\":", CheckpointText(p.after, second), second, [J.LBRACE], names, vs, end);
        ObjectIsSpelled(names, vs, BytesOf(hex, rest));
    }
  }

  lemma VersionIsWritten(hex: Digest -> string, vs: seq<J.Value>)
    requires vs == [J.Literal(Ascii("1"))] && forall v :: v in vs ==> J.WellFormed(v)
    ensures Writes(hex, Lit(",\"version\":1}"), [J.COMMA], ["version"], vs, [J.RBRACE])
  {
    hide BytesOf, Members, J.IsLiteral, NeedsNoEscape, Ascii, J.SpellOnto, JsonCanonical.Plain;
    OtherKeysArePlain();
    var names := ["version"];
    assert names[0] == WITNESS_KEYS[2] && names[1..] == [] && vs[1..] == [];
    NoMembers([J.RBRACE]);
    BytesOfLit(hex, ",\"version\":1}");
    EndText();
    NullIsLiteral();
    MembersByFirst(names, vs, [J.RBRACE]);
    assert J.Comma(false) + [J.RBRACE] == [J.RBRACE];
    LiteralIsSpelled(Ascii("1"), [J.RBRACE]);
  }

  // ---------------------------------------------------------------- in order

  lemma {:induction false} DecimalIsDigits(n: nat)
    ensures JsonCanonical.IsDigits(Ascii(Decimal(n)))
  {
    if n >= 10 {
      DecimalIsDigits(n / 10);
      AsciiOfConcat(Decimal(n / 10), [('0' as int + n % 10) as char]);
    }
  }

  lemma NumberIsNormal(float: Bytes -> Bytes, n: nat)
    ensures JsonCanonical.Normal(float, Number(n))
  {
    DecimalIsDigits(n);
    var t := Ascii(Decimal(n));
    assert t[0] in t;
  }

  lemma FirstCharDecides(a: string, b: string)
    requires a != "" && b != "" && a[0] < b[0] && b[0] as int < 128
    ensures JsonCanonical.KeyBefore(Ascii(a), Ascii(b))
  {
  }

  /** The initials of these keys ascend. */
  lemma InitialsAscend(names: seq<string>)
    requires forall i :: 0 <= i < |names| ==> names[i] != "" && names[i][0] as int < 128
    requires forall i, j :: 0 <= i < j < |names| ==> names[i][0] < names[j][0]
    ensures |KeysOf(names)| == |names| && JsonCanonical.KeysAscend(KeysOf(names))
  {
    hide Ascii, JsonCanonical.KeyBefore;
    KeysAre(names);
    forall i, j | 0 <= i < j < |names| ensures JsonCanonical.KeyBefore(Ascii(names[i]), Ascii(names[j])) { FirstCharDecides(names[i], names[j]); }
  }

  lemma {:induction false} KeysAre(names: seq<string>)
    ensures |KeysOf(names)| == |names| && forall i :: 0 <= i < |names| ==> KeysOf(names)[i] == Ascii(names[i])
  {
    if names != [] { KeysAre(names[1..]); }
  }

  lemma CheckpointIsNormal(float: Bytes -> Bytes, hex: Digest -> string, cp: Checkpoint)
    ensures JsonCanonical.Normal(float, CheckpointValue(hex, cp))
  {
    hide KeysOf, JsonCanonical.KeysAscend, Number, JsonCanonical.NumberText;
    InitialsAscend(CHECKPOINT_KEYS);
    NumberIsNormal(float, cp.sequence);
    NumberIsNormal(float, cp.version);
  }

  lemma WordsAreNormal(float: Bytes -> Bytes)
    ensures JsonCanonical.Normal(float, J.Literal(Ascii("null"))) && JsonCanonical.Normal(float, J.Literal(Ascii("1")))
  {
    assert Ascii("null") == [0x6E, 0x75, 0x6C, 0x6C] && Ascii("1") == [0x31];
  }

  lemma PendingIsNormal(float: Bytes -> Bytes, hex: Digest -> string, p: Option<Pending>)
    ensures JsonCanonical.Normal(float, PendingValue(hex, p))
  {
    hide KeysOf, JsonCanonical.KeysAscend, CheckpointValue, JsonCanonical.NumberText;
    InitialsAscend(PENDING_KEYS);
    WordsAreNormal(float);
    if p.Some? {
      CheckpointIsNormal(float, hex, p.value.after);
      CheckpointIsNormal(float, hex, p.value.before);
    }
  }

  /** Keys ascend at every level and every number is written as the encoder writes it. */
  lemma WitnessIsNormal(float: Bytes -> Bytes, hex: Digest -> string, w: Witness)
    ensures JsonCanonical.Normal(float, WitnessValue(hex, w))
  {
    hide KeysOf, JsonCanonical.KeysAscend, CheckpointValue, PendingValue, JsonCanonical.NumberText;
    InitialsAscend(WITNESS_KEYS);
    WordsAreNormal(float);
    CheckpointIsNormal(float, hex, w.committed);
    PendingIsNormal(float, hex, w.pending);
  }

  /** The witness file holds the plain rendering of the witness, which is in normal form by `WitnessIsNormal`: its canonical JSON text. */
  lemma WitnessIsCanonicalJson(hex: Digest -> string, w: Witness)
    requires WritesPlainly(hex) && IsLabel(w.committed.context)
    requires w.pending.Some? ==> IsLabel(w.pending.value.before.context) && IsLabel(w.pending.value.after.context)
    ensures J.WellFormed(WitnessValue(hex, w)) && BytesOf(hex, WitnessText(w)) == JsonCanonical.Render(WitnessValue(hex, w))
  {
    hide BytesOf, Members, J.WellFormed, J.IsLiteral, NeedsNoEscape, Ascii, Key, J.SpellOnto, JsonCanonical.Plain, KeysOf, CheckpointText, CheckpointValue,
         PendingText, PendingValue;
    WitnessIsWellFormed(hex, w);
    CheckpointIsWellFormed(hex, w.committed);
    PendingIsWellFormed(hex, w.pending);
    LabelsNeedNoEscape(w);
    OtherKeysArePlain();
    var names := WITNESS_KEYS;
    var vs, end := [CheckpointValue(hex, w.committed), PendingValue(hex, w.pending), J.Literal(Ascii("1"))], [J.RBRACE];
    OneIsWellFormed();
    assert names[2..] == ["version"] && vs[2..] == [J.Literal(Ascii("1"))] && names[1..][1..] == names[2..] && vs[1..][1..] == vs[2..];
    var last := Lit(",\"version\":1}");
    VersionIsWritten(hex, vs[2..]);
    PendingIsWritten(hex, w.pending, last);
    PendingKeyText();
    ValueMember(hex, ",\"pending\":", PendingText(w.pending, last), last, [J.COMMA], names[1..], vs[1..], end);
    var second := Lit(",\"pending\":") + PendingText(w.pending, last);
    CheckpointIsWritten(hex, w.committed, second);
    CommittedText();
    ValueMember(hex, "{\"committed\":", CheckpointText(w.committed, second), second, [J.LBRACE], names, vs, end);
    ObjectIsSpelled(names, vs, []);
    assert end + [] == end;
  }

  lemma OneIsWellFormed()
    ensures J.WellFormed(J.Literal(Ascii("1")))
  {
  }

  lemma LabelsNeedNoEscape(w: Witness)
    requires IsLabel(w.committed.context)
    requires w.pending.Some? ==> IsLabel(w.pending.value.before.context) && IsLabel(w.pending.value.after.context)
    ensures NeedsNoEscape(w.committed.context) && LabelsArePlain(w.pending)
  {
  }
}
