/**
 * The canonical text of a JSON value: members in key order, numbers as the encoder writes
 * them, no white space, and only the string escapes that section 7 of RFC 8259 requires.
 *
 * Main result: `CanonicalExactly` - a text is the canonical text of the value it means
 * exactly when that value is in normal form and the text is its plain rendering.
 */
module JsonCanonical {
  import opened Wrappers
  import opened JsonText
  import Ordering

  // -------------------------------------------------------------- rendering

  function PlainPiece(b: Byte): (p: Piece)
    ensures p.Valid() && p.Means() == [b]
  {
    if b == QUOTE || b == BACKSLASH then Short(b)
    else if b == 0x08 then Short(0x62)
    else if b == 0x09 then Short(0x74)
    else if b == 0x0A then Short(0x6E)
    else if b == 0x0C then Short(0x66)
    else if b == 0x0D then Short(0x72)
    else if b < 0x20 then
      var p := Unit(0x30, 0x30, HexDigit(b as int / 16), HexDigit(b as int % 16));
      assert p.Code() == b as int;
      p
    else Raw(b)
  }

  /** No digit of an escape is an upper-case letter. */
  ghost predicate LowerCase(p: Piece) {
    forall i :: 0 <= i < |p.Bytes()| ==> !(0x41 <= p.Bytes()[i] <= 0x46)
  }

  /** Only a lower-case unit escape spells a control byte as a unit. */
  lemma UnitIsPlain(b: Byte, p: Piece)
    requires p.Unit? && p.Valid() && p.Means() == [b] && LowerCase(p) && b < 0x20
    ensures p == Unit(0x30, 0x30, HexDigit(b as int / 16), HexDigit(b as int % 16))
  {
    hide HexValue, Utf8;
    Utf8Exactly(p.Code());
    var t := p.Bytes();
    assert t[2] == p.a && t[3] == p.b && t[4] == p.c && t[5] == p.d;
    HexDigitIs(p.a);
    HexDigitIs(p.b);
    HexDigitIs(p.c);
    HexDigitIs(p.d);
    DigitsOfSmall(HexValue(p.a), HexValue(p.b), HexValue(p.c), HexValue(p.d), b as int);
  }

  lemma DigitsOfSmall(a: nat, b: nat, c: nat, d: nat, n: nat)
    requires 4096 * a + 256 * b + 16 * c + d == n < 0x20 && d < 16
    ensures a == 0 && b == 0 && c == n / 16 && d == n % 16
  {
  }

  /** A byte is written in the shortest way there is, with lower-case digits, which leaves one way only. */
  lemma PlainPieceIsShortest(b: Byte, p: Piece)
    requires p.Valid() && p.Means() == [b]
    ensures |PlainPiece(b).Bytes()| <= |p.Bytes()|
    ensures |p.Bytes()| == |PlainPiece(b).Bytes()| && (p.Unit? ==> LowerCase(p)) ==> p == PlainPiece(b)
  {
    hide LowerCase, HexDigit, HexValue, Utf8;
    match p {
      case Raw(_) =>
      case Short(_) =>
      case Unit(_, _, _, _) => if LowerCase(p) && b < 0x20 { UnitIsPlain(b, p); }
      case Pair(_, _, _, _, _, _, _, _) => Utf8Exactly(0x10000 + 1024 * (p.Code() - 0xD800) + (p.Low() - 0xDC00));
    }
  }

  function PlainPieces(content: Bytes): (ps: seq<Piece>)
    ensures ValidPieces(ps) && PiecesMean(ps) == content
  {
    if content == [] then []
    else
      var ps := [PlainPiece(content[0])] + PlainPieces(content[1..]);
      assert ps[1..] == PlainPieces(content[1..]) && content == [content[0]] + content[1..];
      ps
  }

  function Plain(v: Value): (s: Spelling)
    requires WellFormed(v)
    ensures Valid(s) && Meaning(s) == v
    decreases v, 1
  {
    match v
    case Object(keys, values) => SObject([], [], PlainKeys(keys), PlainValues(values), [])
    case Array(items) => SArray([], [], PlainValues(items), [])
    case Text(content) => SText([], PlainPieces(content), [])
    case Literal(content) => SLiteral([], content, [])
  }

  function PlainValues(vs: seq<Value>): (ss: seq<Spelling>)
    requires forall v :: v in vs ==> WellFormed(v)
    ensures |ss| == |vs| && AllValid(ss) && Meanings(ss) == vs
    decreases vs, 0
  {
    if vs == [] then []
    else
      var ss := [Plain(vs[0])] + PlainValues(vs[1..]);
      assert ss[1..] == PlainValues(vs[1..]) && vs == [vs[0]] + vs[1..];
      ss
  }

  function PlainKeys(keys: seq<Bytes>): (ks: seq<KeySpelling>)
    ensures |ks| == |keys| && ValidKeys(ks) && KeysMean(ks) == keys
  {
    if keys == [] then []
    else
      var ks := [KeySpelling([], PlainPieces(keys[0]), [])] + PlainKeys(keys[1..]);
      assert ks[1..] == PlainKeys(keys[1..]) && keys == [keys[0]] + keys[1..];
      ks
  }

  /** The plain text of a value, members in the order given. */
  function Render(v: Value): Bytes
    requires WellFormed(v)
  {
    Spell(Plain(v))
  }

  lemma RenderIsText(v: Value)
    requires WellFormed(v)
    ensures IsText(Render(v), v)
  {
    assert Valid(Plain(v)) && Spell(Plain(v)) == Render(v) && Meaning(Plain(v)) == v;
  }

  // ----------------------------------------------------------------- numbers

  /** Integers and the three words, which the encoder writes as they are. */
  predicate Whole(t: Bytes) {
    || t == [0x74, 0x72, 0x75, 0x65] || t == [0x66, 0x61, 0x6C, 0x73, 0x65] || t == [0x6E, 0x75, 0x6C, 0x6C]
    || (t != [] && IsDigits(if t[0] == 0x2D then t[1..] else t))
  }

  predicate IsDigits(t: Bytes) {
    t != [] && forall b :: b in t ==> 0x30 <= b <= 0x39
  }

  const MINUS_ZERO: Bytes := [0x2D, 0x30]

  /** How the encoder writes a literal; `float` is its text for a number that is no integer. */
  function NumberText(float: Bytes -> Bytes, t: Bytes): Bytes {
    if t == MINUS_ZERO then [0x30] else if Whole(t) then t else float(t)
  }

  /** Which literals the encoder leaves alone: the three words, integers other than minus zero, and floats in its own spelling. */
  lemma SettledExactly(float: Bytes -> Bytes, t: Bytes)
    requires IsLiteral(t)
    ensures NumberText(float, t) == t <==>
            && t != [0x2D, 0x30]
            && (|| t in {[0x74, 0x72, 0x75, 0x65], [0x66, 0x61, 0x6C, 0x73, 0x65], [0x6E, 0x75, 0x6C, 0x6C]}
                || (forall i :: 0 <= i < |t| ==> 0x30 <= t[i] <= 0x39)
                || (t[0] == 0x2D && |t| > 1 && forall i :: 0 < i < |t| ==> 0x30 <= t[i] <= 0x39)
                || float(t) == t)
    ensures NumberText(float, [0x2D, 0x30]) == [0x30]
  {
    DigitsExactly(t);
    DigitsExactly(t[1..]);
    assert forall i :: 0 < i < |t| ==> t[i] == t[1..][i - 1];
  }

  lemma DigitsExactly(t: Bytes)
    ensures IsDigits(t) <==> t != [] && forall i :: 0 <= i < |t| ==> 0x30 <= t[i] <= 0x39
  {
    assert forall i :: 0 <= i < |t| ==> t[i] in t;
  }

  /** Rewriting a float gives a float that stays as it is. */
  ghost predicate RewritesFloats(float: Bytes -> Bytes) {
    forall t :: IsLiteral(t) && !Whole(t) ==> IsLiteral(float(t)) && !Whole(float(t)) && float(float(t)) == float(t)
  }

  lemma NumberTextSettles(float: Bytes -> Bytes, t: Bytes)
    requires RewritesFloats(float) && IsLiteral(t)
    ensures IsLiteral(NumberText(float, t)) && NumberText(float, NumberText(float, t)) == NumberText(float, t)
  {
    assert IsDigits([0x30]) && Whole([0x30]);
    if t != MINUS_ZERO && !Whole(t) {
      assert MINUS_ZERO[1..] == [0x30];
      assert Whole(MINUS_ZERO);
      assert IsLiteral(float(t)) && !Whole(float(t)) && float(float(t)) == float(t);
    }
  }

  // ------------------------------------------------------------- member order

  function ByteRank(b: Byte): int {
    b as int
  }

  /** Lexicographic order on bytes, which on UTF-8 is the order of code points. */
  predicate KeyBefore(a: Bytes, b: Bytes) {
    Ordering.Precedes(ByteRank, a, b)
  }

  lemma KeyBeforeIsTotal(a: Bytes, b: Bytes)
    ensures a == b || KeyBefore(a, b) || KeyBefore(b, a)
    ensures !(KeyBefore(a, b) && KeyBefore(b, a)) && !KeyBefore(a, a)
  {
    Ordering.PrecedesIsTotal(ByteRank, a, b);
  }

  lemma KeyBeforeIsTransitive(a: Bytes, b: Bytes, c: Bytes)
    requires KeyBefore(a, b) && KeyBefore(b, c)
    ensures KeyBefore(a, c)
  {
    Ordering.PrecedesIsTransitive(ByteRank, a, b, c);
  }

  ghost predicate KeysAscend(keys: seq<Bytes>) {
    forall i, j :: 0 <= i < j < |keys| ==> KeyBefore(keys[i], keys[j])
  }

  function InsertMember(k: Bytes, v: Value, keys: seq<Bytes>, values: seq<Value>): (r: (seq<Bytes>, seq<Value>))
    requires |keys| == |values|
    ensures |r.0| == |r.1| == |keys| + 1
  {
    if keys == [] || !KeyBefore(keys[0], k) then ([k] + keys, [v] + values)
    else
      var (ks, vs) := InsertMember(k, v, keys[1..], values[1..]);
      ([keys[0]] + ks, [values[0]] + vs)
  }

  function SortMembers(keys: seq<Bytes>, values: seq<Value>): (r: (seq<Bytes>, seq<Value>))
    requires |keys| == |values|
    ensures |r.0| == |r.1| == |keys|
  {
    if keys == [] then ([], [])
    else
      var (ks, vs) := SortMembers(keys[1..], values[1..]);
      InsertMember(keys[0], values[0], ks, vs)
  }

  ghost predicate HasMember(keys: seq<Bytes>, values: seq<Value>, k: Bytes, v: Value)
    requires |keys| == |values|
  {
    exists i :: 0 <= i < |keys| && keys[i] == k && values[i] == v
  }

  lemma MemberByFirst(keys: seq<Bytes>, values: seq<Value>, k: Bytes, v: Value)
    requires |keys| == |values| && keys != []
    ensures HasMember(keys, values, k, v) <==> (keys[0] == k && values[0] == v) || HasMember(keys[1..], values[1..], k, v)
  {
    if i :| 0 <= i < |keys| && keys[i] == k && values[i] == v {
      if i > 0 { assert keys[1..][i - 1] == k && values[1..][i - 1] == v; }
    }
    if i :| 0 <= i < |keys[1..]| && keys[1..][i] == k && values[1..][i] == v {
      assert keys[i + 1] == k && values[i + 1] == v;
    }
  }

  lemma {:induction false} InsertKeepsMembers(k: Bytes, v: Value, keys: seq<Bytes>, values: seq<Value>, k': Bytes, v': Value)
    requires |keys| == |values|
    ensures var (ks, vs) := InsertMember(k, v, keys, values);
      HasMember(ks, vs, k', v') <==> (k == k' && v == v') || HasMember(keys, values, k', v')
  {
    hide HasMember;
    var (ks, vs) := InsertMember(k, v, keys, values);
    MemberByFirst(ks, vs, k', v');
    if keys != [] && KeyBefore(keys[0], k) {
      InsertKeepsMembers(k, v, keys[1..], values[1..], k', v');
      MemberByFirst(keys, values, k', v');
      var rest := InsertMember(k, v, keys[1..], values[1..]);
      assert ks[1..] == rest.0 && vs[1..] == rest.1;
    } else {
      assert ks[1..] == keys && vs[1..] == values;
    }
  }

  /** Sorting keeps every member, key with value. */
  lemma {:induction false} SortKeepsMembers(keys: seq<Bytes>, values: seq<Value>, k: Bytes, v: Value)
    requires |keys| == |values|
    ensures var (ks, vs) := SortMembers(keys, values); HasMember(ks, vs, k, v) <==> HasMember(keys, values, k, v)
  {
    hide HasMember;
    if keys != [] {
      var (ks, vs) := SortMembers(keys[1..], values[1..]);
      SortKeepsMembers(keys[1..], values[1..], k, v);
      InsertKeepsMembers(keys[0], values[0], ks, vs, k, v);
      MemberByFirst(keys, values, k, v);
    }
  }

  lemma {:induction false} InsertAscends(k: Bytes, v: Value, keys: seq<Bytes>, values: seq<Value>)
    requires |keys| == |values| && KeysAscend(keys) && k !in keys
    ensures KeysAscend(InsertMember(k, v, keys, values).0)
    ensures forall x :: x in InsertMember(k, v, keys, values).0 <==> x == k || x in keys
  {
    if keys == [] {
    } else if KeyBefore(keys[0], k) {
      var rest := InsertMember(k, v, keys[1..], values[1..]).0;
      InsertAscends(k, v, keys[1..], values[1..]);
      assert forall x :: x in keys <==> x == keys[0] || x in keys[1..];
      forall j | 0 <= j < |rest| ensures KeyBefore(keys[0], rest[j]) { assert rest[j] in rest; }
    } else {
      KeyBeforeIsTotal(k, keys[0]);
      forall j | 0 <= j < |keys| ensures KeyBefore(k, keys[j]) {
        if j > 0 { KeyBeforeIsTransitive(k, keys[0], keys[j]); }
      }
    }
  }

  ghost predicate NoRepeats(keys: seq<Bytes>) {
    forall i, j :: 0 <= i < j < |keys| ==> keys[i] != keys[j]
  }

  lemma {:induction false} SortAscends(keys: seq<Bytes>, values: seq<Value>)
    requires |keys| == |values| && NoRepeats(keys)
    ensures KeysAscend(SortMembers(keys, values).0)
    ensures forall x :: x in SortMembers(keys, values).0 <==> x in keys
  {
    if keys != [] {
      var (ks, vs) := SortMembers(keys[1..], values[1..]);
      SortAscends(keys[1..], values[1..]);
      assert keys[0] !in keys[1..];
      InsertAscends(keys[0], values[0], ks, vs);
      assert forall x :: x in keys <==> x == keys[0] || x in keys[1..];
    }
  }

  lemma {:induction false} AscendingIsSorted(keys: seq<Bytes>, values: seq<Value>)
    requires |keys| == |values| && KeysAscend(keys)
    ensures SortMembers(keys, values) == (keys, values)
  {
    if keys != [] {
      AscendingIsSorted(keys[1..], values[1..]);
      if |keys| > 1 { KeyBeforeIsTotal(keys[0], keys[1]); }
      assert keys == [keys[0]] + keys[1..] && values == [values[0]] + values[1..];
    }
  }

  // -------------------------------------------------------------- normal form

  /** What encoding makes of a decoded value. */
  function Normalize(float: Bytes -> Bytes, v: Value): Value
    decreases v, 1
  {
    match v
    case Object(keys, values) =>
      if |keys| != |values| then v
      else
        var (ks, vs) := SortMembers(keys, NormalizeAll(float, values));
        Object(ks, vs)
    case Array(items) => Array(NormalizeAll(float, items))
    case Text(_) => v
    case Literal(content) => Literal(NumberText(float, content))
  }

  function NormalizeAll(float: Bytes -> Bytes, vs: seq<Value>): (r: seq<Value>)
    ensures |r| == |vs|
    decreases vs, 0
  {
    if vs == [] then [] else [Normalize(float, vs[0])] + NormalizeAll(float, vs[1..])
  }

  /** Keys strictly ascend at every level and every number is written as the encoder writes it. */
  ghost predicate Normal(float: Bytes -> Bytes, v: Value) {
    match v
    case Object(keys, values) => |keys| == |values| && KeysAscend(keys) && forall x :: x in values ==> Normal(float, x)
    case Array(items) => forall x :: x in items ==> Normal(float, x)
    case Text(_) => true
    case Literal(content) => NumberText(float, content) == content
  }

  /** No object repeats a key, as the decoder guarantees. */
  ghost predicate UniqueKeys(v: Value) {
    match v
    case Object(keys, values) => NoRepeats(keys) && forall x :: x in values ==> UniqueKeys(x)
    case Array(items) => forall x :: x in items ==> UniqueKeys(x)
    case _ => true
  }

  lemma {:induction false} NormalIsFixed(float: Bytes -> Bytes, v: Value)
    requires Normal(float, v)
    ensures Normalize(float, v) == v
    decreases v, 1
  {
    match v
    case Object(keys, values) =>
      NormalAreFixed(float, values);
      AscendingIsSorted(keys, values);
    case Array(items) => NormalAreFixed(float, items);
    case _ =>
  }

  lemma {:induction false} NormalAreFixed(float: Bytes -> Bytes, vs: seq<Value>)
    requires forall v :: v in vs ==> Normal(float, v)
    ensures NormalizeAll(float, vs) == vs
    decreases vs, 0
  {
    if vs != [] {
      NormalIsFixed(float, vs[0]);
      NormalAreFixed(float, vs[1..]);
    }
  }

  lemma SortedValuesAreOld(keys: seq<Bytes>, values: seq<Value>)
    requires |keys| == |values|
    ensures forall x :: x in SortMembers(keys, values).1 ==> x in values
  {
    var (ks, vs) := SortMembers(keys, values);
    forall x | x in vs ensures x in values {
      var i :| 0 <= i < |vs| && vs[i] == x;
      assert HasMember(ks, vs, ks[i], x);
      SortKeepsMembers(keys, values, ks[i], x);
    }
  }

  /** Normalizing gives a normal form. */
  lemma {:induction false} NormalizedIsNormal(float: Bytes -> Bytes, v: Value)
    requires RewritesFloats(float) && WellFormed(v) && UniqueKeys(v)
    ensures Normal(float, Normalize(float, v)) && WellFormed(Normalize(float, v))
    decreases v, 1
  {
    hide RewritesFloats, NumberText, IsLiteral;
    match v
    case Object(keys, values) =>
      var all := NormalizeAll(float, values);
      NormalizedAreNormal(float, values);
      SortAscends(keys, all);
      SortedValuesAreOld(keys, all);
    case Array(items) => NormalizedAreNormal(float, items);
    case Text(_) =>
    case Literal(content) => NumberTextSettles(float, content);
  }

  lemma {:induction false} NormalizedAreNormal(float: Bytes -> Bytes, vs: seq<Value>)
    requires RewritesFloats(float) && forall v :: v in vs ==> WellFormed(v) && UniqueKeys(v)
    ensures forall v :: v in NormalizeAll(float, vs) ==> Normal(float, v) && WellFormed(v)
    decreases vs, 0
  {
    hide RewritesFloats, Normal, WellFormed, UniqueKeys, Normalize;
    if vs != [] {
      NormalizedIsNormal(float, vs[0]);
      NormalizedAreNormal(float, vs[1..]);
    }
  }

  /** The canonical text of a value. */
  function CanonicalText(float: Bytes -> Bytes, v: Value): Bytes
    requires WellFormed(Normalize(float, v))
  {
    Render(Normalize(float, v))
  }

  /** A text is the canonical text of its value exactly when the value is normal and the text its plain rendering. */
  lemma CanonicalExactly(float: Bytes -> Bytes, t: Bytes, v: Value)
    requires RewritesFloats(float) && IsText(t, v) && WellFormed(v) && UniqueKeys(v)
    ensures WellFormed(Normalize(float, v))
    ensures t == CanonicalText(float, v) <==> Normal(float, v) && t == Render(v)
  {
    hide RewritesFloats, WellFormed, Normal, IsText, Normalize, Render;
    NormalizedIsNormal(float, v);
    if t == CanonicalText(float, v) {
      RenderIsText(Normalize(float, v));
      TextMeansOneValue(t, v, Normalize(float, v));
    }
    if Normal(float, v) { NormalIsFixed(float, v); }
  }
}
