/**
 * JSON texts: every way to spell a value, with white space and any string escapes, and the
 * value a text means.
 *
 * Spelling functions put a part in front of what follows it. Strings are the bytes of their
 * UTF-8 form, so a lone surrogate escape, which has none, is not a spelling.
 *
 * Main result: `TextMeansOneValue`.
 */
module JsonText {
  import opened Wrappers

  type Bytes = seq<Byte>

  const QUOTE: Byte := 0x22
  const BACKSLASH: Byte := 0x5C
  const COMMA: Byte := 0x2C
  const COLON: Byte := 0x3A
  const LBRACE: Byte := 0x7B
  const RBRACE: Byte := 0x7D
  const LBRACKET: Byte := 0x5B
  const RBRACKET: Byte := 0x5D
  const UNICODE: Byte := 0x75

  /** A value; an object lists its members in document order, a literal is a number, true, false or null as written. */
  datatype Value =
    | Object(keys: seq<Bytes>, values: seq<Value>)
    | Array(items: seq<Value>)
    | Text(content: Bytes)
    | Literal(content: Bytes)

  predicate IsGap(b: Byte) {
    b == 0x20 || b == 0x09 || b == 0x0A || b == 0x0D
  }

  predicate GapOnly(t: Bytes) {
    forall b :: b in t ==> IsGap(b)
  }

  /** The bytes of numbers and of the three words. */
  predicate LiteralByte(b: Byte) {
    0x30 <= b <= 0x39 || 0x41 <= b <= 0x5A || 0x61 <= b <= 0x7A || b == 0x2B || b == 0x2D || b == 0x2E
  }

  predicate IsLiteral(t: Bytes) {
    t != [] && forall b :: b in t ==> LiteralByte(b)
  }

  predicate WellFormed(v: Value) {
    match v
    case Object(keys, values) => |keys| == |values| && forall x :: x in values ==> WellFormed(x)
    case Array(items) => forall x :: x in items ==> WellFormed(x)
    case Text(_) => true
    case Literal(content) => IsLiteral(content)
  }

  // ---------------------------------------------------------------- strings

  predicate IsHexDigit(b: Byte) {
    0x30 <= b <= 0x39 || 0x41 <= b <= 0x46 || 0x61 <= b <= 0x66
  }

  function HexValue(b: Byte): (n: nat)
    ensures n < 16
  {
    if b <= 0x39 then (if b >= 0x30 then b as int - 0x30 else 0)
    else if b <= 0x46 then (if b >= 0x41 then b as int - 0x37 else 0)
    else if 0x61 <= b <= 0x66 then b as int - 0x57 else 0
  }

  function HexCode(a: Byte, b: Byte, c: Byte, d: Byte): (n: nat)
    ensures n < 0x10000
  {
    4096 * HexValue(a) + 256 * HexValue(b) + 16 * HexValue(c) + HexValue(d)
  }

  function HexDigit(n: int): Byte
    requires 0 <= n < 16
  {
    if n < 10 then (0x30 + n) as Byte else (0x57 + n) as Byte
  }

  /** The UTF-8 form of a code point. */
  function Utf8(code: nat): Bytes
    requires code < 0x110000
  {
    if code < 0x80 then [code as Byte]
    else if code < 0x800 then [(0xC0 + code / 64) as Byte, (0x80 + code % 64) as Byte]
    else if code < 0x10000 then [(0xE0 + code / 4096) as Byte, (0x80 + code / 64 % 64) as Byte, (0x80 + code % 64) as Byte]
    else [(0xF0 + code / 262144) as Byte, (0x80 + code / 4096 % 64) as Byte, (0x80 + code / 64 % 64) as Byte, (0x80 + code % 64) as Byte]
  }

  /** A continuation byte of UTF-8. */
  predicate Continues(b: Byte) {
    0x80 <= b <= 0xBF
  }

  /** The length of the UTF-8 form and the code point its bytes carry, by section 3 of RFC 3629. */
  lemma Utf8Exactly(code: nat)
    requires code < 0x110000
    ensures var u := Utf8(code);
      && |u| == (if code <= 0x7F then 1 else if code <= 0x7FF then 2 else if code <= 0xFFFF then 3 else 4)
      && (forall i :: 0 < i < |u| ==> Continues(u[i]))
      && (|u| == 1 ==> code == u[0] as int)
      && (|u| == 2 ==> 0xC2 <= u[0] <= 0xDF && code == (u[0] as int - 0xC0) * 64 + (u[1] as int - 0x80))
      && (|u| == 3 ==> 0xE0 <= u[0] <= 0xEF && code == (u[0] as int - 0xE0) * 4096 + (u[1] as int - 0x80) * 64 + (u[2] as int - 0x80))
      && (|u| == 4 ==> 0xF0 <= u[0] <= 0xF4
                       && code == (u[0] as int - 0xF0) * 262144 + (u[1] as int - 0x80) * 4096 + (u[2] as int - 0x80) * 64 + (u[3] as int - 0x80))
  {
    assert code / 4096 == code / 64 / 64 && code / 262144 == code / 64 / 64 / 64;
  }

  /** Four lower-case digits spell a number below 65536. */
  lemma HexExactly(n: nat)
    requires n < 0x10000
    ensures HexCode(HexDigit(n / 4096), HexDigit(n / 256 % 16), HexDigit(n / 16 % 16), HexDigit(n % 16)) == n
  {
    assert n / 256 == n / 16 / 16 && n / 4096 == n / 16 / 16 / 16;
  }

  /** A digit is the lower-case one of its value, or that letter in upper case. */
  lemma HexDigitIs(b: Byte)
    requires IsHexDigit(b)
    ensures if 0x41 <= b <= 0x46 then (b as int + 0x20) as Byte == HexDigit(HexValue(b)) else b == HexDigit(HexValue(b))
  {
  }

  /** A part of a string: a plain byte, a two-byte escape, a unit escape, or an escaped surrogate pair. */
  datatype Piece =
    | Raw(byte: Byte)
    | Short(byte: Byte)
    | Unit(a: Byte, b: Byte, c: Byte, d: Byte)
    | Pair(a: Byte, b: Byte, c: Byte, d: Byte, e: Byte, f: Byte, g: Byte, h: Byte)
  {
    function Code(): nat
      requires !Raw? && !Short?
    {
      HexCode(a, b, c, d)
    }

    function Low(): nat
      requires Pair?
    {
      HexCode(e, f, g, h)
    }

    predicate Valid() {
      match this
      case Raw(x) => x >= 0x20 && x != QUOTE && x != BACKSLASH
      case Short(x) => x in [QUOTE, BACKSLASH, 0x2F, 0x62, 0x66, 0x6E, 0x72, 0x74]
      case Unit(_, _, _, _) => IsHexDigit(a) && IsHexDigit(b) && IsHexDigit(c) && IsHexDigit(d) && !(0xD800 <= Code() <= 0xDFFF)
      case Pair(_, _, _, _, _, _, _, _) =>
        && IsHexDigit(a) && IsHexDigit(b) && IsHexDigit(c) && IsHexDigit(d) && 0xD800 <= Code() <= 0xDBFF
        && IsHexDigit(e) && IsHexDigit(f) && IsHexDigit(g) && IsHexDigit(h) && 0xDC00 <= Low() <= 0xDFFF
    }

    function Bytes(): (t: seq<Byte>)
      ensures t != []
    {
      match this
      case Raw(x) => [x]
      case Short(x) => [BACKSLASH, x]
      case Unit(_, _, _, _) => [BACKSLASH, UNICODE, a, b, c, d]
      case Pair(_, _, _, _, _, _, _, _) => [BACKSLASH, UNICODE, a, b, c, d, BACKSLASH, UNICODE, e, f, g, h]
    }

    function Means(): seq<Byte>
      requires Valid()
    {
      match this
      case Raw(x) => [x]
      case Short(x) => [if x == 0x62 then 0x08 else if x == 0x66 then 0x0C else if x == 0x6E then 0x0A
                        else if x == 0x72 then 0x0D else if x == 0x74 then 0x09 else x]
      case Unit(_, _, _, _) => Utf8(Code())
      case Pair(_, _, _, _, _, _, _, _) => Utf8(0x10000 + 1024 * (Code() - 0xD800) + (Low() - 0xDC00))
    }
  }

  predicate ValidPieces(ps: seq<Piece>) {
    forall p :: p in ps ==> p.Valid()
  }

  function PiecesOnto(ps: seq<Piece>, rest: Bytes): Bytes {
    if ps == [] then rest else ps[0].Bytes() + PiecesOnto(ps[1..], rest)
  }

  function PiecesMean(ps: seq<Piece>): Bytes
    requires ValidPieces(ps)
  {
    if ps == [] then [] else ps[0].Means() + PiecesMean(ps[1..])
  }

  // -------------------------------------------------------------- spellings

  datatype KeySpelling = KeySpelling(before: Bytes, pieces: seq<Piece>, after: Bytes)

  datatype Spelling =
    | SObject(before: Bytes, inner: Bytes, keys: seq<KeySpelling>, values: seq<Spelling>, after: Bytes)
    | SArray(before: Bytes, inner: Bytes, items: seq<Spelling>, after: Bytes)
    | SText(before: Bytes, pieces: seq<Piece>, after: Bytes)
    | SLiteral(before: Bytes, content: Bytes, after: Bytes)

  predicate ValidKeys(keys: seq<KeySpelling>) {
    forall k :: k in keys ==> GapOnly(k.before) && ValidPieces(k.pieces) && GapOnly(k.after)
  }

  predicate Valid(s: Spelling) {
    GapOnly(s.before) && GapOnly(s.after) &&
    match s
    case SObject(_, inner, keys, values, _) =>
      GapOnly(inner) && |keys| == |values| && ValidKeys(keys) && forall x :: x in values ==> Valid(x)
    case SArray(_, inner, items, _) => GapOnly(inner) && forall x :: x in items ==> Valid(x)
    case SText(_, pieces, _) => ValidPieces(pieces)
    case SLiteral(_, content, _) => IsLiteral(content)
  }

  predicate AllValid(ss: seq<Spelling>) {
    forall s :: s in ss ==> Valid(s)
  }

  function SpellOnto(s: Spelling, rest: Bytes): Bytes
    requires Valid(s)
    decreases s, 1
  {
    match s
    case SObject(before, inner, keys, values, after) =>
      before + ([LBRACE] + (inner + MembersOnto(keys, values, [RBRACE] + (after + rest))))
    case SArray(before, inner, items, after) =>
      before + ([LBRACKET] + (inner + ItemsOnto(items, [RBRACKET] + (after + rest))))
    case SText(before, pieces, after) => before + ([QUOTE] + PiecesOnto(pieces, [QUOTE] + (after + rest)))
    case SLiteral(before, content, after) => before + (content + (after + rest))
  }

  function Comma(more: bool): Bytes {
    if more then [COMMA] else []
  }

  function ItemsOnto(items: seq<Spelling>, rest: Bytes): Bytes
    requires AllValid(items)
    decreases items, 0
  {
    if items == [] then rest
    else SpellOnto(items[0], Comma(|items| > 1) + ItemsOnto(items[1..], rest))
  }

  function KeyOnto(k: KeySpelling, rest: Bytes): Bytes {
    k.before + ([QUOTE] + PiecesOnto(k.pieces, [QUOTE] + (k.after + rest)))
  }

  function MembersOnto(keys: seq<KeySpelling>, values: seq<Spelling>, rest: Bytes): Bytes
    requires |keys| == |values| && AllValid(values)
    decreases values, 0
  {
    if values == [] then rest
    else KeyOnto(keys[0], [COLON] + SpellOnto(values[0], Comma(|values| > 1) + MembersOnto(keys[1..], values[1..], rest)))
  }

  function Spell(s: Spelling): Bytes
    requires Valid(s)
  {
    SpellOnto(s, [])
  }

  function Meaning(s: Spelling): (v: Value)
    requires Valid(s)
    ensures WellFormed(v)
    decreases s, 1
  {
    match s
    case SObject(_, _, keys, values, _) => Object(KeysMean(keys), Meanings(values))
    case SArray(_, _, items, _) => Array(Meanings(items))
    case SText(_, pieces, _) => Text(PiecesMean(pieces))
    case SLiteral(_, content, _) => Literal(content)
  }

  function Meanings(ss: seq<Spelling>): (vs: seq<Value>)
    requires AllValid(ss)
    ensures |vs| == |ss| && forall v :: v in vs ==> WellFormed(v)
    decreases ss, 0
  {
    if ss == [] then [] else [Meaning(ss[0])] + Meanings(ss[1..])
  }

  function KeysMean(keys: seq<KeySpelling>): (ks: seq<Bytes>)
    requires ValidKeys(keys)
    ensures |ks| == |keys|
  {
    if keys == [] then [] else [PiecesMean(keys[0].pieces)] + KeysMean(keys[1..])
  }

  /** The text is one of the spellings of the value. */
  ghost predicate IsText(t: Bytes, v: Value) {
    exists s :: Valid(s) && Spell(s) == t && Meaning(s) == v
  }

  // ---------------------------------------------------------------- reading

  function SkipGap(t: Bytes): (r: Bytes)
    ensures |r| <= |t|
  {
    if t != [] && IsGap(t[0]) then SkipGap(t[1..]) else t
  }

  function Head(t: Bytes, n: nat): Byte {
    if n < |t| then t[n] else 0
  }

  /** The first piece of the rest of a string. */
  function ReadPiece(t: Bytes): (r: Option<Piece>)
    ensures r.Some? ==> r.value.Valid() && |r.value.Bytes()| <= |t|
  {
    if t == [] then None
    else if t[0] != BACKSLASH then (if Raw(t[0]).Valid() then Some(Raw(t[0])) else None)
    else if Head(t, 1) != UNICODE then (if |t| >= 2 && Short(t[1]).Valid() then Some(Short(t[1])) else None)
    else if |t| < 6 then None
    else
      var unit := Unit(t[2], t[3], t[4], t[5]);
      if unit.Valid() then Some(unit)
      else if |t| < 12 || t[6] != BACKSLASH || t[7] != UNICODE then None
      else
        var pair := Pair(t[2], t[3], t[4], t[5], t[8], t[9], t[10], t[11]);
        if pair.Valid() then Some(pair) else None
  }

  /** The rest of a string, up to its closing quote, and what follows. */
  function ReadString(t: Bytes): (r: Option<(Bytes, Bytes)>)
    ensures r.Some? ==> |r.value.1| < |t|
    decreases |t|
  {
    if t != [] && t[0] == QUOTE then Some(([], t[1..]))
    else
      var piece :- ReadPiece(t);
      var (content, rest) :- ReadString(t[|piece.Bytes()|..]);
      Some((piece.Means() + content, rest))
  }

  function LiteralSpan(t: Bytes): (n: nat)
    ensures n <= |t|
  {
    if t != [] && LiteralByte(t[0]) then 1 + LiteralSpan(t[1..]) else 0
  }

  /** A value with the white space around it, and what follows. */
  function Read(t: Bytes): (r: Option<(Value, Bytes)>)
    ensures r.Some? ==> |r.value.1| < |t|
    decreases |t|, 1
  {
    var u := SkipGap(t);
    if u == [] then None
    else if u[0] == LBRACE then
      var w := SkipGap(u[1..]);
      if w != [] && w[0] == RBRACE then Some((Object([], []), SkipGap(w[1..])))
      else
        var (keys, values, rest) :- ReadMembers(u[1..]);
        Some((Object(keys, values), SkipGap(rest)))
    else if u[0] == LBRACKET then
      var w := SkipGap(u[1..]);
      if w != [] && w[0] == RBRACKET then Some((Array([]), SkipGap(w[1..])))
      else
        var (items, rest) :- ReadItems(u[1..]);
        Some((Array(items), SkipGap(rest)))
    else if u[0] == QUOTE then
      var (content, rest) :- ReadString(u[1..]);
      Some((Text(content), SkipGap(rest)))
    else
      var n := LiteralSpan(u);
      if n == 0 then None else Some((Literal(u[..n]), SkipGap(u[n..])))
  }

  /** The remaining items of an array, up to its closing bracket, and what follows. */
  function ReadItems(t: Bytes): (r: Option<(seq<Value>, Bytes)>)
    ensures r.Some? ==> |r.value.1| < |t|
    decreases |t|, 2
  {
    var (v, rest) :- Read(t);
    if rest != [] && rest[0] == COMMA then
      var (vs, last) :- ReadItems(rest[1..]);
      Some(([v] + vs, last))
    else if rest != [] && rest[0] == RBRACKET then Some(([v], rest[1..]))
    else None
  }

  /** The remaining members of an object, up to its closing brace, and what follows. */
  function ReadMembers(t: Bytes): (r: Option<(seq<Bytes>, seq<Value>, Bytes)>)
    ensures r.Some? ==> |r.value.2| < |t|
    decreases |t|, 2
  {
    var u := SkipGap(t);
    if u == [] || u[0] != QUOTE then None
    else
      var (key, afterKey) :- ReadString(u[1..]);
      var colon := SkipGap(afterKey);
      if colon == [] || colon[0] != COLON then None
      else
        var (v, rest) :- Read(colon[1..]);
        if rest != [] && rest[0] == COMMA then
          var (ks, vs, last) :- ReadMembers(rest[1..]);
          Some(([key] + ks, [v] + vs, last))
        else if rest != [] && rest[0] == RBRACE then Some(([key], [v], rest[1..]))
        else None
  }

  // ------------------------------------------------- spellings are read back

  lemma {:induction false} SkipGapOver(g: Bytes, x: Bytes)
    requires GapOnly(g)
    ensures SkipGap(g + x) == SkipGap(x)
    decreases |g|
  {
    if g == [] {
      assert g + x == x;
    } else {
      assert g[0] in g;
      assert (g + x)[1..] == g[1..] + x;
      SkipGapOver(g[1..], x);
    }
  }

  lemma PieceIsRead(p: Piece, rest: Bytes)
    requires p.Valid()
    ensures ReadPiece(p.Bytes() + rest) == Some(p)
  {
    var t := p.Bytes() + rest;
    match p
    case Raw(_) =>
    case Short(_) =>
    case Unit(a, b, c, d) => assert t[2] == a && t[3] == b && t[4] == c && t[5] == d;
    case Pair(a, b, c, d, e, f, g, h) =>
      assert t[2] == a && t[3] == b && t[4] == c && t[5] == d;
      assert t[8] == e && t[9] == f && t[10] == g && t[11] == h;
  }

  lemma {:induction false} StringIsRead(ps: seq<Piece>, rest: Bytes)
    requires ValidPieces(ps)
    ensures ReadString(PiecesOnto(ps, [QUOTE] + rest)) == Some((PiecesMean(ps), rest))
    decreases |ps|
  {
    var t := PiecesOnto(ps, [QUOTE] + rest);
    if ps == [] {
      assert t[1..] == rest;
    } else {
      var p := ps[0];
      assert p in ps;
      var tail := PiecesOnto(ps[1..], [QUOTE] + rest);
      PieceIsRead(p, tail);
      assert t[|p.Bytes()|..] == tail;
      StringIsRead(ps[1..], rest);
    }
  }

  lemma {:induction false} LiteralIsSpanned(content: Bytes, rest: Bytes)
    requires forall b :: b in content ==> LiteralByte(b)
    requires rest == [] || !LiteralByte(rest[0])
    ensures LiteralSpan(content + rest) == |content|
    decreases |content|
  {
    if content == [] {
      assert content + rest == rest;
    } else {
      assert content[0] in content;
      assert (content + rest)[1..] == content[1..] + rest;
      LiteralIsSpanned(content[1..], rest);
    }
  }

  /** What may follow a value. */
  predicate Stops(rest: Bytes) {
    rest == [] || (!IsGap(rest[0]) && !LiteralByte(rest[0]))
  }

  lemma AfterValue(after: Bytes, rest: Bytes)
    requires GapOnly(after) && Stops(rest)
    ensures SkipGap(after + rest) == rest
    ensures after + rest == [] || !LiteralByte((after + rest)[0])
  {
    SkipGapOver(after, rest);
    if after != [] { assert after[0] in after; }
  }

  /** A value starts with a byte that no gap, comma or closing bracket is. */
  lemma ValueStarts(s: Spelling, rest: Bytes)
    requires Valid(s)
    ensures var u := SkipGap(SpellOnto(s, rest)); u != [] && u[0] != RBRACE && u[0] != RBRACKET
  {
    match s
    case SObject(before, inner, keys, values, after) =>
      SkipGapOver(before, [LBRACE] + (inner + MembersOnto(keys, values, [RBRACE] + (after + rest))));
    case SArray(before, inner, items, after) =>
      SkipGapOver(before, [LBRACKET] + (inner + ItemsOnto(items, [RBRACKET] + (after + rest))));
    case SText(before, pieces, after) => SkipGapOver(before, [QUOTE] + PiecesOnto(pieces, [QUOTE] + (after + rest)));
    case SLiteral(before, content, after) =>
      SkipGapOver(before, content + (after + rest));
      assert content[0] in content;
  }

  lemma {:induction false} ValueIsRead(s: Spelling, rest: Bytes)
    requires Valid(s) && Stops(rest)
    ensures Read(SpellOnto(s, rest)) == Some((Meaning(s), rest))
    decreases s, 1
  {
    hide Read, SkipGap, GapOnly, Stops, LiteralByte, PiecesOnto, ItemsOnto, MembersOnto, ValidPieces, ValidKeys;
    AfterValue(s.after, rest);
    match s
    case SObject(before, inner, keys, values, after) => ObjectIsRead(before, inner, keys, values, after, rest);
    case SArray(before, inner, items, after) => ArrayIsRead(before, inner, items, after, rest);
    case SText(before, pieces, after) => TextIsRead(before, pieces, after, rest);
    case SLiteral(before, content, after) => LiteralIsRead(before, content, after, rest);
  }

  lemma TextIsRead(before: Bytes, pieces: seq<Piece>, after: Bytes, rest: Bytes)
    requires GapOnly(before) && ValidPieces(pieces) && SkipGap(after + rest) == rest
    ensures Read(before + ([QUOTE] + PiecesOnto(pieces, [QUOTE] + (after + rest)))) == Some((Text(PiecesMean(pieces)), rest))
  {
    hide PiecesOnto, PiecesMean, ValidPieces, GapOnly, ReadString, ReadItems, ReadMembers;
    var u := [QUOTE] + PiecesOnto(pieces, [QUOTE] + (after + rest));
    SkipGapOver(before, u);
    assert u[1..] == PiecesOnto(pieces, [QUOTE] + (after + rest));
    StringIsRead(pieces, after + rest);
  }

  lemma LiteralIsRead(before: Bytes, content: Bytes, after: Bytes, rest: Bytes)
    requires GapOnly(before) && IsLiteral(content) && SkipGap(after + rest) == rest
    requires after + rest == [] || !LiteralByte((after + rest)[0])
    ensures Read(before + (content + (after + rest))) == Some((Literal(content), rest))
  {
    hide GapOnly, ReadString, ReadItems, ReadMembers;
    var u := content + (after + rest);
    SkipGapOver(before, u);
    assert content[0] in content;
    LiteralIsSpanned(content, after + rest);
    assert u[..|content|] == content && u[|content|..] == after + rest;
  }

  lemma {:induction false} ObjectIsRead(before: Bytes, inner: Bytes, keys: seq<KeySpelling>, values: seq<Spelling>, after: Bytes, rest: Bytes)
    requires GapOnly(before) && GapOnly(inner) && GapOnly(after) && |keys| == |values| && ValidKeys(keys) && AllValid(values) && Stops(rest)
    ensures Read(before + ([LBRACE] + (inner + MembersOnto(keys, values, [RBRACE] + (after + rest))))) ==
            Some((Object(KeysMean(keys), Meanings(values)), rest))
    decreases values, 1
  {
    hide ReadMembers, ReadItems, ReadString, SpellOnto, PiecesOnto, PiecesMean, ValidPieces, Meaning, WellFormed, GapOnly, LiteralByte, Stops;
    AfterValue(after, rest);
    var body := inner + MembersOnto(keys, values, [RBRACE] + (after + rest));
    SkipGapOver(before, [LBRACE] + body);
    SkipGapOver(inner, MembersOnto(keys, values, [RBRACE] + (after + rest)));
    assert ([LBRACE] + body)[1..] == body;
    if values == [] {
      assert ([RBRACE] + (after + rest))[1..] == after + rest;
    } else {
      MembersAreRead(inner, keys, values, after + rest);
      var k := keys[0];
      assert k in keys;
      SkipGapOver(k.before, [QUOTE] + PiecesOnto(k.pieces, [QUOTE] + (k.after + ([COLON] + SpellOnto(values[0],
                  Comma(|values| > 1) + MembersOnto(keys[1..], values[1..], [RBRACE] + (after + rest)))))));
    }
  }

  lemma {:induction false} ArrayIsRead(before: Bytes, inner: Bytes, items: seq<Spelling>, after: Bytes, rest: Bytes)
    requires GapOnly(before) && GapOnly(inner) && GapOnly(after) && AllValid(items) && Stops(rest)
    ensures Read(before + ([LBRACKET] + (inner + ItemsOnto(items, [RBRACKET] + (after + rest))))) == Some((Array(Meanings(items)), rest))
    decreases items, 1
  {
    hide ReadMembers, ReadItems, ReadString, SpellOnto, Meaning, WellFormed, GapOnly, LiteralByte, Stops;
    AfterValue(after, rest);
    var body := inner + ItemsOnto(items, [RBRACKET] + (after + rest));
    SkipGapOver(before, [LBRACKET] + body);
    SkipGapOver(inner, ItemsOnto(items, [RBRACKET] + (after + rest)));
    assert ([LBRACKET] + body)[1..] == body;
    if items == [] {
      assert ([RBRACKET] + (after + rest))[1..] == after + rest;
    } else {
      ItemsAreRead(inner, items, after + rest);
      ValueStarts(items[0], Comma(|items| > 1) + ItemsOnto(items[1..], [RBRACKET] + (after + rest)));
    }
  }

  lemma ReadIgnoresGap(gap: Bytes, x: Bytes)
    requires GapOnly(gap)
    ensures Read(gap + x) == Read(x)
  {
    SkipGapOver(gap, x);
  }

  lemma {:induction false} ItemsAreRead(gap: Bytes, items: seq<Spelling>, rest: Bytes)
    requires GapOnly(gap) && items != [] && AllValid(items)
    ensures ReadItems(gap + ItemsOnto(items, [RBRACKET] + rest)) == Some((Meanings(items), rest))
    decreases items, 0
  {
    hide Read, ReadMembers, SpellOnto, Meaning, WellFormed, GapOnly, LiteralByte;
    var next := Comma(|items| > 1) + ItemsOnto(items[1..], [RBRACKET] + rest);
    assert items[0] in items;
    StructureStops();
    NoGap();
    ReadIgnoresGap(gap, SpellOnto(items[0], next));
    ValueIsRead(items[0], next);
    if |items| > 1 {
      assert next[1..] == [] + ItemsOnto(items[1..], [RBRACKET] + rest);
      ItemsAreRead([], items[1..], rest);
    } else {
      assert next == [RBRACKET] + rest && next[1..] == rest;
      assert items[1..] == [] && Meanings(items) == [Meaning(items[0])];
    }
  }

  lemma StructureStops()
    ensures !LiteralByte(COMMA) && !LiteralByte(RBRACE) && !LiteralByte(RBRACKET)
  {
  }

  lemma NoGap()
    ensures GapOnly([])
  {
  }

  lemma {:induction false} MembersAreRead(gap: Bytes, keys: seq<KeySpelling>, values: seq<Spelling>, rest: Bytes)
    requires GapOnly(gap) && |keys| == |values| && values != [] && ValidKeys(keys) && AllValid(values)
    ensures ReadMembers(gap + MembersOnto(keys, values, [RBRACE] + rest)) == Some((KeysMean(keys), Meanings(values), rest))
    decreases values, 0
  {
    hide Read, ReadString, SpellOnto, PiecesOnto, PiecesMean, ValidPieces, Meaning, WellFormed, GapOnly, LiteralByte;
    var k, next := keys[0], Comma(|values| > 1) + MembersOnto(keys[1..], values[1..], [RBRACE] + rest);
    assert k in keys && values[0] in values;
    var value := [COLON] + SpellOnto(values[0], next);
    var quoted := [QUOTE] + PiecesOnto(k.pieces, [QUOTE] + (k.after + value));
    SkipGapOver(gap, k.before + quoted);
    SkipGapOver(k.before, quoted);
    assert quoted[1..] == PiecesOnto(k.pieces, [QUOTE] + (k.after + value));
    StringIsRead(k.pieces, k.after + value);
    SkipGapOver(k.after, value);
    assert value[1..] == SpellOnto(values[0], next);
    StructureStops();
    ValueIsRead(values[0], next);
    if |values| > 1 {
      assert next[1..] == [] + MembersOnto(keys[1..], values[1..], [RBRACE] + rest);
      NoGap();
      MembersAreRead([], keys[1..], values[1..], rest);
    } else {
      assert next == [RBRACE] + rest && next[1..] == rest;
      assert values[1..] == [] && Meanings(values) == [Meaning(values[0])];
      assert keys[1..] == [] && KeysMean(keys) == [PiecesMean(k.pieces)];
    }
  }

  lemma TextIsWellFormed(t: Bytes, v: Value)
    requires IsText(t, v)
    ensures WellFormed(v)
  {
  }

  /** A text means at most one value. */
  lemma TextMeansOneValue(t: Bytes, v: Value, w: Value)
    requires IsText(t, v) && IsText(t, w)
    ensures v == w
  {
    var a :| Valid(a) && Spell(a) == t && Meaning(a) == v;
    var b :| Valid(b) && Spell(b) == t && Meaning(b) == w;
    ValueIsRead(a, []);
    ValueIsRead(b, []);
  }
}
