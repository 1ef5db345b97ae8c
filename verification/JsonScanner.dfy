/**
 * The lexical nesting scanner that runs before the recursive JSON decoder, and the recursive
 * check of the decoded value.
 *
 * Main results: `AcceptsExactly` - of the texts of a value, however spelled, the scanner
 * accepts all when its containers nest at most `maxDepth` deep and none otherwise;
 * `CheckExactly` and `ChecksDisagreeExactly` compare the two checks.
 */
module JsonScanner {
  import opened Wrappers
  import opened JsonText

  predicate Opens(b: Byte) {
    b == LBRACKET || b == LBRACE
  }

  predicate Closes(b: Byte) {
    b == RBRACKET || b == RBRACE
  }

  // --------------------------------------------------------------- scanner

  datatype State = State(depth: nat, inString: bool, escaped: bool)

  const START := State(0, false, false)

  /** One byte; `None` is a rejection. */
  function Step(s: State, b: Byte, maxDepth: nat): Option<State> {
    if s.inString then
      if s.escaped then Some(s.(escaped := false))
      else if b == BACKSLASH then Some(s.(escaped := true))
      else if b == QUOTE then Some(s.(inString := false))
      else Some(s)
    else if b == QUOTE then Some(s.(inString := true))
    else if Opens(b) then (if s.depth + 1 > maxDepth then None else Some(s.(depth := s.depth + 1)))
    else if Closes(b) then (if s.depth == 0 then None else Some(s.(depth := s.depth - 1)))
    else Some(s)
  }

  function Run(s: State, t: Bytes, maxDepth: nat): Option<State>
    decreases |t|
  {
    if t == [] then Some(s)
    else
      var next :- Step(s, t[0], maxDepth);
      Run(next, t[1..], maxDepth)
  }

  predicate Accepts(t: Bytes, maxDepth: nat) {
    Run(START, t, maxDepth) == Some(START)
  }

  /** The scanning loop; its answer is that of the state machine. */
  method Scan(payload: Bytes, maxDepth: nat) returns (ok: bool)
    ensures ok <==> Accepts(payload, maxDepth)
  {
    var depth: int, inString, escaped := 0, false, false;
    for i := 0 to |payload|
      invariant depth >= 0
      invariant Run(START, payload, maxDepth) == Run(State(depth, inString, escaped), payload[i..], maxDepth)
    {
      var b := payload[i];
      assert payload[i..][0] == b && payload[i..][1..] == payload[i + 1..];
      if inString {
        if escaped {
          escaped := false;
        } else if b == BACKSLASH {
          escaped := true;
        } else if b == QUOTE {
          inString := false;
        }
        continue;
      }
      if b == QUOTE {
        inString := true;
      } else if Opens(b) {
        if depth + 1 > maxDepth { return false; }
        depth := depth + 1;
      } else if Closes(b) {
        if depth - 1 < 0 { return false; }
        depth := depth - 1;
      }
    }
    ok := !(depth != 0 || inString || escaped);
  }

  // ---------------------------------------------------------------- nesting

  function Max(a: nat, b: nat): nat {
    if a < b then b else a
  }

  /** How deep containers nest: an empty container counts one level. */
  function Nesting(v: Value): nat
    decreases v, 1
  {
    match v
    case Object(_, values) => 1 + NestingOf(values)
    case Array(items) => 1 + NestingOf(items)
    case _ => 0
  }

  function NestingOf(vs: seq<Value>): nat
    decreases vs, 0
  {
    if vs == [] then 0 else Max(Nesting(vs[0]), NestingOf(vs[1..]))
  }

  // ----------------------------------------------------------------- proof

  /** Neither a quote, nor a backslash, nor a bracket. */
  predicate PlainByte(b: Byte) {
    b != QUOTE && b != BACKSLASH && !Opens(b) && !Closes(b)
  }

  predicate Outside(s: State) {
    !s.inString && !s.escaped
  }

  lemma RunFirst(s: State, b: Byte, rest: Bytes, maxDepth: nat)
    ensures Run(s, [b] + rest, maxDepth) == match Step(s, b, maxDepth) case None => None case Some(next) => Run(next, rest, maxDepth)
  {
    assert ([b] + rest)[1..] == rest;
  }

  /** Outside strings, plain bytes change nothing. */
  lemma {:induction false} RunPlain(s: State, t: Bytes, rest: Bytes, maxDepth: nat)
    requires Outside(s) && forall b :: b in t ==> PlainByte(b)
    ensures Run(s, t + rest, maxDepth) == Run(s, rest, maxDepth)
    decreases |t|
  {
    if t == [] {
      assert t + rest == rest;
    } else {
      assert t[0] in t && t + rest == [t[0]] + (t[1..] + rest);
      RunFirst(s, t[0], t[1..] + rest, maxDepth);
      RunPlain(s, t[1..], rest, maxDepth);
    }
  }

  lemma RunGap(s: State, g: Bytes, rest: Bytes, maxDepth: nat)
    requires Outside(s) && GapOnly(g)
    ensures Run(s, g + rest, maxDepth) == Run(s, rest, maxDepth)
  {
    RunPlain(s, g, rest, maxDepth);
  }

  /** Inside a string, ordinary bytes change nothing. */
  lemma {:induction false} RunInside(s: State, t: Bytes, rest: Bytes, maxDepth: nat)
    requires s.inString && !s.escaped && forall b :: b in t ==> b != QUOTE && b != BACKSLASH
    ensures Run(s, t + rest, maxDepth) == Run(s, rest, maxDepth)
    decreases |t|
  {
    if t == [] {
      assert t + rest == rest;
    } else {
      assert t[0] in t && t + rest == [t[0]] + (t[1..] + rest);
      assert forall b :: b in t[1..] ==> b in t;
      RunFirst(s, t[0], t[1..] + rest, maxDepth);
      RunInside(s, t[1..], rest, maxDepth);
    }
  }

  /** A backslash and the byte after it change nothing, whatever that byte is. */
  lemma RunEscape(s: State, b: Byte, rest: Bytes, maxDepth: nat)
    requires s.inString && !s.escaped
    ensures Run(s, [BACKSLASH, b] + rest, maxDepth) == Run(s, rest, maxDepth)
  {
    assert [BACKSLASH, b] + rest == [BACKSLASH] + ([b] + rest);
    RunFirst(s, BACKSLASH, [b] + rest, maxDepth);
    RunFirst(s.(escaped := true), b, rest, maxDepth);
  }

  lemma RunPiece(s: State, p: Piece, rest: Bytes, maxDepth: nat)
    requires s.inString && !s.escaped && p.Valid()
    ensures Run(s, p.Bytes() + rest, maxDepth) == Run(s, rest, maxDepth)
  {
    match p
    case Raw(x) => RunInside(s, [x], rest, maxDepth);
    case Short(x) => RunEscape(s, x, rest, maxDepth);
    case Unit(a, b, c, d) => RunUnit(s, a, b, c, d, rest, maxDepth);
    case Pair(a, b, c, d, e, f, g, h) =>
      assert p.Bytes() + rest == [BACKSLASH, UNICODE, a, b, c, d] + ([BACKSLASH, UNICODE, e, f, g, h] + rest);
      RunUnit(s, a, b, c, d, [BACKSLASH, UNICODE, e, f, g, h] + rest, maxDepth);
      RunUnit(s, e, f, g, h, rest, maxDepth);
  }

  lemma RunUnit(s: State, a: Byte, b: Byte, c: Byte, d: Byte, rest: Bytes, maxDepth: nat)
    requires s.inString && !s.escaped && IsHexDigit(a) && IsHexDigit(b) && IsHexDigit(c) && IsHexDigit(d)
    ensures Run(s, [BACKSLASH, UNICODE, a, b, c, d] + rest, maxDepth) == Run(s, rest, maxDepth)
  {
    assert [BACKSLASH, UNICODE, a, b, c, d] + rest == [BACKSLASH, UNICODE] + ([a, b, c, d] + rest);
    RunEscape(s, UNICODE, [a, b, c, d] + rest, maxDepth);
    RunInside(s, [a, b, c, d], rest, maxDepth);
  }

  lemma {:induction false} RunPieces(s: State, ps: seq<Piece>, rest: Bytes, maxDepth: nat)
    requires s.inString && !s.escaped && ValidPieces(ps)
    ensures Run(s, PiecesOnto(ps, rest), maxDepth) == Run(s, rest, maxDepth)
    decreases |ps|
  {
    if ps != [] {
      assert ps[0] in ps;
      RunPiece(s, ps[0], PiecesOnto(ps[1..], rest), maxDepth);
      RunPieces(s, ps[1..], rest, maxDepth);
    }
  }

  /** A string, whatever brackets and quotes it spells, leaves the scanner where it was. */
  lemma RunString(s: State, ps: seq<Piece>, rest: Bytes, maxDepth: nat)
    requires Outside(s) && ValidPieces(ps)
    ensures Run(s, [QUOTE] + PiecesOnto(ps, [QUOTE] + rest), maxDepth) == Run(s, rest, maxDepth)
  {
    var inside := s.(inString := true);
    RunFirst(s, QUOTE, PiecesOnto(ps, [QUOTE] + rest), maxDepth);
    RunPieces(inside, ps, [QUOTE] + rest, maxDepth);
    RunFirst(inside, QUOTE, rest, maxDepth);
  }

  /** Scanning on after something of this nesting. */
  function Onward(s: State, nesting: nat, rest: Bytes, maxDepth: nat): Option<State> {
    if nesting == 0 || s.depth + nesting <= maxDepth then Run(s, rest, maxDepth) else None
  }

  lemma RunBracketed(s: State, open: Byte, inner: Bytes, body: Bytes, close: Byte, rest: Bytes, nesting: nat, maxDepth: nat)
    requires Outside(s) && Opens(open) && Closes(close) && GapOnly(inner)
    requires var deeper := s.(depth := s.depth + 1);
      Run(deeper, body, maxDepth) == Onward(deeper, nesting, [close] + rest, maxDepth)
    ensures Run(s, [open] + (inner + body), maxDepth) == Onward(s, 1 + nesting, rest, maxDepth)
  {
    var deeper := s.(depth := s.depth + 1);
    RunFirst(s, open, inner + body, maxDepth);
    RunGap(deeper, inner, body, maxDepth);
    RunFirst(deeper, close, rest, maxDepth);
  }

  lemma {:induction false} RunValue(s: State, v: Spelling, rest: Bytes, maxDepth: nat)
    requires Valid(v) && Outside(s)
    ensures Run(s, SpellOnto(v, rest), maxDepth) == Onward(s, Nesting(Meaning(v)), rest, maxDepth)
    decreases v, 1
  {
    hide Run, GapOnly, Outside;
    assert Outside(s.(depth := s.depth + 1)) by { StaysOutside(s); }
    RunGap(s, v.after, rest, maxDepth);
    match v
    case SObject(before, inner, keys, values, after) =>
      var body := MembersOnto(keys, values, [RBRACE] + (after + rest));
      RunGap(s, before, [LBRACE] + (inner + body), maxDepth);
      RunMembers(s.(depth := s.depth + 1), keys, values, [RBRACE] + (after + rest), maxDepth);
      RunBracketed(s, LBRACE, inner, body, RBRACE, after + rest, NestingOf(Meanings(values)), maxDepth);
    case SArray(before, inner, items, after) =>
      var body := ItemsOnto(items, [RBRACKET] + (after + rest));
      RunGap(s, before, [LBRACKET] + (inner + body), maxDepth);
      RunItems(s.(depth := s.depth + 1), items, [RBRACKET] + (after + rest), maxDepth);
      RunBracketed(s, LBRACKET, inner, body, RBRACKET, after + rest, NestingOf(Meanings(items)), maxDepth);
    case SText(before, pieces, after) =>
      RunGap(s, before, [QUOTE] + PiecesOnto(pieces, [QUOTE] + (after + rest)), maxDepth);
      RunString(s, pieces, after + rest, maxDepth);
    case SLiteral(before, content, after) =>
      RunGap(s, before, content + (after + rest), maxDepth);
      RunPlain(s, content, after + rest, maxDepth);
  }

  lemma StaysOutside(s: State)
    requires Outside(s)
    ensures Outside(s.(depth := s.depth + 1))
  {
  }

  lemma RunComma(s: State, more: bool, rest: Bytes, maxDepth: nat)
    requires Outside(s)
    ensures Run(s, Comma(more) + rest, maxDepth) == Run(s, rest, maxDepth)
  {
    RunPlain(s, Comma(more), rest, maxDepth);
  }

  lemma {:induction false} RunItems(s: State, items: seq<Spelling>, rest: Bytes, maxDepth: nat)
    requires Outside(s) && AllValid(items)
    ensures Run(s, ItemsOnto(items, rest), maxDepth) == Onward(s, NestingOf(Meanings(items)), rest, maxDepth)
    decreases items, 0
  {
    hide Run, Outside;
    if items != [] {
      var next := ItemsOnto(items[1..], rest);
      assert items[0] in items;
      RunValue(s, items[0], Comma(|items| > 1) + next, maxDepth);
      RunComma(s, |items| > 1, next, maxDepth);
      RunItems(s, items[1..], rest, maxDepth);
      assert Meanings(items)[1..] == Meanings(items[1..]);
    }
  }

  lemma {:induction false} RunMembers(s: State, keys: seq<KeySpelling>, values: seq<Spelling>, rest: Bytes, maxDepth: nat)
    requires Outside(s) && |keys| == |values| && ValidKeys(keys) && AllValid(values)
    ensures Run(s, MembersOnto(keys, values, rest), maxDepth) == Onward(s, NestingOf(Meanings(values)), rest, maxDepth)
    decreases values, 0
  {
    hide Run, Outside, GapOnly;
    if values != [] {
      var k, next := keys[0], MembersOnto(keys[1..], values[1..], rest);
      assert k in keys && values[0] in values;
      var value := SpellOnto(values[0], Comma(|values| > 1) + next);
      RunGap(s, k.before, [QUOTE] + PiecesOnto(k.pieces, [QUOTE] + (k.after + ([COLON] + value))), maxDepth);
      RunString(s, k.pieces, k.after + ([COLON] + value), maxDepth);
      RunGap(s, k.after, [COLON] + value, maxDepth);
      RunPlain(s, [COLON], value, maxDepth);
      RunValue(s, values[0], Comma(|values| > 1) + next, maxDepth);
      RunComma(s, |values| > 1, next, maxDepth);
      RunMembers(s, keys[1..], values[1..], rest, maxDepth);
      assert Meanings(values)[1..] == Meanings(values[1..]);
    }
  }

  /** A text of a value, whatever its white space and escapes, is accepted exactly when the value's nesting is bounded. */
  lemma AcceptsExactly(t: Bytes, v: Value, maxDepth: nat)
    requires IsText(t, v)
    ensures Accepts(t, maxDepth) <==> Nesting(v) <= maxDepth
  {
    var s :| Valid(s) && Spell(s) == t && Meaning(s) == v;
    RunValue(START, s, [], maxDepth);
  }

  // ------------------------------------------------------- the value check

  datatype Fault = TooDeep | TooWide

  /** The recursive check of the decoded value: the first fault met, if any. */
  function CheckValue(v: Value, depth: nat): Option<Fault>
    decreases v, 1
  {
    if depth > 12 then Some(TooDeep)
    else match v
      case Object(_, values) => if |values| > 256 then Some(TooWide) else CheckValues(values, depth + 1)
      case Array(items) => if |items| > 256 then Some(TooWide) else CheckValues(items, depth + 1)
      case _ => None
  }

  function CheckValues(vs: seq<Value>, depth: nat): Option<Fault>
    decreases vs, 0
  {
    if vs == [] then None
    else
      var first := CheckValue(vs[0], depth);
      if first.Some? then first else CheckValues(vs[1..], depth)
  }

  /** Levels below the root: a leaf or an empty container has none. */
  function Levels(v: Value): nat
    decreases v, 1
  {
    match v
    case Object(_, values) => LevelsOf(values)
    case Array(items) => LevelsOf(items)
    case _ => 0
  }

  function LevelsOf(vs: seq<Value>): nat
    decreases vs, 0
  {
    if vs == [] then 0 else Max(1 + Levels(vs[0]), LevelsOf(vs[1..]))
  }

  /** No array or object of the value has more than 256 members. */
  ghost predicate Narrow(v: Value) {
    match v
    case Object(_, values) => |values| <= 256 && forall x :: x in values ==> Narrow(x)
    case Array(items) => |items| <= 256 && forall x :: x in items ==> Narrow(x)
    case _ => true
  }

  /** The value check passes exactly narrow values with at most twelve levels below the root. */
  lemma {:induction false} CheckExactly(v: Value, depth: nat)
    ensures CheckValue(v, depth).None? <==> depth + Levels(v) <= 12 && Narrow(v)
    decreases v, 1
  {
    match v
    case Object(_, values) => CheckAllExactly(values, depth + 1);
    case Array(items) => CheckAllExactly(items, depth + 1);
    case _ =>
  }

  lemma {:induction false} CheckAllExactly(vs: seq<Value>, depth: nat)
    requires depth >= 1
    ensures CheckValues(vs, depth).None? <==>
            (vs == [] || depth - 1 + LevelsOf(vs) <= 12) && forall x :: x in vs ==> Narrow(x)
    decreases vs, 0
  {
    if vs != [] {
      CheckExactly(vs[0], depth);
      CheckAllExactly(vs[1..], depth);
      assert forall x :: x in vs <==> x == vs[0] || x in vs[1..];
    }
  }

  /** The depth fault needs more than twelve levels. */
  lemma {:induction false} TooDeepOnlyBeyond(v: Value, depth: nat)
    requires depth + Levels(v) <= 12
    ensures CheckValue(v, depth) != Some(TooDeep)
    decreases v, 1
  {
    match v
    case Object(_, values) => if values != [] { AllTooDeepOnlyBeyond(values, depth + 1); }
    case Array(items) => if items != [] { AllTooDeepOnlyBeyond(items, depth + 1); }
    case _ =>
  }

  lemma {:induction false} AllTooDeepOnlyBeyond(vs: seq<Value>, depth: nat)
    requires depth >= 1 && depth - 1 + LevelsOf(vs) <= 12
    ensures CheckValues(vs, depth) != Some(TooDeep)
    decreases vs, 0
  {
    if vs != [] {
      TooDeepOnlyBeyond(vs[0], depth);
      AllTooDeepOnlyBeyond(vs[1..], depth);
    }
  }

  /** The nesting the scanner counts is the number of levels, or one more when an empty container lies deepest. */
  lemma {:induction false} LevelsAndNesting(v: Value)
    ensures Levels(v) <= Nesting(v) <= Levels(v) + 1
    decreases v, 1
  {
    match v
    case Object(_, values) => LevelsAndNestingOf(values);
    case Array(items) => LevelsAndNestingOf(items);
    case _ =>
  }

  lemma {:induction false} LevelsAndNestingOf(vs: seq<Value>)
    ensures LevelsOf(vs) <= 1 + NestingOf(vs) <= LevelsOf(vs) + 1
    decreases vs, 0
  {
    if vs != [] {
      LevelsAndNesting(vs[0]);
      LevelsAndNestingOf(vs[1..]);
    }
  }

  /** Any text accepted at depth 12 decodes to a value on which the recursive depth check never fires. */
  lemma ScannedIsNeverTooDeep(t: Bytes, v: Value)
    requires IsText(t, v) && Accepts(t, 12)
    ensures CheckValue(v, 0) != Some(TooDeep)
  {
    AcceptsExactly(t, v, 12);
    LevelsAndNesting(v);
    TooDeepOnlyBeyond(v, 0);
  }

  /**
   * On texts of narrow values the two checks disagree exactly when there are twelve levels
   * below the root and an empty container on the last; the scanner is then the stricter.
   */
  lemma ChecksDisagreeExactly(t: Bytes, v: Value)
    requires IsText(t, v) && Narrow(v)
    ensures Accepts(t, 12) ==> CheckValue(v, 0).None?
    ensures Accepts(t, 12) != CheckValue(v, 0).None? <==> Nesting(v) == 13 && Levels(v) == 12
  {
    AcceptsExactly(t, v, 12);
    LevelsAndNesting(v);
    CheckExactly(v, 0);
  }

  /** Nested arrays, the innermost empty. */
  function Nest(n: nat): Value {
    if n == 0 then Array([]) else Array([Nest(n - 1)])
  }

  lemma {:induction false} NestShape(n: nat)
    ensures WellFormed(Nest(n)) && Narrow(Nest(n)) && Nesting(Nest(n)) == n + 1 && Levels(Nest(n)) == n
  {
    if n > 0 {
      NestShape(n - 1);
      var inner := Nest(n - 1);
      assert [inner][1..] == [];
      assert NestingOf([inner]) == Max(Nesting(inner), NestingOf([]));
      assert LevelsOf([inner]) == Max(1 + Levels(inner), LevelsOf([]));
    }
  }

  /** Thirteen nested arrays pass the value check and are refused by the scanner. */
  lemma ScannerIsStricter(t: Bytes)
    requires IsText(t, Nest(12))
    ensures CheckValue(Nest(12), 0) == None && !Accepts(t, 12)
  {
    NestShape(12);
    ChecksDisagreeExactly(t, Nest(12));
  }
}
