/**
 * The canonical JSON text of a label tuple, as stored in the parents and scope
 * columns, and the strict reader that accepts only such text.
 */
module LabelCodec {
  import opened Wrappers
  import opened AncestryRecords

  predicate AllLabels(ls: seq<string>) {
    forall l :: l in ls ==> IsLabel(l)
  }

  function EncodeItems(ls: seq<string>): string
    requires ls != []
    decreases |ls|, 0
  {
    "\"" + (ls[0] + EncodeTail(ls[1..]))
  }

  /** What follows a label: the closing quote and the end of the array, or a comma and the other items. */
  function EncodeTail(ls: seq<string>): string
    decreases |ls|, 1
  {
    if ls == [] then "\"]" else "\"," + EncodeItems(ls)
  }

  function Encode(ls: seq<string>): string {
    if ls == [] then "[]" else "[" + EncodeItems(ls)
  }

  /** The number of leading label characters. */
  function LabelSpan(t: string): (n: nat)
    ensures n <= |t|
    ensures forall i :: 0 <= i < n ==> IsLabelChar(t[i])
    ensures n < |t| ==> !IsLabelChar(t[n])
  {
    if t != "" && IsLabelChar(t[0]) then 1 + LabelSpan(t[1..]) else 0
  }

  function DecodeItems(t: string): Option<seq<string>>
    decreases |t|
  {
    if |t| == 0 || t[0] != '"' then None
    else
      var n := LabelSpan(t[1..]);
      var first := t[1..][..n];
      if !IsLabel(first) then None
      else
        var tail :- DecodeTail(t[1..][n..]);
        Some([first] + tail)
  }

  function DecodeTail(t: string): Option<seq<string>>
    decreases |t|
  {
    if t == "\"]" then Some([])
    else if |t| < 2 || t[..2] != "\"," then None
    else
      var tail :- DecodeItems(t[2..]);
      Some(tail)
  }

  function Decode(t: string): Option<seq<string>> {
    if t == "[]" then Some([])
    else if |t| == 0 || t[0] != '[' then None
    else DecodeItems(t[1..])
  }

  lemma {:induction false} SpanOfLabel(l: string, rest: string)
    requires forall i :: 0 <= i < |l| ==> IsLabelChar(l[i])
    requires rest != "" && !IsLabelChar(rest[0])
    ensures LabelSpan(l + rest) == |l|
    ensures (l + rest)[..|l|] == l && (l + rest)[|l|..] == rest
  {
    if l == "" {
      assert l + rest == rest;
    } else {
      assert (l + rest)[1..] == l[1..] + rest;
      SpanOfLabel(l[1..], rest);
    }
  }

  lemma {:induction false} ItemsDecodeBack(ls: seq<string>)
    requires ls != [] && AllLabels(ls)
    ensures DecodeItems(EncodeItems(ls)) == Some(ls)
    decreases |ls|, 0
  {
    assert ls[0] in ls;
    var rest := EncodeTail(ls[1..]);
    assert EncodeItems(ls)[1..] == ls[0] + rest;
    SpanOfLabel(ls[0], rest);
    TailDecodesBack(ls[1..]);
    assert ls == [ls[0]] + ls[1..];
  }

  lemma {:induction false} TailDecodesBack(ls: seq<string>)
    requires AllLabels(ls)
    ensures DecodeTail(EncodeTail(ls)) == Some(ls)
    decreases |ls|, 1
  {
    if ls != [] {
      var t := EncodeTail(ls);
      assert t[..2] == "\"," && t[2..] == EncodeItems(ls);
      ItemsDecodeBack(ls);
    }
  }

  lemma {:induction false} ItemsDecodeOnlyEncodings(t: string)
    requires DecodeItems(t).Some?
    ensures var ls := DecodeItems(t).value; ls != [] && AllLabels(ls) && t == EncodeItems(ls)
    decreases |t|
  {
    var u := t[1..];
    var n := LabelSpan(u);
    TailDecodesOnlyEncodings(u[n..]);
    var tail := DecodeTail(u[n..]).value;
    assert u == u[..n] + u[n..];
    assert t == "\"" + u;
    assert ([u[..n]] + tail)[1..] == tail;
  }

  lemma {:induction false} TailDecodesOnlyEncodings(t: string)
    requires DecodeTail(t).Some?
    ensures var ls := DecodeTail(t).value; AllLabels(ls) && t == EncodeTail(ls)
    decreases |t|
  {
    if t != "\"]" {
      ItemsDecodeOnlyEncodings(t[2..]);
      assert t == t[..2] + t[2..];
    }
  }

  /** The reader accepts a text as a label tuple exactly when it is the encoding of that tuple. */
  lemma DecodeIsInverse(t: string, ls: seq<string>)
    ensures Decode(t) == Some(ls) <==> AllLabels(ls) && t == Encode(ls)
  {
    if Decode(t) == Some(ls) && t != "[]" {
      ItemsDecodeOnlyEncodings(t[1..]);
      assert t == "[" + t[1..];
    }
    if ls != [] && AllLabels(ls) && t == Encode(ls) {
      assert t[1..] == EncodeItems(ls);
      ItemsDecodeBack(ls);
    }
  }

  lemma {:induction false} ItemsLength(ls: seq<string>)
    requires ls != [] && AllLabels(ls)
    ensures |EncodeItems(ls)| <= 131 * |ls|
  {
    assert ls[0] in ls;
    if |ls| > 1 {
      ItemsLength(ls[1..]);
    }
  }

  /** An admissible tuple of at most 32 (64) labels fits the 4200 (8400) character column limit. */
  lemma EncodingFits(ls: seq<string>)
    requires AllLabels(ls)
    ensures |Encode(ls)| <= 131 * |ls| + 2
    ensures |ls| <= MAX_PARENTS ==> |Encode(ls)| <= 4200
    ensures |ls| <= MAX_SCOPE ==> |Encode(ls)| <= 8400
  {
    if ls != [] {
      ItemsLength(ls);
    }
  }
}
