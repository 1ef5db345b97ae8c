/**
 * The stored text of a label tuple, read as JSON.
 *
 * Main result: `EncodeIsCanonicalJson` - it is the canonical JSON text of the array of the labels.
 */
module LabelJson {
  import opened Wrappers
  import opened AncestryRecords
  import opened LabelCodec
  import J = JsonText
  import JsonCanonical

  /** The bytes of a text; only ASCII is of interest here. */
  function Ascii(s: string): seq<Byte> {
    seq(|s|, i requires 0 <= i < |s| => if s[i] as int < 128 then s[i] as int as Byte else 0x3F)
  }

  /** The labels as JSON strings. */
  function Names(ls: seq<string>): (vs: seq<J.Value>)
    ensures |vs| == |ls| && forall v :: v in vs ==> J.WellFormed(v)
  {
    if ls == [] then [] else [J.Text(Ascii(ls[0]))] + Names(ls[1..])
  }

  lemma AsciiOfConcat(a: string, b: string)
    ensures Ascii(a + b) == Ascii(a) + Ascii(b)
  {
  }

  lemma PlainChar(c: char)
    requires IsLabelChar(c)
    ensures JsonCanonical.PlainPiece(Ascii([c])[0]) == J.Raw(Ascii([c])[0])
  {
  }

  lemma PiecesByFirst(t: seq<Byte>, rest: seq<Byte>)
    requires t != []
    ensures J.PiecesOnto(JsonCanonical.PlainPieces(t), rest)
         == JsonCanonical.PlainPiece(t[0]).Bytes() + J.PiecesOnto(JsonCanonical.PlainPieces(t[1..]), rest)
  {
    hide JsonCanonical.PlainPiece;
    assert JsonCanonical.PlainPieces(t)[1..] == JsonCanonical.PlainPieces(t[1..]);
  }

  /** The characters of a label need no escape. */
  lemma {:induction false} LabelIsPlain(l: string, rest: seq<Byte>)
    requires forall i :: 0 <= i < |l| ==> IsLabelChar(l[i])
    ensures J.PiecesOnto(JsonCanonical.PlainPieces(Ascii(l)), rest) == Ascii(l) + rest
  {
    hide IsLabelChar, JsonCanonical.PlainPiece, J.PiecesOnto, JsonCanonical.PlainPieces;
    if l == "" {
      NothingIsPlain(rest);
    } else {
      assert IsLabelChar(l[0]) && l == [l[0]] + l[1..];
      PlainChar(l[0]);
      AsciiOfConcat([l[0]], l[1..]);
      var t, b := Ascii(l), Ascii([l[0]])[0];
      LabelIsPlain(l[1..], rest);
      PiecesByFirst(t, rest);
      assert t == [b] + Ascii(l[1..]) && t[1..] == Ascii(l[1..]);
      assert t + rest == [b] + (t[1..] + rest);
    }
  }

  lemma NothingIsPlain(rest: seq<Byte>)
    ensures J.PiecesOnto(JsonCanonical.PlainPieces(Ascii("")), rest) == Ascii("") + rest
  {
    assert Ascii("") == [] && Ascii("") + rest == rest;
  }

  /** A string spelled plainly, in front of what follows. */
  lemma TextIsSpelled(content: seq<Byte>, rest: seq<Byte>)
    ensures J.SpellOnto(JsonCanonical.Plain(J.Text(content)), rest)
         == [J.QUOTE] + J.PiecesOnto(JsonCanonical.PlainPieces(content), [J.QUOTE] + rest)
  {
    hide J.PiecesOnto, JsonCanonical.PlainPieces;
    var none: seq<Byte> := [];
    assert none + rest == rest;
    assert forall t: seq<Byte> :: none + t == t;
  }

  lemma ItemsByFirst(vs: seq<J.Value>, rest: seq<Byte>)
    requires vs != [] && forall v :: v in vs ==> J.WellFormed(v)
    ensures J.ItemsOnto(JsonCanonical.PlainValues(vs), rest)
         == J.SpellOnto(JsonCanonical.Plain(vs[0]), J.Comma(|vs| > 1) + J.ItemsOnto(JsonCanonical.PlainValues(vs[1..]), rest))
  {
    hide J.SpellOnto, JsonCanonical.Plain, J.WellFormed;
    assert JsonCanonical.PlainValues(vs)[1..] == JsonCanonical.PlainValues(vs[1..]);
  }

  /** What is left of the array text after the first label. */
  function Remaining(ls: seq<string>): seq<Byte> {
    J.Comma(ls != []) + J.ItemsOnto(JsonCanonical.PlainValues(Names(ls)), [J.RBRACKET])
  }

  lemma ItemsAreSpelled(ls: seq<string>)
    requires ls != [] && IsLabel(ls[0])
    ensures J.ItemsOnto(JsonCanonical.PlainValues(Names(ls)), [J.RBRACKET])
         == [J.QUOTE] + (Ascii(ls[0]) + ([J.QUOTE] + Remaining(ls[1..])))
  {
    hide J.ItemsOnto, J.SpellOnto, J.PiecesOnto, JsonCanonical.PlainPieces, JsonCanonical.PlainValues, JsonCanonical.Plain;
    var vs := Names(ls);
    assert vs[1..] == Names(ls[1..]);
    ItemsByFirst(vs, [J.RBRACKET]);
    TextIsSpelled(Ascii(ls[0]), Remaining(ls[1..]));
    LabelIsPlain(ls[0], [J.QUOTE] + Remaining(ls[1..]));
  }

  lemma {:induction false} ItemsAreJson(ls: seq<string>)
    requires ls != [] && AllLabels(ls)
    ensures Ascii(EncodeItems(ls)) == J.ItemsOnto(JsonCanonical.PlainValues(Names(ls)), [J.RBRACKET])
    decreases |ls|, 1
  {
    hide J.ItemsOnto, JsonCanonical.PlainValues, Remaining, Names, IsLabel;
    assert ls[0] in ls;
    ItemsAreSpelled(ls);
    TailIsJson(ls[1..]);
    AsciiOfConcat("\"", ls[0] + EncodeTail(ls[1..]));
    AsciiOfConcat(ls[0], EncodeTail(ls[1..]));
    assert Ascii("\"") == [J.QUOTE];
  }

  lemma {:induction false} TailIsJson(ls: seq<string>)
    requires AllLabels(ls)
    ensures Ascii(EncodeTail(ls)) == [J.QUOTE] + Remaining(ls)
    decreases |ls|, 2
  {
    hide JsonCanonical.PlainValues, Names, IsLabel;
    if ls == [] {
      NothingRemains();
    } else {
      ItemsAreJson(ls);
      AsciiOfConcat("\",", EncodeItems(ls));
      assert Ascii("\",") == [J.QUOTE, J.COMMA];
    }
  }

  lemma NothingRemains()
    ensures Ascii(EncodeTail([])) == [J.QUOTE] + Remaining([])
  {
    assert Ascii("\"]") == [J.QUOTE, J.RBRACKET];
  }

  lemma ArrayIsSpelled(vs: seq<J.Value>)
    requires forall v :: v in vs ==> J.WellFormed(v)
    ensures JsonCanonical.Render(J.Array(vs)) == [J.LBRACKET] + J.ItemsOnto(JsonCanonical.PlainValues(vs), [J.RBRACKET])
  {
    hide J.ItemsOnto, JsonCanonical.PlainValues;
    var none: seq<Byte> := [];
    assert [J.RBRACKET] + (none + none) == [J.RBRACKET];
    assert forall t: seq<Byte> :: none + t == t;
  }

  lemma ArrayIsJson(ls: seq<string>)
    requires AllLabels(ls)
    ensures Ascii(Encode(ls)) == [J.LBRACKET] + J.ItemsOnto(JsonCanonical.PlainValues(Names(ls)), [J.RBRACKET])
  {
    hide IsLabel, EncodeItems, J.ItemsOnto, JsonCanonical.PlainValues, Names;
    if ls == [] {
      EmptyIsJson();
    } else {
      ItemsAreJson(ls);
      AsciiOfConcat("[", EncodeItems(ls));
      assert Ascii("[") == [J.LBRACKET];
    }
  }

  /** The stored text of a label tuple is the canonical JSON text of the array of its labels. */
  lemma EncodeIsCanonicalJson(ls: seq<string>)
    requires AllLabels(ls)
    ensures J.WellFormed(J.Array(Names(ls))) && Ascii(Encode(ls)) == JsonCanonical.Render(J.Array(Names(ls)))
    ensures forall i :: 0 <= i < |ls| ==> Names(ls)[i] == J.Text(Ascii(ls[i]))
  {
    hide *;
    NamesAre(ls);
    ArrayIsSpelled(Names(ls));
    ArrayIsJson(ls);
  }

  lemma EmptyIsJson()
    ensures Ascii(Encode([])) == [J.LBRACKET] + J.ItemsOnto(JsonCanonical.PlainValues(Names([])), [J.RBRACKET])
  {
    assert Ascii("[]") == [J.LBRACKET, J.RBRACKET];
  }

  lemma {:induction false} NamesAre(ls: seq<string>)
    ensures J.WellFormed(J.Array(Names(ls)))
    ensures forall i :: 0 <= i < |ls| ==> Names(ls)[i] == J.Text(Ascii(ls[i]))
  {
    if ls != [] { NamesAre(ls[1..]); }
  }
}
