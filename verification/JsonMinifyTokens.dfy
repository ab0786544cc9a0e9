/** cJSON_Minify token by token: what vanishes, what stays, and what the result can hold. */
module JsonMinifyTokens {
  import opened Bytes
  import opened JsonMinify

  /** A white space, a comment in either style, a string, or any other byte. */
  datatype Token =
    | Blank(b: byte)
    | LineComment(text: bytes)
    | BlockComment(text: bytes)
    | Str(text: bytes)
    | Other(b: byte)

  /** Comments and strings are closed where they end; a quote inside a string has a backslash before it. */
  predicate Proper(t: Token) {
    match t
    case Blank(b) => b == 32 || b == 9 || b == 10 || b == 13
    case LineComment(text) => 10 !in text
    case BlockComment(text) => forall i :: 0 < i < |text| ==> !(text[i - 1] == 42 && text[i] == 47)
    case Str(text) =>
      && (forall i :: 0 <= i < |text| && text[i] == 34 ==> i > 0 && text[i - 1] == 92)
      && (text != [] ==> text[|text| - 1] != 92)
    case Other(b) => b != 32 && b != 9 && b != 10 && b != 13 && b != 34 && b != 47
  }

  predicate Vanishes(t: Token) {
    t.Blank? || t.LineComment? || t.BlockComment?
  }

  function Spelled(t: Token): bytes {
    match t
    case Blank(b) => [b]
    case LineComment(text) => [47, 47] + text + [10]
    case BlockComment(text) => [47, 42] + text + [42, 47]
    case Str(text) => [34] + text + [34]
    case Other(b) => [b]
  }

  function SpelledAll(ts: seq<Token>): bytes {
    if ts == [] then [] else Spelled(ts[0]) + SpelledAll(ts[1..])
  }

  /** The tokens that do not vanish. */
  function Kept(ts: seq<Token>): seq<Token> {
    if ts == [] then [] else (if Vanishes(ts[0]) then [] else [ts[0]]) + Kept(ts[1..])
  }

  predicate AllProper(ts: seq<Token>) {
    forall t :: t in ts ==> Proper(t)
  }

  lemma {:induction false} LineEnds(text: bytes, rest: bytes)
    requires 10 !in text
    ensures AfterLine(text + [10] + rest) == rest
    decreases |text|
  {
    var t := text + [10] + rest;
    if text != [] {
      LineEnds(text[1..], rest);
      assert t[1..] == text[1..] + [10] + rest;
    }
  }

  lemma {:induction false} BlockEnds(text: bytes, rest: bytes)
    requires forall i :: 0 < i < |text| ==> !(text[i - 1] == 42 && text[i] == 47)
    ensures AfterBlock(text + [42, 47] + rest) == rest
    decreases |text|
  {
    var t := text + [42, 47] + rest;
    if text != [] {
      var u := text[1..];
      assert forall i :: 0 < i < |u| ==> u[i - 1] == text[i] && u[i] == text[i + 1];
      BlockEnds(u, rest);
      assert t[1..] == u + [42, 47] + rest;
      assert |text| > 1 ==> t[1] == text[1];
    }
  }

  /** What is left of a string behind its first byte, or behind an escaped quote. */
  lemma ProperRest(text: bytes, n: nat)
    requires Proper(Str(text)) && text != []
    requires n == if |text| > 1 && text[0] == 92 && text[1] == 34 then 2 else 1
    ensures text[0] != 34 && Proper(Str(text[n..]))
  {
    var u := text[n..];
    assert forall i :: 0 <= i < |u| ==> u[i] == text[n + i];
    assert u != [] ==> u[0] != 34;
  }

  lemma {:induction false} StringEnds(text: bytes, rest: bytes)
    requires Proper(Str(text))
    ensures StringLength(text + [34] + rest) == |text| + 1
    decreases |text|
  {
    hide Proper;
    var t := text + [34] + rest;
    if text != [] {
      var n := if |text| > 1 && text[0] == 92 && text[1] == 34 then 2 else 1;
      ProperRest(text, n);
      LastByte(text);
      StringEnds(text[n..], rest);
      assert t[n..] == text[n..] + [34] + rest;
    }
  }

  lemma LastByte(text: bytes)
    requires Proper(Str(text)) && text != []
    ensures text[|text| - 1] != 92
  {}

  lemma LineMinified(text: bytes, rest: bytes)
    requires 10 !in text
    ensures Minified([47, 47] + text + [10] + rest) == Minified(rest)
  {
    hide AfterLine, AfterBlock, StringLength;
    var a := [47, 47] + text + [10] + rest;
    LineEnds(text, rest);
    assert a[2..] == text + [10] + rest;
  }

  lemma BlockMinified(text: bytes, rest: bytes)
    requires Proper(BlockComment(text))
    ensures Minified([47, 42] + text + [42, 47] + rest) == Minified(rest)
  {
    hide AfterLine, AfterBlock, StringLength;
    var a := [47, 42] + text + [42, 47] + rest;
    BlockEnds(text, rest);
    assert a[2..] == text + [42, 47] + rest;
  }

  lemma StrMinified(text: bytes, rest: bytes)
    requires Proper(Str(text))
    ensures Minified(Spelled(Str(text)) + rest) == Spelled(Str(text)) + Minified(rest)
  {
    hide AfterLine, AfterBlock, StringLength;
    var a := Spelled(Str(text)) + rest;
    StringEnds(text, rest);
    assert a[1..] == text + [34] + rest;
    assert a[..|text| + 2] == Spelled(Str(text)) && a[|text| + 2..] == rest;
  }

  lemma ByteMinified(t: Token, rest: bytes)
    requires Proper(t) && (t.Blank? || t.Other?)
    ensures Minified(Spelled(t) + rest) == (if t.Blank? then [] else [t.b]) + Minified(rest)
  {
    hide AfterLine, AfterBlock, StringLength;
    assert (Spelled(t) + rest)[1..] == rest;
  }

  lemma TokenMinified(t: Token, rest: bytes)
    requires Proper(t)
    ensures Minified(Spelled(t) + rest) == (if Vanishes(t) then [] else Spelled(t)) + Minified(rest)
  {
    hide Minified;
    match t
    case LineComment(text) => LineMinified(text, rest);
    case BlockComment(text) => BlockMinified(text, rest);
    case Str(text) => StrMinified(text, rest);
    case _ => ByteMinified(t, rest);
  }

  /** Of a text of tokens those that do not vanish stay, in their order and byte for byte. */
  lemma {:induction false} TokensMinified(ts: seq<Token>)
    requires AllProper(ts)
    ensures Minified(SpelledAll(ts)) == SpelledAll(Kept(ts))
    decreases |ts|
  {
    if ts == [] {
      MinifiedEmpty();
    } else {
      hide Minified, Spelled, Vanishes, Proper;
      TokensMinified(ts[1..]);
      TokenMinified(ts[0], SpelledAll(ts[1..]));
      var k := Kept(ts[1..]);
      assert Vanishes(ts[0]) ==> [] + SpelledAll(k) == SpelledAll(k) && Kept(ts) == k;
      assert !Vanishes(ts[0]) ==> Kept(ts)[0] == ts[0] && Kept(ts)[1..] == k;
    }
  }

  lemma {:induction false} KeptConcat(a: seq<Token>, b: seq<Token>)
    ensures Kept(a + b) == Kept(a) + Kept(b)
    decreases |a|
  {
    if a == [] {
      assert a + b == b;
    } else {
      assert (a + b)[1..] == a[1..] + b;
      KeptConcat(a[1..], b);
    }
  }

  lemma {:induction false} NoneKept(gap: seq<Token>)
    requires forall t :: t in gap ==> Vanishes(t)
    ensures Kept(gap) == []
    decreases |gap|
  {
    if gap != [] {
      NoneKept(gap[1..]);
    }
  }

  /** White space and comments between any two tokens change nothing. */
  lemma GapChangesNothing(a: seq<Token>, gap: seq<Token>, b: seq<Token>)
    requires AllProper(a) && AllProper(gap) && AllProper(b) && forall t :: t in gap ==> Vanishes(t)
    ensures Minified(SpelledAll(a + gap + b)) == Minified(SpelledAll(a + b))
  {
    hide Proper, Vanishes, Kept, SpelledAll, Minified;
    TokensMinified(a + gap + b);
    TokensMinified(a + b);
    KeptConcat(a + gap, b);
    KeptConcat(a, gap);
    KeptConcat(a, b);
    NoneKept(gap);
    assert Kept(a) + [] == Kept(a);
  }

  /** Outside of strings a text holds no white space and no slash, so no comment either. */
  predicate Bare(t: bytes)
    decreases |t|
  {
    t == [] ||
    if t[0] == 34 then Bare(t[1 + StringLength(t[1..])..])
    else t[0] != 32 && t[0] != 9 && t[0] != 10 && t[0] != 13 && t[0] != 47 && Bare(t[1..])
  }

  lemma {:induction false} MinimalIsBare(t: bytes)
    requires Minimal(t)
    ensures Bare(t)
    decreases |t|
  {
    if t != [] {
      MinimalIsBare(t[if t[0] == 34 then 1 + StringLength(t[1..]) else 1..]);
    }
  }

  /** The minified form of any text whatever is bare. */
  lemma MinifiedIsBare(t: bytes)
    ensures Bare(Minified(t))
  {
    MinifiedIsMinimal(t);
    MinimalIsBare(Minified(t));
  }
}
