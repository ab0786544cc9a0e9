/**
  String literals as section 7 of RFC 8259 writes them: plain characters, two-character escapes and \uXXXX escapes with
  four hexadecimal digits. Which of them cJSON accepts, and what they are worth.
  */
module JsonLiterals {
  import opened Bytes
  import opened Unicode
  import opened JsonStrings

  /** A 16-bit code unit. */
  type CodeUnit = u: int | 0 <= u < 0x1_0000

  datatype Token = Plain(b: byte) | Short(letter: byte) | Unit(code: CodeUnit)

  function Width(t: Token): nat {
    match t
    case Plain(_) => 1
    case Short(_) => 2
    case Unit(_) => 6
  }

  predicate TokenAt(c: bytes, p: nat, t: Token) {
    match t
    case Plain(b) => p < |c| && c[p] == b && b != QUOTE && b != BACKSLASH
    case Short(letter) => p + 2 <= |c| && c[p] == BACKSLASH && c[p + 1] == letter && letter != LETTER_U
    case Unit(code) => UnitAt(c, p, code)
  }

  /** From `p` on, `c` consists of the tokens, up to `end`. */
  predicate TokensUntil(c: bytes, p: nat, ts: seq<Token>, end: nat)
    decreases |ts|
  {
    if ts == [] then p == end else TokenAt(c, p, ts[0]) && TokensUntil(c, p + Width(ts[0]), ts[1..], end)
  }

  predicate High(ts: seq<Token>, i: int) {
    0 <= i < |ts| && ts[i].Unit? && HighSurrogate(ts[i].code)
  }

  predicate Low(ts: seq<Token>, i: int) {
    0 <= i < |ts| && ts[i].Unit? && LowSurrogate(ts[i].code)
  }

  /** The i-th token is a surrogate without its partner right beside it. */
  predicate Unpaired(ts: seq<Token>, i: int) {
    (High(ts, i) && !Low(ts, i + 1)) || (Low(ts, i) && !High(ts, i - 1))
  }

  /** Two-character escapes have one of the eight letters, and every surrogate has its partner right beside it. */
  predicate Legal(ts: seq<Token>) {
    forall i :: 0 <= i < |ts| ==> (ts[i].Short? ==> Unescaped(ts[i].letter) != 0) && !Unpaired(ts, i)
  }

  /** The bytes that the tokens stand for, if they are legal: pairs are taken from the left. */
  function Meaning(ts: seq<Token>): Option<bytes> {
    if ts == [] then Some([])
    else
      match ts[0]
      case Plain(b) => Behind([b], Meaning(ts[1..]))
      case Short(letter) => if Unescaped(letter) == 0 then None else Behind([Unescaped(letter)], Meaning(ts[1..]))
      case Unit(code) =>
        if LowSurrogate(code) then None
        else if !HighSurrogate(code) then Behind(Utf8(code), Meaning(ts[1..]))
        else if !Low(ts, 1) then None
        else Behind(Utf8(CombineSurrogates(code, ts[1].code)), Meaning(ts[2..]))
  }

  function Behind(front: bytes, rest: Option<bytes>): Option<bytes> {
    if rest.None? then None else Some(front + rest.value)
  }

  /** Without its first `n` tokens a list is legal just as before, if those need no partner among the rest. */
  lemma LegalRest(ts: seq<Token>, n: nat)
    requires 1 <= n <= |ts| && !High(ts, n - 1)
    requires forall i :: 0 <= i < n ==> (ts[i].Short? ==> Unescaped(ts[i].letter) != 0) && !Unpaired(ts, i)
    ensures Legal(ts) <==> Legal(ts[n..])
  {
    var rest := ts[n..];
    assert forall i :: 0 <= i < |rest| ==> rest[i] == ts[n + i];
    assert forall i :: 0 <= i < |rest| ==> (Unpaired(rest, i) <==> Unpaired(ts, n + i));
    if Legal(rest) {
      forall i | n <= i < |ts| ensures (ts[i].Short? ==> Unescaped(ts[i].letter) != 0) && !Unpaired(ts, i) {
        assert ts[i] == rest[i - n] && !Unpaired(rest, i - n);
      }
    }
  }

  /** The tokens stand for something exactly when each of them is legal where it is. */
  lemma {:induction false} MeaningExactly(ts: seq<Token>)
    ensures Meaning(ts).Some? <==> Legal(ts)
    decreases |ts|
  {
    if ts != [] {
      var n := if High(ts, 0) && Low(ts, 1) then 2 else 1;
      if (ts[0].Short? && Unescaped(ts[0].letter) == 0) || Unpaired(ts, 0) {
        assert !Legal(ts);
      } else {
        MeaningExactly(ts[n..]);
        LegalRest(ts, n);
      }
    }
  }

  /** The two-character escapes: \b, \f, \n, \r, \t, and the quote, the backslash and the slash for themselves. */
  lemma ShortEscapes(letter: byte)
    ensures Meaning([Short(letter)]) ==
            if letter == 98 then Some([8]) else if letter == 102 then Some([12]) else if letter == 110 then Some([10])
            else if letter == 114 then Some([13]) else if letter == 116 then Some([9])
            else if letter == 34 || letter == 92 || letter == 47 then Some([letter]) else None
  {
    assert [Short(letter)][1..] == [];
    assert forall b: byte :: [b] + [] == [b];
  }

  // ----- what the two passes make of it -----

  lemma {:induction false} TokensEnd(c: bytes, p: nat, ts: seq<Token>, end: nat)
    requires TokensUntil(c, p, ts, end) && end < |c| && c[end] == QUOTE
    ensures p <= end && FindEnd(c, p) == Some(end)
    decreases |ts|
  {
    if ts != [] {
      TokensEnd(c, p + Width(ts[0]), ts[1..], end);
      if ts[0].Unit? {
        UnitHidesNoQuote(c, p, ts[0].code);
      }
    }
  }

  /** One step of the second pass: a token, a pair, or the end of it. */
  lemma TokenPiece(c: bytes, p: nat, ts: seq<Token>, end: nat)
    requires ts != [] && TokensUntil(c, p, ts, end) && p + Width(ts[0]) <= end < |c|
    requires |ts| > 1 ==> p + Width(ts[0]) + Width(ts[1]) <= end
    ensures var piece := NextPiece(c, p, end);
            match ts[0]
            case Plain(b) => piece == Piece([b], 1)
            case Short(letter) =>
              piece == if Unescaped(letter) == 0 then BadPiece else Piece([Unescaped(letter)], 2)
            case Unit(code) =>
              piece ==
              if LowSurrogate(code) then BadPiece
              else if !HighSurrogate(code) then Piece(Utf8(code), 6)
              else if !Low(ts, 1) then BadPiece
              else Piece(Utf8(CombineSurrogates(code, ts[1].code)), 12)
  {
    hide Utf8, Hex4;
    if |ts| > 1 {
      assert TokenAt(c, p + Width(ts[0]), ts[1]);
    }
  }

  lemma {:induction false} TokensRead(c: bytes, p: nat, ts: seq<Token>, end: nat)
    requires TokensUntil(c, p, ts, end) && end < |c| && c[end] == QUOTE
    ensures p <= end && Unescape(c, p, end) == Meaning(ts)
    decreases |ts|
  {
    hide NextPiece, UnitAt, FindEnd, Utf8;
    TokensEnd(c, p, ts, end);
    if ts != [] {
      var q := p + Width(ts[0]);
      TokensEnd(c, q, ts[1..], end);
      TokensRead(c, q, ts[1..], end);
      if |ts| > 1 {
        assert ts[1..][1..] == ts[2..];
        TokensEnd(c, q + Width(ts[1]), ts[2..], end);
        TokensRead(c, q + Width(ts[1]), ts[2..], end);
      }
      TokenPiece(c, p, ts, end);
    }
  }

  /**
    A literal whose escapes all have their four digits is accepted if and only if it is legal, and is then worth what
    its tokens stand for, up to the first NUL.
    */
  lemma LiteralReads(c: bytes, p: nat, ts: seq<Token>, end: nat)
    requires p < |c| && c[p] == QUOTE && TokensUntil(c, p + 1, ts, end) && end < |c| && c[end] == QUOTE
    ensures Legal(ts) <==> Meaning(ts).Some?
    ensures ParseStringAt(c, p) == if Legal(ts) then StringOk(CString(Meaning(ts).value), end + 1) else StringFail
  {
    hide Unescape, FindEnd, Meaning, Legal, TokensUntil, CString;
    MeaningExactly(ts);
    TokensEnd(c, p + 1, ts, end);
    TokensRead(c, p + 1, ts, end);
  }

  /** No such literal with a surrogate that lacks its partner is accepted, whatever stands before or after it. */
  lemma UnpairedSurrogateRejected(c: bytes, p: nat, ts: seq<Token>, end: nat, i: nat)
    requires p < |c| && c[p] == QUOTE && TokensUntil(c, p + 1, ts, end) && end < |c| && c[end] == QUOTE
    requires Unpaired(ts, i)
    ensures ParseStringAt(c, p) == StringFail
  {
    hide TokensUntil, ParseStringAt;
    LiteralReads(c, p, ts, end);
  }

  // ----- code units alone -----

  /** The code units of some scalar values (section 2.1 of RFC 2781). */
  function Utf16All(cps: seq<nat>): seq<nat>
    requires forall i :: 0 <= i < |cps| ==> IsScalar(cps[i])
  {
    if cps == [] then [] else assert IsScalar(cps[0]); Utf16(cps[0]) + Utf16All(cps[1..])
  }

  predicate Scalars(cps: seq<nat>) {
    forall i :: 0 <= i < |cps| ==> IsScalar(cps[i])
  }

  /** The units are the UTF-16 form of some text. */
  ghost predicate WellFormed(us: seq<CodeUnit>) {
    exists cps: seq<nat> :: Scalars(cps) && Utf16All(cps) == us
  }

  function Units(us: seq<CodeUnit>): (ts: seq<Token>)
    ensures |ts| == |us| && forall i :: 0 <= i < |us| ==> ts[i] == Unit(us[i])
  {
    seq(|us|, i requires 0 <= i < |us| => Unit(us[i]))
  }

  /** The UTF-16 form of a text stands for its UTF-8 form. */
  lemma {:induction false} TextMeaning(us: seq<CodeUnit>, cps: seq<nat>)
    requires Scalars(cps) && Utf16All(cps) == us
    ensures Meaning(Units(us)) == Some(Utf8All(cps))
    decreases |cps|
  {
    hide Utf8;
    var ts := Units(us);
    if cps != [] {
      assert IsScalar(cps[0]);
      var n := |Utf16(cps[0])|;
      assert us[..n] == Utf16(cps[0]) && us[n..] == Utf16All(cps[1..]);
      TextMeaning(us[n..], cps[1..]);
      assert ts[n..] == Units(us[n..]);
      if n == 2 {
        Utf16RoundTrip(cps[0]);
      }
    }
  }

  /** Units that stand for something are the UTF-16 form of a text. */
  lemma {:induction false} TextOf(us: seq<CodeUnit>) returns (cps: seq<nat>)
    requires Meaning(Units(us)).Some?
    ensures Scalars(cps) && Utf16All(cps) == us
    decreases |us|
  {
    hide Utf8;
    var ts := Units(us);
    if us == [] {
      cps := [];
    } else {
      var n := if HighSurrogate(us[0]) then 2 else 1;
      assert ts[n..] == Units(us[n..]);
      var rest := TextOf(us[n..]);
      var cp := if n == 2 then CombineSurrogates(us[0], us[1]) else us[0];
      UnitsOf(cp, us[..n]);
      cps := [cp] + rest;
      assert cps[1..] == rest && us == us[..n] + us[n..];
    }
  }

  /** Splitting what was combined. */
  lemma SplitCombined(high: nat, low: nat)
    requires HighSurrogate(high) && LowSurrogate(low)
    ensures Utf16(CombineSurrogates(high, low)) == [high, low]
  {
    var h, l := high - 0xD800, low - 0xDC00;
    assert high % 0x400 == h && low % 0x400 == l;
    assert CombineSurrogates(high, low) - 0x10000 == h * 0x400 + l;
  }

  /** The units that spell a scalar value are its UTF-16 form. */
  lemma UnitsOf(cp: nat, us: seq<CodeUnit>)
    requires if |us| == 2 then HighSurrogate(us[0]) && LowSurrogate(us[1]) && cp == CombineSurrogates(us[0], us[1])
             else |us| == 1 && !HighSurrogate(us[0]) && !LowSurrogate(us[0]) && cp == us[0]
    ensures IsScalar(cp) && Utf16(cp) == us
  {
    if |us| == 2 {
      hide Utf16;
      SplitCombined(us[0], us[1]);
      assert us == [us[0], us[1]];
    }
  }

  /**
    A literal of \uXXXX escapes alone is accepted if and only if its code units are well-formed UTF-16; it is then worth
    the UTF-8 form of the text they spell, up to the first NUL.
    */
  lemma UnitsReadExactly(c: bytes, p: nat, us: seq<CodeUnit>, end: nat)
    requires p < |c| && c[p] == QUOTE && TokensUntil(c, p + 1, Units(us), end) && end < |c| && c[end] == QUOTE
    ensures ParseStringAt(c, p).StringOk? <==> WellFormed(us)
    ensures forall cps: seq<nat> :: Scalars(cps) && Utf16All(cps) == us ==>
      ParseStringAt(c, p) == StringOk(CString(Utf8All(cps)), end + 1)
  {
    hide ParseStringAt, TokensUntil, Meaning, Legal, CString, Utf16All, Utf8All;
    LiteralReads(c, p, Units(us), end);
    if Legal(Units(us)) {
      var cps := TextOf(us);
      assert WellFormed(us);
    }
    forall cps: seq<nat> | Scalars(cps) && Utf16All(cps) == us
      ensures ParseStringAt(c, p) == StringOk(CString(Utf8All(cps)), end + 1)
    {
      TextMeaning(us, cps);
    }
  }

  // ----- a literal with an escape that lacks its digits -----

  /**
    In "\uZ\ud800", quotes included, the malformed escape takes the six characters up to the d, so the surrogate is
    passed over and the literal is accepted. It is worth nothing, since the escape reads as NUL.
    */
  lemma ShiftedSurrogateAccepted()
    ensures var c: bytes := [QUOTE, BACKSLASH, LETTER_U, 90, BACKSLASH, LETTER_U, 100, 56, 48, 48, QUOTE, NUL];
            ParseStringAt(c, 0) == StringOk([], 11)
  {
    var c: bytes := [QUOTE, BACKSLASH, LETTER_U, 90, BACKSLASH, LETTER_U, 100, 56, 48, 48, QUOTE, NUL];
    assert FindEnd(c, 6) == FindEnd(c, 7) == FindEnd(c, 8) == FindEnd(c, 9) == Some(10);
    assert FindEnd(c, 1) == FindEnd(c, 3) == FindEnd(c, 4) == Some(10);
    assert HexDigit(c[3]) == 16;
    MalformedHexReadsAsNul(c, 1, 10);
    var tail: bytes := [56] + ([48] + ([48] + []));
    assert Unescape(c, 9, 10) == Some([48] + []) && Unescape(c, 8, 10) == Some([48] + ([48] + []));
    assert Unescape(c, 7, 10) == Some(tail);
    assert Unescape(c, 1, 10) == Some([NUL] + tail);
    assert ([NUL] + tail)[0] == NUL;
  }
}
