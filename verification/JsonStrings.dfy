/**
  JSON strings (section 7 of RFC 8259) as cJSON writes and reads them:
  the escaped text of a byte string, the two passes that undo it, and why the
  second pass never needs more room than the first one estimated.
  */
module JsonStrings {
  import opened Bytes
  import opened Unicode

  /** The text `t` stands at position `p` of `c`. */
  predicate At(c: bytes, p: nat, t: bytes) {
    p + |t| <= |c| && c[p..p + |t|] == t
  }

  lemma AtConcat(c: bytes, p: nat, a: bytes, b: bytes)
    ensures At(c, p, a + b) <==> At(c, p, a) && At(c, p + |a|, b)
  {
    if p + |a| + |b| <= |c| {
      var t := c[p..p + |a + b|];
      assert t[..|a|] == c[p..p + |a|] && t[|a|..] == c[p + |a|..p + |a| + |b|];
      assert t == t[..|a|] + t[|a|..];
      assert (a + b)[..|a|] == a && (a + b)[|a|..] == b;
    }
  }

  // ----- writing -----

  /** The letter of a two-character escape, or 0 when the byte has none. */
  function ShortEscape(b: byte): byte {
    if b == QUOTE || b == BACKSLASH then b
    else if b == 8 then 98
    else if b == 12 then 102
    else if b == NEWLINE then 110
    else if b == RETURN then 114
    else if b == TAB then 116
    else 0
  }

  function EscapeByte(b: byte): (t: bytes)
    ensures t != [] && (b != NUL ==> NulFree(t))
  {
    if ShortEscape(b) != 0 then [BACKSLASH, ShortEscape(b)]
    else if b < 32 then [BACKSLASH, LETTER_U, 48, 48, HexLetter(b / 16, false), HexLetter(b % 16, false)]
    else [b]
  }

  function Escaped(s: bytes): bytes {
    if s == [] then [] else EscapeByte(s[0]) + Escaped(s[1..])
  }

  lemma {:induction false} EscapedConcat(s: bytes, t: bytes)
    ensures Escaped(s + t) == Escaped(s) + Escaped(t)
    decreases |s|
  {
    hide EscapeByte;
    if s == [] {
      assert s + t == t;
    } else {
      assert (s + t)[1..] == s[1..] + t;
      EscapedConcat(s[1..], t);
      ConcatAssociates(EscapeByte(s[0]), Escaped(s[1..]), Escaped(t));
    }
  }

  lemma EscapedSnoc(s: bytes, b: byte)
    ensures Escaped(s + [b]) == Escaped(s) + EscapeByte(b)
  {
    EscapedConcat(s, [b]);
    assert [b][1..] == [] && EscapeByte(b) + [] == EscapeByte(b);
  }

  lemma {:induction false} EscapedNulFree(s: bytes)
    requires NulFree(s)
    ensures NulFree(Escaped(s)) && |Escaped(s)| >= |s|
    decreases |s|
  {
    if s != [] {
      EscapedNulFree(s[1..]);
    }
  }

  /** A prefix never needs more room than the whole. */
  lemma {:induction false} EscapedPrefix(s: bytes, i: nat)
    requires i < |s| && NulFree(s)
    ensures Escaped(s[..i + 1]) == Escaped(s[..i]) + EscapeByte(s[i])
    ensures |Escaped(s[..i + 1])| <= |Escaped(s)|
    decreases |s| - i
  {
    assert s[..i] + [s[i]] == s[..i + 1];
    EscapedSnoc(s[..i], s[i]);
    if i + 1 < |s| {
      EscapedPrefix(s, i + 1);
    } else {
      assert s[..i + 1] == s;
    }
  }

  /**
    What is printed for each byte: an escape for the quote, the backslash and the control characters, and every other
    byte for itself.
    */
  lemma PrintedForms(b: byte)
    ensures var hex := [92, 117, 48, 48, 48 + b / 16, if b % 16 < 10 then 48 + b % 16 else 87 + b % 16];
            Escaped([b]) ==
            if b == 34 || b == 92 then [92, b] else if b == 8 then [92, 98] else if b == 9 then [92, 116]
            else if b == 10 then [92, 110] else if b == 12 then [92, 102] else if b == 13 then [92, 114]
            else if b < 32 then hex else [b]
  {
    assert [b][1..] == [] && Escaped([]) == [];
    assert Escaped([b]) == EscapeByte(b) + [] == EscapeByte(b);
  }

  function Quoted(s: bytes): bytes {
    [QUOTE] + Escaped(s) + [QUOTE]
  }

  // ----- reading -----

  /** First pass: the closing quote of a string whose contents start at `p`; every backslash hides one byte. */
  function FindEnd(c: bytes, p: nat): (r: Option<nat>)
    requires p <= |c|
    ensures r.Some? ==> p <= r.value < |c| && c[r.value] == QUOTE
    decreases |c| - p
  {
    if p == |c| then None
    else if c[p] == QUOTE then Some(p)
    else if c[p] == BACKSLASH then if p + 1 >= |c| then None else FindEnd(c, p + 2)
    else FindEnd(c, p + 1)
  }

  /** What the byte after a backslash stands for; 0 marks the letter of a \uXXXX literal and every illegal one. */
  function Unescaped(letter: byte): byte {
    if letter == QUOTE || letter == BACKSLASH || letter == SLASH then letter
    else if letter == 98 then 8
    else if letter == 102 then 12
    else if letter == 110 then NEWLINE
    else if letter == 114 then RETURN
    else if letter == 116 then TAB
    else 0
  }

  /** One step of the second pass at `p`: the bytes it writes and the bytes it consumes, or None to give up. */
  datatype Piece = BadPiece | Piece(output: bytes, used: nat)

  function NextPiece(c: bytes, p: nat, end: nat): (r: Piece)
    requires p < end < |c|
    ensures r.Piece? ==> r.used >= 1 && p + r.used <= end + 1
    ensures r.Piece? ==> |r.output| <= r.used - r.used / 2
  {
    if c[p] != BACKSLASH then Piece([c[p]], 1)
    else if Unescaped(c[p + 1]) != 0 then Piece([Unescaped(c[p + 1])], 2)
    else if c[p + 1] == LETTER_U then
      var r := Utf16Literal(c, p, end);
      if r.BadLiteral? then BadPiece else Piece(Utf8(r.codepoint), r.length)
    else BadPiece
  }

  /** Second pass: the bytes written for the contents `c[p..end]`. */
  function Unescape(c: bytes, p: nat, end: nat): (r: Option<bytes>)
    requires p <= end + 1 && end < |c|
    decreases end + 1 - p
  {
    if p >= end then Some([])
    else
      var piece := NextPiece(c, p, end);
      if piece.BadPiece? then None
      else
        var rest := Unescape(c, p + piece.used, end);
        if rest.None? then None else Some(piece.output + rest.value)
  }

  /** The value of the string literal at `p` and the position just past it. The value ends at the first NUL written. */
  datatype StringResult = StringFail | StringOk(value: bytes, end: nat)

  function ParseStringAt(c: bytes, p: nat): (r: StringResult)
    requires p < |c|
    ensures r.StringOk? ==> p + 2 <= r.end <= |c|
  {
    if c[p] != QUOTE then StringFail
    else
      var end := FindEnd(c, p + 1);
      if end.None? then StringFail
      else
        var out := Unescape(c, p + 1, end.value);
        if out.None? then StringFail else StringOk(CString(out.value), end.value + 1)
  }

  // ----- reading undoes writing -----

  lemma EscapeByteReads(c: bytes, p: nat, b: byte)
    requires b != NUL && At(c, p, EscapeByte(b)) && p + |EscapeByte(b)| < |c|
    ensures FindEnd(c, p) == FindEnd(c, p + |EscapeByte(b)|)
    ensures forall end :: p + |EscapeByte(b)| <= end < |c| ==> NextPiece(c, p, end) == Piece([b], |EscapeByte(b)|)
  {
    var t := EscapeByte(b);
    assert forall i :: 0 <= i < |t| ==> c[p + i] == t[i];
    if ShortEscape(b) != 0 {
      assert t == [BACKSLASH, ShortEscape(b)];
      assert c[p] == BACKSLASH && c[p + 1] == ShortEscape(b);
    } else if b < 32 {
      assert c[p] == t[0] && c[p + 1] == t[1] && c[p + 2] == t[2] && c[p + 3] == t[3] && c[p + 4] == t[4] &&
        c[p + 5] == t[5];
      assert Hex4(c, p + 2) == b;
      assert FindEnd(c, p) == FindEnd(c, p + 2);
      assert FindEnd(c, p + 2) == FindEnd(c, p + 3);
      assert FindEnd(c, p + 3) == FindEnd(c, p + 4);
      assert FindEnd(c, p + 4) == FindEnd(c, p + 5);
    }
  }

  lemma ConcatAssociates(a: bytes, b: bytes, c: bytes)
    ensures a + b + c == a + (b + c)
  {}

  lemma EscapedUnfold(s: bytes)
    requires s != []
    ensures Escaped(s) == EscapeByte(s[0]) + Escaped(s[1..])
  {}

  lemma EscapedSplits(c: bytes, p: nat, s: bytes)
    requires s != [] && NulFree(s) && At(c, p, Escaped(s) + [QUOTE])
    ensures At(c, p, EscapeByte(s[0])) && At(c, p + |EscapeByte(s[0])|, Escaped(s[1..]) + [QUOTE])
    ensures |Escaped(s)| == |EscapeByte(s[0])| + |Escaped(s[1..])| && p + |Escaped(s)| < |c|
  {
    hide EscapeByte, Escaped;
    EscapedUnfold(s);
    var t, rest := EscapeByte(s[0]), Escaped(s[1..]);
    ConcatAssociates(t, rest, [QUOTE]);
    AtConcat(c, p, t, rest + [QUOTE]);
  }

  lemma {:induction false} EscapedEnds(c: bytes, p: nat, s: bytes)
    requires NulFree(s) && At(c, p, Escaped(s) + [QUOTE])
    ensures FindEnd(c, p) == Some(p + |Escaped(s)|)
    decreases |s|
  {
    if s == [] {
      assert c[p..p + 1][0] == QUOTE;
    } else {
      hide FindEnd, Escaped, EscapeByte, At;
      EscapedSplits(c, p, s);
      EscapeByteReads(c, p, s[0]);
      EscapedEnds(c, p + |EscapeByte(s[0])|, s[1..]);
    }
  }

  lemma UnescapeStep(c: bytes, p: nat, end: nat, b: byte, used: nat, rest: bytes)
    requires p < end < |c| && NextPiece(c, p, end) == Piece([b], used)
    requires Unescape(c, p + used, end) == Some(rest)
    ensures Unescape(c, p, end) == Some([b] + rest)
  {}

  lemma {:induction false} EscapedReads(c: bytes, p: nat, end: nat, s: bytes)
    requires NulFree(s) && At(c, p, Escaped(s) + [QUOTE]) && end == p + |Escaped(s)|
    ensures Unescape(c, p, end) == Some(s)
    decreases |s|
  {
    hide At, NextPiece, EscapeByte;
    if s != [] {
      EscapedSplits(c, p, s);
      var q := p + |EscapeByte(s[0])|;
      assert NextPiece(c, p, end) == Piece([s[0]], q - p) by { EscapeByteReads(c, p, s[0]); }
      EscapedReads(c, q, end, s[1..]);
      UnescapeStep(c, p, end, s[0], q - p, s[1..]);
      assert s == [s[0]] + s[1..];
    }
  }

  /** Every NUL-free byte string comes back from its quoted text, and exactly that text is consumed. */
  lemma QuotedRoundTrip(c: bytes, p: nat, s: bytes)
    requires NulFree(s) && At(c, p, Quoted(s))
    ensures p < |c| && ParseStringAt(c, p) == StringOk(s, p + |Quoted(s)|)
  {
    hide Escaped, FindEnd, Unescape, CString;
    var t := Escaped(s) + [QUOTE];
    assert At(c, p, [QUOTE]) && At(c, p + 1, t) by {
      assert Quoted(s) == [QUOTE] + t;
      AtConcat(c, p, [QUOTE], t);
    }
    assert c[p..p + 1][0] == QUOTE;
    var end := p + 1 + |Escaped(s)|;
    assert FindEnd(c, p + 1) == Some(end) by { EscapedEnds(c, p + 1, s); }
    assert Unescape(c, p + 1, end) == Some(s) by { EscapedReads(c, p + 1, end, s); }
    CStringOfNulFree(s);
  }

  // ----- \uXXXX escapes -----

  /** A \uXXXX sequence at `p` with four genuine hexadecimal digits, in either case, and the given value. */
  predicate UnitAt(c: bytes, p: nat, code: nat) {
    && p + 6 <= |c| && c[p] == BACKSLASH && c[p + 1] == LETTER_U
    && (forall k :: p + 2 <= k < p + 6 ==> HexDigit(c[k]) < 16)
    && Hex4(c, p + 2) == code
  }

  /** From `p` on, `c` spells the scalar values `cps` as \uXXXX sequences and surrogate pairs, up to `end`. */
  predicate SpellsUntil(c: bytes, p: nat, cps: seq<nat>, end: nat)
    requires forall i :: 0 <= i < |cps| ==> IsScalar(cps[i])
    decreases |cps|
  {
    if cps == [] then p == end
    else
      var u := Utf16(cps[0]);
      UnitAt(c, p, u[0]) && (|u| == 2 ==> UnitAt(c, p + 6, u[1])) && SpellsUntil(c, p + 6 * |u|, cps[1..], end)
  }

  function Utf8All(cps: seq<nat>): bytes
    requires forall i :: 0 <= i < |cps| ==> IsScalar(cps[i])
  {
    if cps == [] then [] else assert IsScalar(cps[0]); Utf8(cps[0]) + Utf8All(cps[1..])
  }

  lemma UnitHidesNoQuote(c: bytes, p: nat, code: nat)
    requires UnitAt(c, p, code)
    ensures FindEnd(c, p) == FindEnd(c, p + 6)
  {
    assert HexDigit(c[p + 2]) < 16 && HexDigit(c[p + 3]) < 16 && HexDigit(c[p + 4]) < 16 && HexDigit(c[p + 5]) < 16;
    assert FindEnd(c, p) == FindEnd(c, p + 2);
    assert FindEnd(c, p + 2) == FindEnd(c, p + 3);
    assert FindEnd(c, p + 3) == FindEnd(c, p + 4);
    assert FindEnd(c, p + 4) == FindEnd(c, p + 5);
  }

  lemma {:induction false} SpelledEnds(c: bytes, p: nat, cps: seq<nat>, end: nat)
    requires forall i :: 0 <= i < |cps| ==> IsScalar(cps[i])
    requires SpellsUntil(c, p, cps, end) && end < |c| && c[end] == QUOTE
    ensures p <= end && FindEnd(c, p) == Some(end)
    decreases |cps|
  {
    if cps != [] {
      var u := Utf16(cps[0]);
      SpelledEnds(c, p + 6 * |u|, cps[1..], end);
      UnitHidesNoQuote(c, p, u[0]);
      if |u| == 2 {
        UnitHidesNoQuote(c, p + 6, u[1]);
      }
    }
  }

  lemma SpelledPiece(c: bytes, p: nat, cp: nat, end: nat)
    requires IsScalar(cp)
    requires var u := Utf16(cp); UnitAt(c, p, u[0]) && (|u| == 2 ==> UnitAt(c, p + 6, u[1])) && p + 6 * |u| <= end < |c|
    ensures NextPiece(c, p, end) == Piece(Utf8(cp), 6 * |Utf16(cp)|)
  {
    hide Utf8, Hex4;
    if cp >= 0x10000 {
      Utf16RoundTrip(cp);
    }
  }

  lemma {:induction false} SpelledReads(c: bytes, p: nat, cps: seq<nat>, end: nat)
    requires forall i :: 0 <= i < |cps| ==> IsScalar(cps[i])
    requires SpellsUntil(c, p, cps, end) && p <= end < |c| && c[end] == QUOTE
    ensures Unescape(c, p, end) == Some(Utf8All(cps))
    decreases |cps|
  {
    hide NextPiece, UnitAt, FindEnd, Utf16, Utf8;
    if cps != [] {
      var q := p + 6 * |Utf16(cps[0])|;
      SpelledEnds(c, q, cps[1..], end);
      SpelledReads(c, q, cps[1..], end);
      SpelledPiece(c, p, cps[0], end);
    }
  }

  lemma {:induction false} Utf8AllNulFree(cps: seq<nat>)
    requires forall i :: 0 <= i < |cps| ==> IsScalar(cps[i]) && cps[i] != 0
    ensures NulFree(Utf8All(cps))
    decreases |cps|
  {
    if cps != [] {
      Utf8AllNulFree(cps[1..]);
    }
  }

  /** A literal that spells nonzero scalar values reads as exactly their shortest-form UTF-8. */
  lemma SpelledStringIsUtf8(c: bytes, p: nat, cps: seq<nat>, end: nat)
    requires forall i :: 0 <= i < |cps| ==> IsScalar(cps[i]) && cps[i] != 0
    requires p < |c| && c[p] == QUOTE && SpellsUntil(c, p + 1, cps, end) && end < |c| && c[end] == QUOTE
    ensures ParseStringAt(c, p) == StringOk(Utf8All(cps), end + 1)
  {
    SpelledEnds(c, p + 1, cps, end);
    SpelledReads(c, p + 1, cps, end);
    Utf8AllNulFree(cps);
    CStringOfNulFree(Utf8All(cps));
  }

  /** The second pass, started at `p`, comes to stand at `q`. */
  predicate Reaches(c: bytes, p: nat, end: nat, q: nat)
    requires p <= end + 1 && end < |c|
    decreases end + 1 - p
  {
    p == q || (p < end && var piece := NextPiece(c, p, end); piece.Piece? && Reaches(c, p + piece.used, end, q))
  }

  /** A surrogate at `q` that is not the first half of a pair lying before `end`. */
  predicate UnpairedAt(c: bytes, q: nat, end: nat)
    requires end < |c|
  {
    && q + 6 <= end && c[q] == BACKSLASH && c[q + 1] == LETTER_U
    && var code := Hex4(c, q + 2);
       || LowSurrogate(code)
       || (HighSurrogate(code) && !(q + 12 <= end && c[q + 6] == BACKSLASH && c[q + 7] == LETTER_U &&
          LowSurrogate(Hex4(c, q + 8))))
  }

  lemma {:induction false} ReachingUnpairedFails(c: bytes, p: nat, end: nat, q: nat)
    requires p <= end + 1 && end < |c| && Reaches(c, p, end, q) && UnpairedAt(c, q, end)
    ensures Unescape(c, p, end).None?
    decreases end + 1 - p
  {
    if p == q {
      assert NextPiece(c, p, end).BadPiece?;
    } else {
      ReachingUnpairedFails(c, p + NextPiece(c, p, end).used, end, q);
    }
  }

  /** A literal is rejected when its second pass comes to stand at an unpaired surrogate. */
  lemma ReachedSurrogateRejected(c: bytes, p: nat, q: nat)
    requires p < |c| && c[p] == QUOTE
    requires var end := FindEnd(c, p + 1);
             end.Some? && Reaches(c, p + 1, end.value, q) && UnpairedAt(c, q, end.value)
    ensures ParseStringAt(c, p).StringFail?
  {
    ReachingUnpairedFails(c, p + 1, FindEnd(c, p + 1).value, q);
  }

  // ----- malformed escapes -----

  /** The four characters at `at` are not all hexadecimal digits. */
  predicate MalformedAt(c: bytes, at: nat)
    requires at + 4 <= |c|
  {
    exists k :: at <= k < at + 4 && HexDigit(c[k]) == 16
  }

  predicate ZerosAt(c: bytes, at: nat)
    requires at + 4 <= |c|
  {
    forall k :: at <= k < at + 4 ==> c[k] == 48
  }

  /**
    A \u escape is read as a NUL byte if and only if it has room before `end` and is followed by 0000 or by anything but
    four hexadecimal digits: the second pass cannot tell these apart.
    */
  lemma MalformedHexReadsAsNul(c: bytes, p: nat, end: nat)
    requires p < end < |c| && c[p] == BACKSLASH && c[p + 1] == LETTER_U
    ensures NextPiece(c, p, end) == Piece([NUL], 6) <==> p + 6 <= end && (MalformedAt(c, p + 2) || ZerosAt(c, p + 2))
  {
    if p + 6 <= end {
      Hex4Zero(c, p + 2);
    }
  }

  lemma Hex4Zero(c: bytes, at: nat)
    requires at + 4 <= |c|
    ensures Hex4(c, at) == 0 <==> MalformedAt(c, at) || ZerosAt(c, at)
  {
    assert MalformedAt(c, at) <==>
      HexDigit(c[at]) == 16 || HexDigit(c[at + 1]) == 16 || HexDigit(c[at + 2]) == 16 || HexDigit(c[at + 3]) == 16;
  }

  /** The bytes that the second pass has written when it comes to stand at `q`. */
  function WrittenTo(c: bytes, p: nat, end: nat, q: nat): bytes
    requires p <= end + 1 && end < |c| && Reaches(c, p, end, q)
    decreases end + 1 - p
  {
    if p == q then []
    else NextPiece(c, p, end).output + WrittenTo(c, p + NextPiece(c, p, end).used, end, q)
  }

  lemma UnescapeUnfolds(c: bytes, p: nat, end: nat)
    requires p < end < |c| && NextPiece(c, p, end).Piece?
    ensures var piece := NextPiece(c, p, end);
            var rest := Unescape(c, p + piece.used, end);
            Unescape(c, p, end) == (if rest.None? then None else Some(piece.output + rest.value))
  {
    hide NextPiece;
  }

  lemma {:induction false} UnescapeSplits(c: bytes, p: nat, end: nat, q: nat)
    requires p <= end + 1 && q <= end < |c| && Reaches(c, p, end, q)
    ensures Unescape(c, p, end) ==
      (if Unescape(c, q, end).None? then None else Some(WrittenTo(c, p, end, q) + Unescape(c, q, end).value))
    decreases end + 1 - p
  {
    hide NextPiece, Unescape;
    var rest := Unescape(c, q, end);
    if p == q {
      assert rest.Some? ==> [] + rest.value == rest.value;
    } else {
      var piece := NextPiece(c, p, end);
      UnescapeSplits(c, p + piece.used, end, q);
      UnescapeUnfolds(c, p, end);
      var mid := WrittenTo(c, p + piece.used, end, q);
      assert rest.Some? ==> piece.output + (mid + rest.value) == piece.output + mid + rest.value;
    }
  }

  lemma {:induction false} CStringCut(a: bytes, b: bytes)
    ensures CString(a + [NUL] + b) == CString(a)
    decreases |a|
  {
    var t := a + [NUL] + b;
    if a != [] && a[0] != NUL {
      assert t[1..] == a[1..] + [NUL] + b;
      CStringCut(a[1..], b);
    }
  }

  /**
    What an accepted string with a malformed escape is worth: the bytes written before the escape. The rest of the
    literal is consumed and lost; it still decides whether the literal is accepted.
    */
  lemma MalformedHexCutsString(c: bytes, p: nat, q: nat)
    requires p < |c| && c[p] == QUOTE && FindEnd(c, p + 1).Some?
    requires var end := FindEnd(c, p + 1).value;
             && Reaches(c, p + 1, end, q) && q + 6 <= end && c[q] == BACKSLASH && c[q + 1] == LETTER_U &&
                MalformedAt(c, q + 2)
    ensures var end := FindEnd(c, p + 1).value;
            var before := WrittenTo(c, p + 1, end, q);
            && ParseStringAt(c, p) ==
               (if Unescape(c, q + 6, end).None? then StringFail else StringOk(CString(before), end + 1))
            && (ParseStringAt(c, p).StringOk? ==> |ParseStringAt(c, p).value| <= |before|)
  {
    hide NextPiece, FindEnd, MalformedAt, Reaches, Unescape, WrittenTo, CString;
    var end := FindEnd(c, p + 1).value;
    MalformedHexReadsAsNul(c, q, end);
    UnescapeSplits(c, p + 1, end, q);
    UnescapeUnfolds(c, q, end);
    var before, rest := WrittenTo(c, p + 1, end, q), Unescape(c, q + 6, end);
    if rest.Some? {
      assert before + ([NUL] + rest.value) == before + [NUL] + rest.value;
      CStringCut(before, rest.value);
    }
  }

  /** The literal "a\uZZZZb", quotes included, is accepted as a whole and worth "a". */
  lemma MalformedLiteralCut()
    ensures var c: bytes := [QUOTE, 97, BACKSLASH, LETTER_U, 90, 90, 90, 90, 98, QUOTE, NUL];
            ParseStringAt(c, 0) == StringOk([97], 10)
  {
    var c: bytes := [QUOTE, 97, BACKSLASH, LETTER_U, 90, 90, 90, 90, 98, QUOTE, NUL];
    assert FindEnd(c, 4) == FindEnd(c, 6) == FindEnd(c, 8) == Some(9);
    assert FindEnd(c, 1) == FindEnd(c, 2) == FindEnd(c, 4);
    assert HexDigit(c[4]) == 16;
    MalformedHexReadsAsNul(c, 2, 9);
    assert NextPiece(c, 1, 9) == Piece([97], 1) && NextPiece(c, 8, 9) == Piece([98], 1);
    assert Unescape(c, 8, 9) == Some([98] + []) && Unescape(c, 2, 9) == Some([NUL] + ([98] + []));
    assert Unescape(c, 1, 9) == Some([97] + ([NUL] + ([98] + [])));
    var out: bytes := [97] + ([NUL] + ([98] + []));
    assert out[0] == 97 && out[1..] == [NUL, 98] && CString([NUL, 98]) == [];
    assert CString(out) == [97] + CString(out[1..]);
  }

  // ----- the first pass reserves enough for the second -----

  /** The first pass, started at `lo`, begins an escape at `i`. */
  predicate StartsEscape(c: bytes, lo: nat, i: nat)
    requires lo <= i < |c|
    decreases i
  {
    c[i] == BACKSLASH && (i == lo || !StartsEscape(c, lo, i - 1))
  }

  /** How many escapes the first pass, started at `lo`, begins before `i`. */
  function EscapesBefore(c: bytes, lo: nat, i: nat): (n: nat)
    requires lo <= i <= |c|
    ensures n <= i - lo
    decreases i
  {
    if i == lo then 0 else EscapesBefore(c, lo, i - 1) + (if StartsEscape(c, lo, i - 1) then 1 else 0)
  }

  /** `k` bytes hold at most half as many escape beginnings, rounded up, wherever the second pass happens to stand. */
  lemma {:induction false} EscapesAreSpaced(c: bytes, lo: nat, p: nat, k: nat)
    requires lo <= p && p + k <= |c|
    ensures EscapesBefore(c, lo, p + k) <= EscapesBefore(c, lo, p) + (k + 1) / 2
    decreases k
  {
    if k >= 2 {
      EscapesAreSpaced(c, lo, p, k - 2);
      assert EscapesBefore(c, lo, p + k - 1) == EscapesBefore(c, lo, p + k - 2) +
        (if StartsEscape(c, lo, p + k - 2) then 1 else 0);
    }
  }

  /** Room never shrinks from left to right. */
  lemma {:induction false} RoomGrows(c: bytes, lo: nat, p: nat, q: nat)
    requires lo <= p <= q <= |c|
    ensures p - EscapesBefore(c, lo, p) <= q - EscapesBefore(c, lo, q)
    decreases q
  {
    if p < q {
      RoomGrows(c, lo, p, q - 1);
    }
  }

  /** One step of the second pass never writes more than its input minus the escapes counted there. */
  lemma PieceFits(c: bytes, lo: nat, p: nat, end: nat)
    requires lo <= p < end < |c| && !StartsEscape(c, lo, end - 1)
    requires NextPiece(c, p, end).Piece?
    ensures var piece := NextPiece(c, p, end);
            var q := if p + piece.used <= end then p + piece.used else end;
            |piece.output| + EscapesBefore(c, lo, q) - EscapesBefore(c, lo, p) <= q - p
  {
    var piece := NextPiece(c, p, end);
    if piece.used == 1 {
      assert !StartsEscape(c, lo, p);
    } else if p + piece.used <= end {
      EscapesAreSpaced(c, lo, p, piece.used);
    }
  }

  /**
    The bytes of the second pass, from any position at all, fit in the input left minus the escapes counted there.
    This holds also where malformed hexadecimal digits have shifted the second pass against the first.
    */
  lemma {:induction false} UnescapeFits(c: bytes, lo: nat, p: nat, end: nat)
    requires lo <= p <= end < |c|
    requires end > lo ==> !StartsEscape(c, lo, end - 1)
    ensures var out := Unescape(c, p, end);
            out.Some? ==> |out.value| + EscapesBefore(c, lo, end) - EscapesBefore(c, lo, p) <= end - p
    decreases end - p
  {
    if p < end && NextPiece(c, p, end).Piece? {
      var piece := NextPiece(c, p, end);
      PieceFits(c, lo, p, end);
      if p + piece.used <= end {
        UnescapeFits(c, lo, p + piece.used, end);
      }
    }
  }
}
