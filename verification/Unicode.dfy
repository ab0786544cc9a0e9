/**
  The UTF-16 escapes of JSON strings and the UTF-8 they are turned into.
  Follows section 3 of RFC 3629 (UTF-8) and section 2 of RFC 2781 (surrogate pairs).
  */
module Unicode {
  import opened Bytes
  import opened Words

  // ----- UTF-8 -----

  predicate IsScalar(cp: int) {
    0 <= cp < 0xD800 || 0xE000 <= cp <= 0x10FFFF
  }

  predicate Continuation(b: byte) {
    0x80 <= b < 0xC0
  }

  /** The table of section 3 of RFC 3629, without its rule that the shortest row must be used. */
  predicate Utf8Pattern(b: bytes) {
    || (|b| == 1 && b[0] < 0x80)
    || (|b| == 2 && 0xC0 <= b[0] < 0xE0 && Continuation(b[1]))
    || (|b| == 3 && 0xE0 <= b[0] < 0xF0 && Continuation(b[1]) && Continuation(b[2]))
    || (|b| == 4 && 0xF0 <= b[0] < 0xF8 && Continuation(b[1]) && Continuation(b[2]) && Continuation(b[3]))
  }

  /** The number a row of the table carries in its free bits, six of them in every continuation byte. */
  function Utf8Value(b: bytes): int
    requires Utf8Pattern(b)
  {
    if |b| == 1 then b[0]
    else if |b| == 2 then Append6(b[0] - 0xC0, b[1])
    else if |b| == 3 then Append6(Append6(b[0] - 0xE0, b[1]), b[2])
    else Append6(Append6(Append6(b[0] - 0xF0, b[1]), b[2]), b[3])
  }

  function Append6(high: int, b: byte): int {
    high * 0x40 + (b as int - 0x80)
  }

  function Utf8(cp: nat): (b: bytes)
    requires cp <= 0x10FFFF
    ensures 1 <= |b| <= 4
    ensures cp != 0 ==> NulFree(b)
  {
    var q1 := cp / 0x40;
    var q2 := q1 / 0x40;
    if cp < 0x80 then [cp]
    else if cp < 0x800 then [0xC0 + q1, 0x80 + cp % 0x40]
    else if cp < 0x10000 then [0xE0 + q2, 0x80 + q1 % 0x40, 0x80 + cp % 0x40]
    else [0xF0 + q2 / 0x40, 0x80 + q2 % 0x40, 0x80 + q1 % 0x40, 0x80 + cp % 0x40]
  }

  lemma Utf8Decodes(cp: nat)
    requires cp <= 0x10FFFF
    ensures Utf8Pattern(Utf8(cp)) && Utf8Value(Utf8(cp)) == cp
  {
    var q1 := cp / 0x40;
    var q2 := q1 / 0x40;
    var q3 := q2 / 0x40;
    assert cp == Append6(q1, 0x80 + cp % 0x40);
    assert q1 == Append6(q2, 0x80 + q1 % 0x40);
    assert q2 == Append6(q3, 0x80 + q2 % 0x40);
  }

  lemma Append6Injective(h: int, b: byte, h': int, b': byte)
    requires Continuation(b) && Continuation(b') && Append6(h, b) == Append6(h', b')
    ensures h == h' && b == b'
  {}

  /** `Utf8(cp)` is the one shortest row of the table that carries `cp`. */
  lemma Utf8IsShortestForm(cp: nat, b: bytes)
    requires cp <= 0x10FFFF
    ensures Utf8Pattern(Utf8(cp)) && Utf8Value(Utf8(cp)) == cp
    ensures Utf8Pattern(b) && Utf8Value(b) == cp ==> |Utf8(cp)| < |b| || b == Utf8(cp)
  {
    Utf8Decodes(cp);
    var u := Utf8(cp);
    if Utf8Pattern(b) && Utf8Value(b) == cp && |b| <= |u| {
      assert |b| == |u|;
      if |u| == 2 {
        Append6Injective(b[0] - 0xC0, b[1], u[0] - 0xC0, u[1]);
      } else if |u| == 3 {
        Append6Injective(Append6(b[0] - 0xE0, b[1]), b[2], Append6(u[0] - 0xE0, u[1]), u[2]);
        Append6Injective(b[0] - 0xE0, b[1], u[0] - 0xE0, u[1]);
      } else if |u| == 4 {
        var bb, uu := Append6(b[0] - 0xF0, b[1]), Append6(u[0] - 0xF0, u[1]);
        Append6Injective(Append6(bb, b[2]), b[3], Append6(uu, u[2]), u[3]);
        Append6Injective(bb, b[2], uu, u[2]);
        Append6Injective(b[0] - 0xF0, b[1], u[0] - 0xF0, u[1]);
      }
    }
  }

  // ----- UTF-16 -----

  predicate HighSurrogate(code: int) {
    0xD800 <= code <= 0xDBFF
  }

  predicate LowSurrogate(code: int) {
    0xDC00 <= code <= 0xDFFF
  }

  function CombineSurrogates(high: nat, low: nat): (cp: nat)
    requires HighSurrogate(high) && LowSurrogate(low)
    ensures 0x10000 <= cp <= 0x10FFFF
  {
    0x10000 + (high % 0x400) * 0x400 + low % 0x400
  }

  /** The code units of a scalar value, by section 2.1 of RFC 2781. */
  function Utf16(cp: nat): (units: seq<nat>)
    requires IsScalar(cp)
    ensures 1 <= |units| <= 2 && forall i :: 0 <= i < |units| ==> units[i] < 0x10000
  {
    if cp < 0x10000 then [cp]
    else [0xD800 + (cp - 0x10000) / 0x400, 0xDC00 + (cp - 0x10000) % 0x400]
  }

  lemma Utf16RoundTrip(cp: nat)
    requires IsScalar(cp) && cp >= 0x10000
    ensures var u := Utf16(cp); HighSurrogate(u[0]) && LowSurrogate(u[1]) && CombineSurrogates(u[0], u[1]) == cp
  {}

  // ----- \uXXXX literals -----

  /** A hexadecimal digit as "%x" or "%X" writes it. */
  function HexLetter(d: nat, upper: bool): byte
    requires d < 16
  {
    if d < 10 then 48 + d else if upper then 55 + d else 87 + d
  }

  /** The value of a hexadecimal digit, or 16 for any other byte. */
  function HexDigit(b: byte): (d: nat)
    ensures d <= 16
  {
    if 48 <= b <= 57 then b - 48
    else if 65 <= b <= 70 then b - 55
    else if 97 <= b <= 102 then b - 87
    else 16
  }

  /** The digits and their letters: 0 to 9, a to f, A to F, and no others. */
  lemma HexDigitsExactly(b: byte)
    ensures var small: bytes := [48, 49, 50, 51, 52, 53, 54, 55, 56, 57, 97, 98, 99, 100, 101, 102];
            var large: bytes := [48, 49, 50, 51, 52, 53, 54, 55, 56, 57, 65, 66, 67, 68, 69, 70];
            && (forall d :: 0 <= d < 16 ==> HexLetter(d, false) == small[d] && HexLetter(d, true) == large[d])
            && (forall d :: 0 <= d < 16 && (b == small[d] || b == large[d]) ==> HexDigit(b) == d)
            && (b !in small && b !in large ==> HexDigit(b) == 16)
  {
    var small: bytes := [48, 49, 50, 51, 52, 53, 54, 55, 56, 57, 97, 98, 99, 100, 101, 102];
    var large: bytes := [48, 49, 50, 51, 52, 53, 54, 55, 56, 57, 65, 66, 67, 68, 69, 70];
    if HexDigit(b) < 16 {
      assert b == small[HexDigit(b)] || b == large[HexDigit(b)];
    }
  }

  /** The value of four hexadecimal digits. Anything else counts as 0, which the caller cannot tell from "0000". */
  function Hex4(s: bytes, at: nat): (code: nat)
    requires at + 4 <= |s|
    ensures code < 0x10000
  {
    var a, b, c, d := HexDigit(s[at]), HexDigit(s[at + 1]), HexDigit(s[at + 2]), HexDigit(s[at + 3]);
    if a < 16 && b < 16 && c < 16 && d < 16 then ((a * 16 + b) * 16 + c) * 16 + d else 0
  }

  /** Four digits, of either case each, are read as the number they write. */
  lemma Hex4Reads(s: bytes, at: nat, u: nat, a: bool, b: bool, c: bool, d: bool)
    requires u < 0x1_0000 && at + 4 <= |s|
    requires s[at] == HexLetter(u / 4096, a) && s[at + 1] == HexLetter(u / 256 % 16, b)
    requires s[at + 2] == HexLetter(u / 16 % 16, c) && s[at + 3] == HexLetter(u % 16, d)
    ensures Hex4(s, at) == u
  {
    HexLetterReads(u / 4096, a);
    HexLetterReads(u / 256 % 16, b);
    HexLetterReads(u / 16 % 16, c);
    HexLetterReads(u % 16, d);
    hide HexLetter, HexDigit;
    assert u / 16 == u / 256 * 16 + u / 16 % 16 && u / 256 == u / 4096 * 16 + u / 256 % 16;
  }

  lemma HexLetterReads(d: nat, upper: bool)
    requires d < 16
    ensures HexDigit(HexLetter(d, upper)) == d
  {}

  method ParseHex4(s: bytes, at: nat) returns (h: nat)
    requires at + 4 <= |s|
    ensures h == Hex4(s, at)
  {
    h := 0;
    var i := 0;
    while i < 4
      invariant 0 <= i <= 4
      invariant forall k :: at <= k < at + i ==> HexDigit(s[k]) < 16
      invariant i == 0 ==> h == 0
      invariant i == 1 ==> h == HexDigit(s[at]) * 16
      invariant i == 2 ==> h == (HexDigit(s[at]) * 16 + HexDigit(s[at + 1])) * 16
      invariant i == 3 ==> h == ((HexDigit(s[at]) * 16 + HexDigit(s[at + 1])) * 16 + HexDigit(s[at + 2])) * 16
      invariant i == 4 ==> h == Hex4(s, at)
    {
      var b := s[at + i];
      if 48 <= b <= 57 {
        h := h + b - 48;
      } else if 65 <= b <= 70 {
        h := h + 10 + b - 65;
      } else if 97 <= b <= 102 {
        h := h + 10 + b - 97;
      } else {
        return 0;
      }
      if i < 3 {
        h := h * 16;
      }
      i := i + 1;
    }
  }

  datatype Literal = BadLiteral | Literal(codepoint: nat, length: nat)

  /** The code point written at `at`, as one or two \uXXXX sequences that lie before `end`. */
  function Utf16Literal(s: bytes, at: nat, end: nat): (r: Literal)
    requires at <= end <= |s|
    ensures r.Literal? ==> r.codepoint <= 0x10FFFF && (r.length == 6 || r.length == 12) && at + r.length <= end
    ensures r.Literal? ==> |Utf8(r.codepoint)| <= (if r.length == 6 then 3 else 4)
  {
    if end - at < 6 then BadLiteral
    else
      var first := Hex4(s, at + 2);
      if LowSurrogate(first) then BadLiteral
      else if !HighSurrogate(first) then Literal(first, 6)
      else if end - at < 12 || s[at + 6] != BACKSLASH || s[at + 7] != LETTER_U then BadLiteral
      else
        var second := Hex4(s, at + 8);
        if LowSurrogate(second) then Literal(CombineSurrogates(first, second), 12) else BadLiteral
  }

  function Shifted(cp: nat, times: nat): nat {
    if times == 0 then cp else Shifted(cp, times - 1) / 0x40
  }

  lemma Utf8Byte(cp: nat, k: nat)
    requires cp <= 0x10FFFF && k < |Utf8(cp)|
    ensures var b := Utf8(cp);
            if k > 0 then b[k] == 0x80 + Shifted(cp, |b| - 1 - k) % 0x40
            else
              var mark := if |b| == 1 then 0 else if |b| == 2 then 0xC0 else if |b| == 3 then 0xE0 else 0xF0;
              b[0] == mark + Shifted(cp, |b| - 1)
  {
    assert Shifted(cp, 1) == cp / 0x40;
    assert Shifted(cp, 2) == cp / 0x40 / 0x40;
    assert Shifted(cp, 3) == cp / 0x40 / 0x40 / 0x40;
  }

  lemma PairIs(first: nat, second: nat)
    requires HighSurrogate(first) && LowSurrogate(second)
    ensures 0x10000 + Val(Pair(Word(first), Word(second))) == CombineSurrogates(first, second)
  {
    hide Val, Word, Pair;
    PairWord(Word(first), Word(second));
  }

  /** The decoding half of the conversion: code point and number of input bytes, or length 0. */
  method ReadLiteral(s: bytes, at: nat, end: nat) returns (codepoint: nat, length: nat)
    requires at <= end <= |s|
    ensures var r := Utf16Literal(s, at, end);
            if r.BadLiteral? then length == 0 else codepoint == r.codepoint && length == r.length
  {
    hide Val, Word;
    codepoint, length := 0, 0;
    if end - at < 6 {
      return;
    }
    var firstCode := ParseHex4(s, at + 2);
    if 0xDC00 <= firstCode <= 0xDFFF {
      return;
    }
    if 0xD800 <= firstCode <= 0xDBFF {
      if end - (at + 6) < 6 {
        return;
      }
      if s[at + 6] != BACKSLASH || s[at + 7] != LETTER_U {
        return;
      }
      var secondCode := ParseHex4(s, at + 8);
      if secondCode < 0xDC00 || secondCode > 0xDFFF {
        return;
      }
      length := 12;
      PairIs(firstCode, secondCode);
      codepoint := 0x10000 + Val(Pair(Word(firstCode), Word(secondCode)));
    } else {
      length := 6;
      codepoint := firstCode;
    }
  }

  lemma NextByteIs(cp: nat, k: nat, rest: bv32)
    requires cp <= 0x10FFFF && 0 < k < |Utf8(cp)| && Val(rest) == Shifted(cp, |Utf8(cp)| - 1 - k)
    ensures Utf8(cp)[k] == Val(LaterByte(rest)) && Val(rest >> 6) == Shifted(cp, |Utf8(cp)| - k)
  {
    Utf8Byte(cp, k);
    hide Val, Utf8, LaterByte;
    LaterByteIs(rest);
    ShiftSixDivides(rest);
  }

  /** The mark of the first byte, by the number of bytes. */
  function FirstByteMark(length: nat): bv32 {
    if length == 1 then 0 else if length == 2 then 0xC0 else if length == 3 then 0xE0 else 0xF0
  }

  lemma FirstByteOf(cp: nat, rest: bv32)
    requires cp <= 0x10FFFF && Val(rest) == Shifted(cp, |Utf8(cp)| - 1)
    ensures var b := Utf8(cp);
            b[0] == if |b| > 1 then Val(FirstByte(rest, FirstByteMark(|b|))) else Val(rest & 0x7F)
  {
    hide Val, FirstByte;
    Utf8Byte(cp, 0);
    ShiftedSmall(cp);
    MarksAre();
    hide Utf8, Shifted;
    if |Utf8(cp)| > 1 {
      FirstByteIs(rest, FirstByteMark(|Utf8(cp)|));
    } else {
      MasksRemain(rest);
    }
  }

  lemma ShiftedSmall(cp: nat)
    requires cp <= 0x10FFFF
    ensures var n := |Utf8(cp)|;
            1 <= n <= 4 && Shifted(cp, n - 1) < if n == 1 then 0x80 else if n == 2 then 0x20 else if n == 3 then 0x10
              else 8
  {
    assert Shifted(cp, 0) == cp;
    assert Shifted(cp, 1) == cp / 0x40;
    assert Shifted(cp, 2) == cp / 0x40 / 0x40;
    assert Shifted(cp, 3) == cp / 0x40 / 0x40 / 0x40;
  }

  /** The number of bytes and the mark of the first. */
  method Utf8Shape(codepoint: nat) returns (utf8Length: nat, firstByteMark: bv32)
    requires codepoint <= 0x10FFFF
    ensures utf8Length == |Utf8(codepoint)| && firstByteMark == FirstByteMark(utf8Length)
  {
    firstByteMark := 0;
    if codepoint < 0x80 {
      utf8Length := 1;
    } else if codepoint < 0x800 {
      utf8Length, firstByteMark := 2, 0xC0;
    } else if codepoint < 0x10000 {
      utf8Length, firstByteMark := 3, 0xE0;
    } else {
      utf8Length, firstByteMark := 4, 0xF0;
    }
  }

  lemma Placed(before: bytes, after: bytes, pos: nat, b: bytes)
    requires |after| == |before| && pos + |b| <= |before|
    requires forall k :: 0 <= k < |b| ==> after[pos + k] == b[k]
    requires forall k :: 0 <= k < pos || pos + |b| <= k < |before| ==> after[k] == before[k]
    ensures after == before[..pos] + b + before[pos + |b|..]
  {
    assert after[pos..pos + |b|] == b;
    assert after == after[..pos] + after[pos..pos + |b|] + after[pos + |b|..];
  }

  /**
    Writes all bytes but the first, last to first, taking six bits off the code point each time; `rest` is what remains.
    */
  method WriteLaterBytes(codepoint: nat, utf8Length: nat, out: array<byte>, pos: nat) returns (rest: bv32)
    requires codepoint <= 0x10FFFF && utf8Length == |Utf8(codepoint)| && pos + utf8Length <= out.Length
    modifies out
    ensures Val(rest) == Shifted(codepoint, utf8Length - 1)
    ensures forall k :: 0 < k < utf8Length ==> out[pos + k] == Utf8(codepoint)[k]
    ensures forall k :: 0 <= k <= pos || pos + utf8Length <= k < out.Length ==> out[k] == old(out[k])
  {
    hide Utf8, Val, Word, LaterByte, Shifted;
    NoShift(codepoint);
    rest := Word(codepoint);
    var p := utf8Length - 1;
    while p > 0
      invariant 0 <= p < utf8Length
      invariant Val(rest) == Shifted(codepoint, utf8Length - 1 - p)
      invariant forall k :: p < k < utf8Length ==> out[pos + k] == Utf8(codepoint)[k]
      invariant forall k :: 0 <= k <= pos + p || pos + utf8Length <= k < out.Length ==> out[k] == old(out[k])
    {
      NextByteIs(codepoint, p, rest);
      out[pos + p] := Val(LaterByte(rest));
      rest := rest >> 6;
      p := p - 1;
    }
  }

  lemma NoShift(cp: nat)
    ensures Shifted(cp, 0) == cp
  {}

  /** The encoding half. */
  method WriteUtf8(codepoint: nat, out: array<byte>, pos: nat) returns (utf8Length: nat)
    requires codepoint <= 0x10FFFF && pos + |Utf8(codepoint)| <= out.Length
    modifies out
    ensures utf8Length == |Utf8(codepoint)|
    ensures out[..] == old(out[..pos]) + Utf8(codepoint) + old(out[pos + utf8Length..])
  {
    hide Utf8, Val, FirstByte, FirstByteMark, Shifted;
    ghost var before := out[..];
    var firstByteMark;
    utf8Length, firstByteMark := Utf8Shape(codepoint);
    var rest := WriteLaterBytes(codepoint, utf8Length, out, pos);
    FirstByteOf(codepoint, rest);
    out[pos] := if utf8Length > 1 then Val(FirstByte(rest, firstByteMark)) else Val(rest & 0x7F);
    Placed(before, out[..], pos, Utf8(codepoint));
  }

  /**
    Converts the literal at `at` and writes its UTF-8 form to `out` from `pos` on.
    Returns the number of input bytes used, 0 for a bad literal, and the new output position.
    */
  method Utf16LiteralToUtf8(s: bytes, at: nat, end: nat, out: array<byte>, pos: nat)
    returns (sequenceLength: nat, newPos: nat)
    requires at <= end <= |s|
    requires var r := Utf16Literal(s, at, end); r.Literal? ==> pos + |Utf8(r.codepoint)| <= out.Length
    modifies out
    ensures var r := Utf16Literal(s, at, end);
            if r.BadLiteral? then sequenceLength == 0 && newPos == pos && out[..] == old(out[..])
            else
              && sequenceLength == r.length
              && newPos == pos + |Utf8(r.codepoint)|
              && out[..] == old(out[..pos]) + Utf8(r.codepoint) + old(out[newPos..])
  {
    var codepoint: nat;
    newPos := pos;
    codepoint, sequenceLength := ReadLiteral(s, at, end);
    if sequenceLength != 0 {
      var utf8Length := WriteUtf8(codepoint, out, pos);
      newPos := pos + utf8Length;
    }
  }
}
