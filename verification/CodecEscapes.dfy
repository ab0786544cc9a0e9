/** The escapes of `printf_encode` and `printf_decode` one by one, in literal bytes, and octal text as a whole. */
module CodecEscapes {
  import opened Bytes
  import opened Codecs
  import Unicode

  predicate OctalDigit(b: byte) {
    48 <= b <= 55
  }

  predicate HexadecimalDigit(b: byte) {
    48 <= b <= 57 || 65 <= b <= 70 || 97 <= b <= 102
  }

  function DigitValue(b: byte): nat
    requires HexadecimalDigit(b)
  {
    if b <= 57 then b - 48 else if b <= 70 then b - 65 + 10 else b - 97 + 10
  }

  /** One escape or byte in front of a text, told by what `printf_decode` makes of it. */
  lemma StepDecodes(front: bytes, output: bytes, rest: bytes, room: nat)
    requires front != [] && room > 0 && DecodeStep(front + rest) == Step(output, |front|)
    ensures |output| <= 1 && Decoded(front + rest, room) == output + Decoded(rest, room - |output|)
  {
    hide DecodeStep;
    assert (front + rest)[|front|..] == rest;
  }

  /** Three octal digits are a byte, cut to eight bits, whatever follows. */
  lemma OctalDecodes(a: byte, b: byte, c: byte, rest: bytes, room: nat)
    requires OctalDigit(a) && OctalDigit(b) && OctalDigit(c) && room > 0
    ensures Decoded([92, a, b, c] + rest, room) ==
            [(64 * (a - 48) + 8 * (b - 48) + (c - 48)) % 256] + Decoded(rest, room - 1)
  {
    hide Decoded;
    StepDecodes([92, a, b, c], [(64 * (a - 48) + 8 * (b - 48) + (c - 48)) % 256], rest, room);
  }

  lemma OctalDigitsOf(b: byte)
    ensures var x, y, z := b / 64, b / 8 % 8, b % 8;
            x < 8 && y < 8 && z < 8 && (64 * x + 8 * y + z) % 256 == b
  {
    var q := b / 8;
    assert b == 8 * q + b % 8 && q < 32;
    assert q == 8 * (q / 8) + q % 8 && q / 8 < 4;
    assert b / 64 == q / 8;
  }

  /** The octal escape of every byte stands for that byte, whatever follows. */
  lemma OctalByteDecodes(b: byte, rest: bytes, room: nat)
    requires room > 0
    ensures Decoded([92, 48 + b / 64, 48 + b / 8 % 8, 48 + b % 8] + rest, room) == [b] + Decoded(rest, room - 1)
  {
    hide Decoded;
    OctalDigitsOf(b);
    var x, y, z := b / 64, b / 8 % 8, b % 8;
    OctalDecodes(48 + x, 48 + y, 48 + z, rest, room);
  }

  /** Fewer octal digits are a byte as well, if what follows is not a digit. */
  lemma ShortOctalDecodes(a: byte, b: byte, rest: bytes, room: nat)
    requires OctalDigit(a) && OctalDigit(b) && room > 0 && !(rest != [] && OctalDigit(rest[0]))
    ensures Decoded([92, a] + rest, room) == [a - 48] + Decoded(rest, room - 1)
    ensures Decoded([92, a, b] + rest, room) == [8 * (a - 48) + (b - 48)] + Decoded(rest, room - 1)
  {
    hide Decoded;
    StepDecodes([92, a], [a - 48], rest, room);
    StepDecodes([92, a, b], [8 * (a - 48) + (b - 48)], rest, room);
  }

  /**
    Two hex digits of either case are a byte; one is, if what follows is not a digit; without any nothing is written.
    */
  lemma HexDecodes(a: byte, b: byte, rest: bytes, room: nat)
    requires HexadecimalDigit(a) && HexadecimalDigit(b) && room > 0
    ensures Decoded([92, 120, a, b] + rest, room) == [16 * DigitValue(a) + DigitValue(b)] + Decoded(rest, room - 1)
    ensures !(rest != [] && HexadecimalDigit(rest[0])) ==>
              && Decoded([92, 120, a] + rest, room) == [DigitValue(a)] + Decoded(rest, room - 1)
              && Decoded([92, 120] + rest, room) == Decoded(rest, room)
  {
    hide Decoded;
    StepDecodes([92, 120, a, b], [16 * DigitValue(a) + DigitValue(b)], rest, room);
    if !(rest != [] && HexadecimalDigit(rest[0])) {
      StepDecodes([92, 120, a], [DigitValue(a)], rest, room);
      StepDecodes([92, 120], [], rest, room);
      assert [] + Decoded(rest, room) == Decoded(rest, room);
    }
  }

  /**
    The two-character escapes; a backslash in front of any other character that begins no number is dropped, and a
    character without a backslash stands for itself.
    */
  lemma LettersDecode(b: byte, rest: bytes, room: nat)
    requires room > 0
    ensures b == 92 || b == 34 ==> Decoded([92, b] + rest, room) == [b] + Decoded(rest, room - 1)
    ensures b == 110 ==> Decoded([92, b] + rest, room) == [10] + Decoded(rest, room - 1)
    ensures b == 114 ==> Decoded([92, b] + rest, room) == [13] + Decoded(rest, room - 1)
    ensures b == 116 ==> Decoded([92, b] + rest, room) == [9] + Decoded(rest, room - 1)
    ensures b == 101 ==> Decoded([92, b] + rest, room) == [27] + Decoded(rest, room - 1)
    ensures b !in [92, 34, 110, 114, 116, 101, 120] && !OctalDigit(b) ==>
              Decoded([92, b] + rest, room) == Decoded([b] + rest, room)
    ensures b != 92 ==> Decoded([b] + rest, room) == [b] + Decoded(rest, room - 1)
    ensures Decoded([92], room) == []
  {
    hide Decoded;
    var known: bytes := [92, 34, 110, 114, 116, 101];
    if b in known {
      var meant: byte := if b == 110 then 10 else if b == 114 then 13 else if b == 116 then 9 else if b == 101 then 27
        else b;
      StepDecodes([92, b], [meant], rest, room);
    } else if b != 120 && !OctalDigit(b) {
      var t := [b] + rest;
      assert [92] + t == [92, b] + rest;
      StepDecodes([92], [], t, room);
      assert [] + Decoded(t, room) == Decoded(t, room);
    }
    if b != 92 {
      StepDecodes([b], [b], rest, room);
    }
    LoneBackslash(room);
  }

  lemma LoneBackslash(room: nat)
    ensures Decoded([92], room) == []
  {}

  // ----- texts of octal escapes -----

  /** A backslash and three octal digits. */
  function OctalForm(b: byte): (t: bytes)
    ensures |t| == 4
  {
    [92, 48 + b / 64, 48 + b / 8 % 8, 48 + b % 8]
  }

  function OctalText(d: bytes): (t: bytes)
    ensures |t| == 4 * |d|
  {
    if d == [] then [] else OctalForm(d[0]) + OctalText(d[1..])
  }

  lemma OctalFormDecodes(b: byte, rest: bytes, room: nat)
    requires room > 0
    ensures Decoded(OctalForm(b) + rest, room) == [b] + Decoded(rest, room - 1)
  {
    hide Decoded;
    OctalByteDecodes(b, rest, room);
  }

  lemma {:induction false} OctalTextDecodes(d: bytes, room: nat)
    requires room >= |d|
    ensures Decoded(OctalText(d), room) == d
    decreases |d|
  {
    hide OctalForm;
    if d != [] {
      hide Decoded;
      OctalFormDecodes(d[0], OctalText(d[1..]), room);
      OctalTextDecodes(d[1..], room - 1);
      assert d == [d[0]] + d[1..];
    }
  }

  /** Every byte string survives between the quotes of `P"..."` with each byte written in octal. */
  lemma ParseOctal(d: bytes)
    ensures ParseString([80, 34] + OctalText(d) + [34]) == Some(d)
  {
    var v := [80, 34] + OctalText(d) + [34];
    assert v[2..|v| - 1] == OctalText(d);
    OctalTextDecodes(d, |v| - 3);
  }

  /** `P"\101"` is the letter A. */
  lemma OctalLetter()
    ensures ParseString([80, 34, 92, 49, 48, 49, 34]) == Some([65])
  {
    ParseOctal([65]);
    assert [65][1..] == [];
    assert [80, 34] + OctalText([65]) + [34] == [80, 34, 92, 49, 48, 49, 34];
  }

  // ----- the forms in which bytes are written -----

  /**
    What `printf_encode` writes for each byte: the printable ones for themselves, but for quote and backslash, and an
    escape for every other.
    */
  lemma WrittenForms(b: byte)
    ensures var small: bytes := [48, 49, 50, 51, 52, 53, 54, 55, 56, 57, 97, 98, 99, 100, 101, 102];
            Encoded([b]) ==
            if b == 34 || b == 92 then [92, b] else if b == 27 then [92, 101] else if b == 10 then [92, 110]
            else if b == 13 then [92, 114] else if b == 9 then [92, 116]
            else if 32 <= b <= 126 then [b] else [92, 120, small[b / 16], small[b % 16]]
  {
    Unicode.HexDigitsExactly(b);
    hide Unicode.HexLetter;
    assert [b][1..] == [] && Encoded([]) == [] && EncodeByte(b) + [] == EncodeByte(b);
  }

  lemma {:induction false} EncodedConcat(d: bytes, e: bytes)
    ensures Encoded(d + e) == Encoded(d) + Encoded(e)
    decreases |d|
  {
    hide EncodeByte;
    if d == [] {
      assert d + e == e;
    } else {
      assert (d + e)[1..] == d[1..] + e;
      EncodedConcat(d[1..], e);
      assert EncodeByte(d[0]) + (Encoded(d[1..]) + Encoded(e)) == EncodeByte(d[0]) + Encoded(d[1..]) + Encoded(e);
    }
  }

  /** The hex text of a byte: two digits, with small or capital letters as asked. */
  lemma HexForms(b: byte, upper: bool)
    ensures var small: bytes := [48, 49, 50, 51, 52, 53, 54, 55, 56, 57, 97, 98, 99, 100, 101, 102];
            var large: bytes := [48, 49, 50, 51, 52, 53, 54, 55, 56, 57, 65, 66, 67, 68, 69, 70];
            HexText([b], upper) == if upper then [large[b / 16], large[b % 16]] else [small[b / 16], small[b % 16]]
  {
    Unicode.HexDigitsExactly(b);
    hide Unicode.HexLetter;
    assert [b][1..] == [] && HexText([], upper) == [] && HexByte(b, upper) + [] == HexByte(b, upper);
  }

  // ----- which configuration strings are accepted -----

  predicate AllHexadecimal(t: bytes) {
    forall i :: 0 <= i < |t| ==> HexadecimalDigit(t[i])
  }

  lemma DigitIs(b: byte)
    ensures Unicode.HexDigit(b) == if HexadecimalDigit(b) then DigitValue(b) else 16
    ensures HexadecimalDigit(b) ==> DigitValue(b) < 16
  {}

  /** The first pair of digits. */
  lemma FirstPair(t: bytes)
    requires |t| >= 2 && |t| % 2 == 0
    ensures var rest := FromHex(t[2..]);
            FromHex(t) == if HexadecimalDigit(t[0]) && HexadecimalDigit(t[1]) && rest.Some?
                          then Some([16 * DigitValue(t[0]) + DigitValue(t[1])] + rest.value) else None
  {
    DigitIs(t[0]);
    DigitIs(t[1]);
    hide HexadecimalDigit, DigitValue, Unicode.HexDigit;
  }

  /** Digits of either case, in pairs, and nothing else; each pair is a byte. */
  lemma {:induction false} HexExactly(t: bytes)
    requires |t| % 2 == 0
    ensures FromHex(t).Some? <==> AllHexadecimal(t)
    ensures AllHexadecimal(t) ==>
              forall i :: 0 <= i < |t| / 2 ==>
                FromHex(t).value[i] == 16 * DigitValue(t[2 * i]) + DigitValue(t[2 * i + 1])
    decreases |t|
  {
    hide HexadecimalDigit, DigitValue;
    if t != [] {
      var u := t[2..];
      HexExactly(u);
      FirstPair(t);
      hide FromHex;
      assert forall i :: 0 <= i < |u| ==> u[i] == t[i + 2];
      assert AllHexadecimal(t) <==> HexadecimalDigit(t[0]) && HexadecimalDigit(t[1]) && AllHexadecimal(u) by {
        assert forall i :: 2 <= i < |t| ==> t[i] == u[i - 2];
      }
      if AllHexadecimal(t) {
        forall i | 0 <= i < |t| / 2
          ensures FromHex(t).value[i] == 16 * DigitValue(t[2 * i]) + DigitValue(t[2 * i + 1])
        {
          if i > 0 {
            assert t[2 * i] == u[2 * (i - 1)] && t[2 * i + 1] == u[2 * (i - 1) + 1];
          }
        }
      }
    }
  }

  /** A string in quotes, or behind a capital P, that is not closed by its last character. */
  predicate Unclosed(v: bytes, opening: nat) {
    |v| <= opening || v[|v| - 1] != 34
  }

  /** A configuration string is refused exactly when its quotes are not closed or it is not pairs of hex digits. */
  lemma RefusedExactly(v: bytes)
    ensures ParseString(v).None? <==>
            if v != [] && v[0] == 34 then Unclosed(v, 1)
            else if |v| >= 2 && v[0] == 80 && v[1] == 34 then Unclosed(v, 2)
            else |v| % 2 == 1 || !AllHexadecimal(v)
  {
    hide Decoded, FromHex;
    if |v| % 2 == 0 {
      HexExactly(v);
    }
  }
}
