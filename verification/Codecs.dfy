/**
  The byte-string codecs of wpa_supplicant's common.c as functions of text: escapes and hex digits,
  what undoes them, and the configuration string that combines both.
  */
module Codecs {
  import opened Bytes
  import Unicode

  const ESCAPE: byte := 27
  const LETTER_E: byte := 101
  const LETTER_N: byte := 110
  const LETTER_P: byte := 80
  const LETTER_R: byte := 114
  const LETTER_T: byte := 116
  const LETTER_X: byte := 120

  // ----- encoding -----

  /** "%02x" or "%02X" */
  function HexByte(b: byte, upper: bool): (t: bytes)
    ensures |t| == 2
  {
    [Unicode.HexLetter(b / 16, upper), Unicode.HexLetter(b % 16, upper)]
  }

  function HexText(d: bytes, upper: bool): (t: bytes)
    ensures |t| == 2 * |d|
  {
    if d == [] then [] else HexByte(d[0], upper) + HexText(d[1..], upper)
  }

  /** The letter of a two-character escape, or 0. */
  function Letter(b: byte): byte {
    if b == QUOTE || b == BACKSLASH then b
    else if b == ESCAPE then LETTER_E
    else if b == NEWLINE then LETTER_N
    else if b == RETURN then LETTER_R
    else if b == TAB then LETTER_T
    else 0
  }

  function EncodeByte(b: byte): (t: bytes)
    ensures 1 <= |t| <= 4 && NulFree(t)
  {
    if Letter(b) != 0 then [BACKSLASH, Letter(b)]
    else if 32 <= b <= 126 then [b]
    else [BACKSLASH, LETTER_X] + HexByte(b, false)
  }

  function Encoded(d: bytes): bytes {
    if d == [] then [] else EncodeByte(d[0]) + Encoded(d[1..])
  }

  // ----- decoding -----

  /** `hex2byte` at position `i`, or None. */
  function Hex2Byte(t: bytes, i: nat): Option<byte> {
    if i + 1 < |t| && Unicode.HexDigit(t[i]) < 16 && Unicode.HexDigit(t[i + 1]) < 16
    then Some(Unicode.HexDigit(t[i]) * 16 + Unicode.HexDigit(t[i + 1]))
    else None
  }

  predicate Octal(t: bytes, i: nat) {
    i < |t| && 48 <= t[i] <= 55
  }

  /** What one round of the loop of `printf_decode` writes (at most one byte) and how far it moves on. */
  datatype Step = Step(output: bytes, used: nat)

  /** The digits after a backslash: at most three, and the value is cut to a byte. */
  function OctalStep(t: bytes): (s: Step)
    requires Octal(t, 1)
    ensures |s.output| == 1 && 2 <= s.used <= |t|
  {
    if !Octal(t, 2) then Step([t[1] - 48], 2)
    else if !Octal(t, 3) then Step([(t[1] - 48) * 8 + (t[2] - 48)], 3)
    else
      var a: int, b: int, c: int := t[1] - 48, t[2] - 48, t[3] - 48;
      Step([(64 * a + 8 * b + c) % 256], 4)
  }

  function HexStep(t: bytes): (s: Step)
    requires |t| >= 2
    ensures |s.output| <= 1 && 2 <= s.used <= |t|
  {
    if Hex2Byte(t, 2).Some? then Step([Hex2Byte(t, 2).value], 4)
    else if 2 < |t| && Unicode.HexDigit(t[2]) < 16 then Step([Unicode.HexDigit(t[2])], 3)
    else Step([], 2)
  }

  function Unlettered(letter: byte): byte {
    if letter == QUOTE || letter == BACKSLASH then letter
    else if letter == LETTER_E then ESCAPE
    else if letter == LETTER_N then NEWLINE
    else if letter == LETTER_R then RETURN
    else if letter == LETTER_T then TAB
    else 0
  }

  function DecodeStep(t: bytes): (s: Step)
    requires t != []
    ensures |s.output| <= 1 && 1 <= s.used <= |t|
  {
    if t[0] != BACKSLASH then Step([t[0]], 1)
    else if |t| == 1 then Step([], 1)
    else if Unlettered(t[1]) != 0 then Step([Unlettered(t[1])], 2)
    else if t[1] == LETTER_X then HexStep(t)
    else if Octal(t, 1) then OctalStep(t)
    else Step([], 1)
  }

  /** `printf_decode` with space for `room` bytes. */
  function Decoded(t: bytes, room: nat): (d: bytes)
    ensures |d| <= room && |d| <= |t|
    decreases |t|
  {
    if t == [] || room == 0 then []
    else
      var s := DecodeStep(t);
      s.output + Decoded(t[s.used..], room - |s.output|)
  }

  /** `hexstr2bin` on all of a text of even length. */
  function FromHex(t: bytes): (r: Option<bytes>)
    requires |t| % 2 == 0
    ensures r.Some? ==> |r.value| == |t| / 2
  {
    if t == [] then Some([])
    else
      var b := Hex2Byte(t, 0);
      var rest := FromHex(t[2..]);
      if b.None? || rest.None? then None else Some([b.value] + rest.value)
  }

  // ----- they undo each other -----

  lemma EncodeByteDecodes(b: byte, rest: bytes)
    ensures DecodeStep(EncodeByte(b) + rest) == Step([b], |EncodeByte(b)|)
  {
    var t := EncodeByte(b) + rest;
    if |EncodeByte(b)| == 4 {
      assert t[2] == Unicode.HexLetter(b / 16, false) && t[3] == Unicode.HexLetter(b % 16, false);
    }
  }

  lemma EncodedByteFirst(b: byte, rest: bytes, room: nat)
    requires room > 0
    ensures Decoded(EncodeByte(b) + rest, room) == [b] + Decoded(rest, room - 1)
  {
    EncodeByteDecodes(b, rest);
    hide EncodeByte, DecodeStep;
    var t := EncodeByte(b) + rest;
    assert t[|EncodeByte(b)|..] == rest;
  }

  /** What `printf_decode` makes of an encoded text: the first `room` bytes of the original. */
  lemma {:induction false} DecodedEncoded(d: bytes, room: nat)
    ensures Decoded(Encoded(d), room) == d[..if room < |d| then room else |d|]
    decreases |d|
  {
    hide EncodeByte, DecodeStep;
    var n := if room < |d| then room else |d|;
    if n > 0 {
      EncodedByteFirst(d[0], Encoded(d[1..]), room);
      hide Decoded;
      DecodedEncoded(d[1..], room - 1);
      assert d[..n] == [d[0]] + d[1..][..n - 1];
    }
  }

  lemma {:induction false} EncodedNulFree(d: bytes)
    ensures NulFree(Encoded(d)) && |d| <= |Encoded(d)|
    decreases |d|
  {
    if d != [] {
      hide EncodeByte;
      EncodedNulFree(d[1..]);
    }
  }

  lemma HexByteReads(b: byte, upper: bool, rest: bytes)
    ensures Hex2Byte(HexByte(b, upper) + rest, 0) == Some(b)
  {
    var t := HexByte(b, upper) + rest;
    assert t[0] == Unicode.HexLetter(b / 16, upper) && t[1] == Unicode.HexLetter(b % 16, upper);
    assert Unicode.HexDigit(t[0]) == b / 16 && Unicode.HexDigit(t[1]) == b % 16;
  }

  lemma {:induction false} HexTextReads(d: bytes, upper: bool)
    ensures FromHex(HexText(d, upper)) == Some(d)
    decreases |d|
  {
    if d != [] {
      var t := HexText(d, upper);
      HexByteReads(d[0], upper, HexText(d[1..], upper));
      assert t[2..] == HexText(d[1..], upper);
      HexTextReads(d[1..], upper);
      assert d == [d[0]] + d[1..];
    }
  }

  // ----- configuration strings -----

  /** `wpa_config_parse_string` without the failures of the allocator. */
  function ParseString(v: bytes): Option<bytes> {
    if v != [] && v[0] == QUOTE then
      if |v| == 1 || v[|v| - 1] != QUOTE then None else Some(v[1..|v| - 1])
    else if |v| >= 2 && v[0] == LETTER_P && v[1] == QUOTE then
      if |v| == 2 || v[|v| - 1] != QUOTE then None else Some(Decoded(v[2..|v| - 1], |v| - 3))
    else if |v| % 2 == 1 then None
    else FromHex(v)
  }

  /** Any byte string survives the escaped form. */
  lemma ParseEscaped(d: bytes)
    ensures ParseString([LETTER_P, QUOTE] + Encoded(d) + [QUOTE]) == Some(d)
  {
    var v := [LETTER_P, QUOTE] + Encoded(d) + [QUOTE];
    assert v[2..|v| - 1] == Encoded(d);
    EncodedNulFree(d);
    DecodedEncoded(d, |v| - 3);
    assert d[..|d|] == d;
  }

  /** Any byte string survives the hex form, in lower or upper case. */
  lemma ParseHex(d: bytes, upper: bool)
    ensures ParseString(HexText(d, upper)) == Some(d)
  {
    HexTextReads(d, upper);
  }

  /** A string between plain quotes stands for itself, quotes in it included. */
  lemma ParsePlain(d: bytes)
    ensures ParseString([QUOTE] + d + [QUOTE]) == Some(d)
  {
    var v := [QUOTE] + d + [QUOTE];
    assert v[1..|v| - 1] == d;
  }

  // ----- bounded output -----

  /**
    How many bytes `printf_encode` gets into a buffer of `maxlen`: it stops when fewer than five characters are left.
    */
  function Fitting(d: bytes, maxlen: int): (k: nat)
    ensures k <= |d|
  {
    if d == [] || 4 >= maxlen then 0 else 1 + Fitting(d[1..], maxlen - |EncodeByte(d[0])|)
  }

  lemma {:induction false} EncodedSplit(d: bytes, k: nat)
    requires k < |d|
    ensures Encoded(d[..k + 1]) == Encoded(d[..k]) + EncodeByte(d[k])
    decreases k
  {
    hide EncodeByte;
    if k == 0 {
      assert d[..1][1..] == [];
    } else {
      var rest := d[1..];
      EncodedSplit(rest, k - 1);
      assert d[..k + 1][1..] == rest[..k] && d[..k][1..] == rest[..k - 1];
      assert EncodeByte(d[0]) + (Encoded(rest[..k - 1]) + EncodeByte(d[k])) ==
        EncodeByte(d[0]) + Encoded(rest[..k - 1]) + EncodeByte(d[k]);
    }
  }

  /** The text written always fits, and ends early only where the next escape might not fit. */
  lemma {:induction false} FittingFits(d: bytes, maxlen: int)
    ensures var k := Fitting(d, maxlen);
            && (maxlen >= 1 ==> |Encoded(d[..k])| < maxlen)
            && (k < |d| ==> |Encoded(d[..k])| + 4 >= maxlen)
    decreases |d|
  {
    if d != [] && 4 < maxlen {
      var k := Fitting(d[1..], maxlen - |EncodeByte(d[0])|);
      FittingFits(d[1..], maxlen - |EncodeByte(d[0])|);
      assert d[..k + 1][1..] == d[1..][..k];
    }
  }

  /** Four characters for each byte and one more are always enough, as the buffer of `wpa_ssid_txt` has. */
  lemma {:induction false} EnoughRoom(d: bytes, maxlen: int)
    requires maxlen >= 4 * |d| + 1
    ensures Fitting(d, maxlen) == |d|
    decreases |d|
  {
    if d != [] {
      EnoughRoom(d[1..], maxlen - |EncodeByte(d[0])|);
    }
  }

  /** Whatever the size of the buffer, the text decodes to a prefix of the data. */
  lemma BoundedDecodes(d: bytes, maxlen: nat, room: nat)
    requires maxlen >= 1 && room >= |d|
    ensures Decoded(Encoded(d[..Fitting(d, maxlen)]), room) == d[..Fitting(d, maxlen)]
  {
    var p := d[..Fitting(d, maxlen)];
    DecodedEncoded(p, room);
    assert p[..|p|] == p;
  }
}
