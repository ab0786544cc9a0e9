/** The loops of common.c over character buffers, proved against the functions of module Codecs. */
module CodecLoops {
  import opened Bytes
  import opened Codecs
  import Unicode
  import Allocation = JsonTree

  /** The block holds the C string `t`. */
  ghost predicate Text(str: array<byte>, t: bytes)
    reads str
  {
    |t| < str.Length && NulFree(t) && str[|t|] == NUL && forall i :: 0 <= i < |t| ==> str[i] == t[i]
  }

  lemma TextOf(str: array<byte>)
    requires Terminated(str)
    ensures Text(str, StringOf(str))
  {
    StringPrefix(str);
    StringIndex(str, |StringOf(str)|);
  }

  lemma TextString(str: array<byte>, t: bytes)
    requires Text(str, t)
    ensures Terminated(str) && StringOf(str) == t
  {
    assert str[..|t|] == t;
    TerminatedAt(str, |t|);
  }

  /** `hex2num` */
  method Hex2Num(c: byte) returns (r: int)
    ensures r == if Unicode.HexDigit(c) < 16 then Unicode.HexDigit(c) else -1
  {
    if 48 <= c <= 57 {
      return c - 48;
    }
    if 97 <= c <= 102 {
      return c - 97 + 10;
    }
    if 65 <= c <= 70 {
      return c - 65 + 10;
    }
    r := -1;
  }

  /** `hex2byte`; it looks at the second character only when the first is a digit, so it never reads past the end. */
  method Hex2ByteAt(hex: array<byte>, i: nat, ghost t: bytes) returns (r: int)
    requires Text(hex, t) && i <= |t|
    ensures r == match Hex2Byte(t, i) case Some(b) => b case None => -1
  {
    var a := Hex2Num(hex[i]);
    if a < 0 {
      return -1;
    }
    var b := Hex2Num(hex[i + 1]);
    if b < 0 {
      return -1;
    }
    r := a * 16 + b;
  }

  /** One round of the loop of `printf_encode`. */
  method EncodeOne(txt: array<byte>, pos: nat, b: byte) returns (q: nat)
    requires pos + 4 < txt.Length
    modifies txt
    ensures q == pos + |EncodeByte(b)| && q <= pos + 4
    ensures forall i :: 0 <= i < pos || pos + 5 <= i < txt.Length ==> txt[i] == old(txt[i])
    ensures forall k :: 0 <= k < |EncodeByte(b)| ==> txt[pos + k] == EncodeByte(b)[k]
  {
    hide Unicode.HexLetter;
    var letter := Letter(b);
    if letter != 0 {
      hide Letter;
      txt[pos], txt[pos + 1] := BACKSLASH, letter;
      q := pos + 2;
    } else if 32 <= b <= 126 {
      hide Letter;
      txt[pos] := b;
      q := pos + 1;
    } else {
      hide Letter;
      txt[pos], txt[pos + 1], txt[pos + 2], txt[pos + 3], txt[pos + 4] :=
        BACKSLASH, LETTER_X, Unicode.HexLetter(b / 16, false), Unicode.HexLetter(b % 16, false), NUL;
      q := pos + 4;
    }
  }

  /** `printf_encode`: in bounds for every buffer size from 1 on. */
  method PrintfEncode(txt: array<byte>, maxlen: nat, data: bytes)
    requires 1 <= maxlen <= txt.Length
    modifies txt
    ensures Terminated(txt) && StringOf(txt) == Encoded(data[..Fitting(data, maxlen)])
    ensures forall i :: maxlen <= i < txt.Length ==> txt[i] == old(txt[i])
  {
    hide Encoded, EncodeByte, Fitting, StringOf, Terminated;
    var pos, i := 0, 0;
    assert data[0..] == data && Encoded(data[..0]) == [] by {
      EncodedNothing();
    }
    while i < |data|
      invariant i <= |data| && 0 <= pos < maxlen && txt[..pos] == Encoded(data[..i])
      invariant Fitting(data, maxlen) == i + Fitting(data[i..], maxlen - pos)
      invariant forall j :: maxlen <= j < txt.Length ==> txt[j] == old(txt[j])
    {
      FittingStep(data, i, maxlen - pos);
      if pos + 4 >= maxlen {
        break;
      }
      EncodedSplit(data, i);
      ghost var before := txt[..pos];
      pos := EncodeOne(txt, pos, data[i]);
      Appended(txt[..pos], before, EncodeByte(data[i]));
      i := i + 1;
    }
    FittingStep(data, i, maxlen - pos);
    txt[pos] := NUL;
    EncodedNulFree(data[..i]);
    assert txt[..pos] == Encoded(data[..i]);
    TerminatedAt(txt, pos);
  }

  lemma EncodedNothing()
    ensures Encoded([]) == []
  {}

  lemma FittingStep(d: bytes, i: nat, left: int)
    requires i <= |d|
    ensures i == |d| || left <= 4 ==> Fitting(d[i..], left) == 0
    ensures i < |d| && left > 4 ==> Fitting(d[i..], left) == 1 + Fitting(d[i + 1..], left - |EncodeByte(d[i])|)
  {
    assert i < |d| ==> d[i..][1..] == d[i + 1..];
  }

  /** The cases behind a backslash in `printf_decode`; `pos` is at the character after it. */
  method DecodeEscape(str: array<byte>, at: nat, ghost t: bytes) returns (writes: bool, b: byte, pos: nat)
    requires Text(str, t) && at < |t| && t[at] == BACKSLASH
    ensures at < pos <= |t| && DecodeStep(t[at..]) == Step(if writes then [b] else [], pos - at)
  {
    ghost var u := t[at..];
    pos := at + 1;
    writes, b := true, 0;
    var c := str[pos];
    if c == BACKSLASH || c == QUOTE {
      b, pos := c, pos + 1;
    } else if c == LETTER_N {
      b, pos := NEWLINE, pos + 1;
    } else if c == LETTER_R {
      b, pos := RETURN, pos + 1;
    } else if c == LETTER_T {
      b, pos := TAB, pos + 1;
    } else if c == LETTER_E {
      b, pos := ESCAPE, pos + 1;
    } else if c == LETTER_X {
      pos := pos + 1;
      var val := Hex2ByteAt(str, pos, t);
      assert Hex2Byte(u, 2) == Hex2Byte(t, pos);
      if val < 0 {
        val := Hex2Num(str[pos]);
        if val < 0 {
          writes := false;
        } else {
          b, pos := val, pos + 1;
        }
      } else {
        b, pos := val, pos + 2;
      }
    } else if 48 <= c <= 55 {
      writes, b, pos := DecodeOctal(str, at, t);
    } else {
      writes := false;
    }
  }

  /** The octal digits found in the text, at most three. */
  lemma OctalFacts(str: array<byte>, at: nat, t: bytes)
    requires Text(str, t) && at + 1 < |t| && t[at] == BACKSLASH && Octal(t[at..], 1)
    ensures at + 2 < str.Length && 48 <= str[at + 1] <= 55 && at + 2 <= |t|
    ensures !(48 <= str[at + 2] <= 55) ==> OctalStep(t[at..]) == Step([str[at + 1] - 48], 2)
    ensures 48 <= str[at + 2] <= 55 ==> at + 3 <= |t| && at + 3 < str.Length
    ensures 48 <= str[at + 2] <= 55 && !(48 <= str[at + 3] <= 55) ==>
      OctalStep(t[at..]) == Step([(str[at + 1] - 48) * 8 + (str[at + 2] - 48)], 3)
    ensures 48 <= str[at + 2] <= 55 && 48 <= str[at + 3] <= 55 ==>
      var a: int, b: int, c: int := str[at + 1] - 48, str[at + 2] - 48, str[at + 3] - 48;
      at + 4 <= |t| && OctalStep(t[at..]) == Step([(a * 64 + b * 8 + c) % 256], 4)
  {
    var u := t[at..];
    assert u[1] == str[at + 1];
    assert at + 2 < |t| ==> u[2] == str[at + 2];
    assert at + 3 < |t| ==> u[3] == str[at + 3];
  }

  method DecodeOctal(str: array<byte>, at: nat, ghost t: bytes) returns (writes: bool, b: byte, pos: nat)
    requires Text(str, t) && at + 1 < |t| && t[at] == BACKSLASH && Octal(t[at..], 1)
    ensures writes && at < pos <= |t| && OctalStep(t[at..]) == Step([b], pos - at)
  {
    OctalFacts(str, at, t);
    hide Text, Octal, OctalStep;
    writes, pos := true, at + 1;
    var val: int := str[pos] - 48;
    pos := pos + 1;
    if 48 <= str[pos] <= 55 {
      val, pos := val * 8 + (str[pos] - 48), pos + 1;
      if 48 <= str[pos] <= 55 {
        val, pos := val * 8 + (str[pos] - 48), pos + 1;
      }
    }
    b := val % 256;
  }

  /** One round of the loop of `printf_decode`. */
  method DecodeNext(str: array<byte>, at: nat, ghost t: bytes) returns (writes: bool, b: byte, pos: nat)
    requires Text(str, t) && at < |t|
    ensures at < pos <= |t| && DecodeStep(t[at..]) == Step(if writes then [b] else [], pos - at)
  {
    if str[at] == BACKSLASH {
      writes, b, pos := DecodeEscape(str, at, t);
    } else {
      writes, b, pos := true, str[at], at + 1;
    }
  }

  /** `printf_decode` */
  method PrintfDecode(buf: array<byte>, maxlen: nat, str: array<byte>) returns (len: nat)
    requires maxlen <= buf.Length && Terminated(str) && buf != str
    modifies buf
    ensures len <= maxlen && buf[..len] == Decoded(old(StringOf(str)), if maxlen == 0 then 0 else maxlen - 1)
    ensures len < maxlen ==> buf[len] == NUL
    ensures forall i :: maxlen <= i < buf.Length ==> buf[i] == old(buf[i])
  {
    hide DecodeStep, Decoded, StringOf, Terminated, Text;
    TextOf(str);
    ghost var t := StringOf(str);
    ghost var room := if maxlen == 0 then 0 else maxlen - 1;
    ghost var whole := Decoded(t, room);
    assert t[0..] == t;
    len := 0;
    var pos: nat := 0;
    TextAt(str, t, pos);
    while str[pos] != NUL
      invariant pos <= |t| && len <= room && Text(str, t)
      invariant pos < str.Length && (str[pos] == NUL <==> pos == |t|)
      invariant whole == buf[..len] + Decoded(t[pos..], room - len)
      invariant forall i :: maxlen <= i < buf.Length ==> buf[i] == old(buf[i])
      decreases |t| - pos
    {
      DecodedStep(t, pos, room - len);
      if len + 1 >= maxlen {
        break;
      }
      ghost var before := buf[..len];
      var writes, b, next := DecodeNext(str, pos, t);
      pos := next;
      if writes {
        buf[len] := b;
        len := len + 1;
      }
      assert buf[..len] == before + if writes then [b] else [];
      TextAt(str, t, pos);
    }
    DecodedStep(t, pos, room - len);
    assert whole == buf[..len];
    if maxlen > len {
      buf[len] := NUL;
    }
  }

  lemma TextAt(str: array<byte>, t: bytes, i: nat)
    requires Text(str, t) && i <= |t|
    ensures i < str.Length && (str[i] == NUL <==> i == |t|) && (i < |t| ==> str[i] == t[i])
  {}

  lemma DecodedStep(t: bytes, pos: nat, room: nat)
    requires pos <= |t|
    ensures pos == |t| || room == 0 ==> Decoded(t[pos..], room) == []
    ensures pos < |t| && room > 0 ==>
      var s := DecodeStep(t[pos..]);
      Decoded(t[pos..], room) == s.output + Decoded(t[pos + s.used..], room - |s.output|)
  {
    if pos < |t| && room > 0 {
      var s := DecodeStep(t[pos..]);
      assert t[pos..][s.used..] == t[pos + s.used..];
    }
  }

  // ----- hex -----

  /** `os_snprintf` with "%02x" or "%02X": as much as fits of the two digits, and a terminator. */
  method Snprintf02x(buf: array<byte>, pos: nat, left: nat, b: byte, upper: bool) returns (ret: int)
    requires 1 <= left && pos + left <= buf.Length
    modifies buf
    ensures ret == 2
    ensures forall i :: 0 <= i < pos || pos + left <= i < buf.Length ==> buf[i] == old(buf[i])
    ensures forall k :: 0 <= k < 2 && k < left - 1 ==> buf[pos + k] == HexByte(b, upper)[k]
    ensures buf[if left > 2 then pos + 2 else pos + left - 1] == NUL
  {
    ret := 2;
    if left > 1 {
      buf[pos] := Unicode.HexLetter(b / 16, upper);
    }
    if left > 2 {
      buf[pos + 1] := Unicode.HexLetter(b % 16, upper);
    }
    buf[if left > 2 then pos + 2 else pos + left - 1] := NUL;
  }

  /** How many bytes `_wpa_snprintf_hex` gets into a buffer of `size`. */
  function HexFitting(n: nat, size: nat): (k: nat)
    ensures k <= n
  {
    if size == 0 then 0 else if (size - 1) / 2 < n then (size - 1) / 2 else n
  }

  /** All bytes, or the most whose digits and the terminator find room. */
  lemma HexFittingExactly(n: nat, size: nat)
    ensures var k := HexFitting(n, size);
            if size == 0 then k == 0 else k <= n && 2 * k + 1 <= size && (k == n || 2 * (k + 1) + 1 > size)
  {}

  /** The string left in the buffer: an even buffer that is too small ends in the first digit of the next byte. */
  function HexLeft(data: bytes, size: nat, upper: bool): bytes {
    var k := HexFitting(|data|, size);
    HexText(data[..k], upper) + if k < |data| && size % 2 == 0 && size > 0 then HexByte(data[k], upper)[..1] else []
  }

  lemma {:induction false} HexTextSnoc(d: bytes, k: nat, upper: bool)
    requires k < |d|
    ensures HexText(d[..k + 1], upper) == HexText(d[..k], upper) + HexByte(d[k], upper)
    decreases k
  {
    if k == 0 {
      assert d[..1][1..] == [];
    } else {
      HexTextSnoc(d[1..], k - 1, upper);
      assert d[..k + 1][1..] == d[1..][..k] && d[..k][1..] == d[1..][..k - 1];
    }
  }

  lemma {:induction false} HexTextNulFree(d: bytes, upper: bool)
    ensures NulFree(HexText(d, upper))
    decreases |d|
  {
    if d != [] {
      HexTextNulFree(d[1..], upper);
    }
  }

  /**
    `_wpa_snprintf_hex`: the result counts only whole bytes. Without data nothing but the last place of the
    buffer is written, so what stands in front of it is not a string of this function's making.
    */
  method SnprintfHex(buf: array<byte>, size: nat, data: bytes, upper: bool) returns (r: int)
    requires size <= buf.Length
    modifies buf
    ensures r == 2 * HexFitting(|data|, size) && r <= buf.Length
    ensures buf[..r] == HexText(data[..HexFitting(|data|, size)], upper)
    ensures size > 0 && data != [] ==> Terminated(buf) && StringOf(buf) == HexLeft(data, size, upper)
    ensures size > 0 ==> buf[size - 1] == NUL
    ensures size == 0 || data == [] ==> forall i :: 0 <= i < buf.Length && i != size - 1 ==> buf[i] == old(buf[i])
    ensures forall i :: size <= i < buf.Length ==> buf[i] == old(buf[i])
  {
    hide HexText, HexByte, StringOf, Terminated;
    assert data[..0] == [] && HexText([], upper) == [] by {
      HexNothing(upper);
    }
    if size == 0 {
      return 0;
    }
    var pos, i: nat := 0, 0;
    while i < |data|
      invariant i <= |data| && pos == 2 * i < size && buf[..pos] == HexText(data[..i], upper)
      invariant i > 0 ==> buf[pos] == NUL
      invariant i == 0 ==> buf[..] == old(buf[..])
      invariant forall j :: size <= j < buf.Length ==> buf[j] == old(buf[j])
    {
      ghost var before := buf[..pos];
      var ret := Snprintf02x(buf, pos, size - pos, data[i], upper);
      if ret >= size - pos {
        buf[size - 1] := NUL;
        assert buf[..pos] == before;
        HexTextNulFree(data, upper);
        HexCut(buf, pos, data, i, size, upper);
        return pos;
      }
      HexTextSnoc(data, i, upper);
      Appended(buf[..pos + 2], before, HexByte(data[i], upper));
      pos := pos + ret;
      i := i + 1;
    }
    assert data[..i] == data;
    ghost var text := buf[..pos];
    buf[size - 1] := NUL;
    assert buf[..pos] == text;
    if i > 0 {
      HexTextNulFree(data, upper);
      TerminatedAt(buf, pos);
    }
    r := pos;
  }

  lemma HexNothing(upper: bool)
    ensures HexText([], upper) == []
  {}

  /** The string in a buffer that was too small. */
  lemma HexCut(buf: array<byte>, pos: nat, data: bytes, i: nat, size: nat, upper: bool)
    requires i < |data| && pos == 2 * i && pos < size <= pos + 2 && size <= buf.Length && buf[size - 1] == NUL
    requires buf[..pos] == HexText(data[..i], upper)
    requires size == pos + 2 ==> buf[pos] == HexByte(data[i], upper)[0]
    ensures i == HexFitting(|data|, size) && Terminated(buf) && StringOf(buf) == HexLeft(data, size, upper)
  {
    HexTextNulFree(data[..i], upper);
    hide HexText, StringOf, Terminated;
    assert buf[..size - 1] == HexLeft(data, size, upper);
    TerminatedAt(buf, size - 1);
  }

  /** `hexstr2bin`: a text that ends before `2 * len` digits is refused at its terminating NUL. */
  method HexStr2Bin(hex: array<byte>, buf: array<byte>, len: nat, ghost t: bytes) returns (r: int)
    requires Text(hex, t) && len <= buf.Length && hex != buf
    modifies buf
    ensures r == 0 <==> 2 * len <= |t| && FromHex(t[..2 * len]).Some?
    ensures r == 0 || r == -1
    ensures r == 0 ==> buf[..len] == FromHex(t[..2 * len]).value
    ensures forall i :: len <= i < buf.Length ==> buf[i] == old(buf[i])
  {
    hide Hex2Byte, Text, FromHex;
    ghost var long := 2 * len <= |t|;
    ghost var u := if long then t[..2 * len] else [];
    ghost var whole := FromHex(u);
    assert u[0..] == u;
    var i: nat := 0;
    while i < len
      invariant i <= len && Text(hex, t) && 2 * i <= |t|
      invariant long ==> (whole.Some? <==> FromHex(u[2 * i..]).Some?)
      invariant long && whole.Some? ==> whole.value == buf[..i] + FromHex(u[2 * i..]).value
      invariant forall j :: len <= j < buf.Length ==> buf[j] == old(buf[j])
    {
      if long {
        FromHexStep(t, len, i);
      }
      Hex2ByteInside(t, 2 * i);
      var a := Hex2ByteAt(hex, 2 * i, t);
      if a < 0 {
        return -1;
      }
      ghost var before := buf[..i];
      buf[i] := a;
      assert buf[..i + 1] == before + [a];
      i := i + 1;
    }
    assert u[2 * i..] == [];
    FromHexNothing();
    r := 0;
  }

  lemma Hex2ByteInside(t: bytes, i: nat)
    ensures Hex2Byte(t, i).Some? ==> i + 2 <= |t|
  {}

  lemma FromHexNothing()
    ensures FromHex([]) == Some([])
  {}

  lemma FromHexStep(t: bytes, len: nat, i: nat)
    requires 2 * len <= |t| && i < len
    ensures var u := t[..2 * len]; var rest := FromHex(u[2 * i + 2..]); var b := Hex2Byte(t, 2 * i);
            FromHex(u[2 * i..]) == if b.None? || rest.None? then None else Some([b.value] + rest.value)
  {
    var u := t[..2 * len][2 * i..];
    assert u[2..] == t[..2 * len][2 * i + 2..];
    assert u[0] == t[2 * i] && u[1] == t[2 * i + 1];
  }

  // ----- configuration strings -----

  /** `os_strrchr` from position `at` on: the last place of the character, or -1. */
  method StrRChr(str: array<byte>, at: nat, c: byte, ghost t: bytes) returns (pos: int)
    requires Text(str, t) && at <= |t| && c != NUL
    ensures pos == -1 || at <= pos < |t|
    ensures pos == -1 ==> forall i :: at <= i < |t| ==> t[i] != c
    ensures pos != -1 ==> t[pos] == c && forall i :: pos < i < |t| ==> t[i] != c
  {
    pos := -1;
    var i := at;
    while str[i] != NUL
      invariant at <= i <= |t| && (pos == -1 || at <= pos < i)
      invariant pos == -1 ==> forall j :: at <= j < i ==> t[j] != c
      invariant pos != -1 ==> t[pos] == c && forall j :: pos < j < i ==> t[j] != c
      decreases |t| - i
    {
      if str[i] == c {
        pos := i;
      }
      i := i + 1;
    }
  }

  /** The check on the closing quote: there is one, and nothing follows the last. */
  method ClosingQuote(value: array<byte>, at: nat, ghost t: bytes) returns (closed: bool, pos: nat)
    requires Text(value, t) && at <= |t|
    ensures closed <==> at < |t| && t[|t| - 1] == QUOTE
    ensures closed ==> pos == |t| - 1
  {
    var p := StrRChr(value, at, QUOTE, t);
    closed := p >= 0 && value[p + 1] == NUL;
    pos := if closed then p else 0;
  }

  /** `dup_binstr` of the `len` bytes at `at` */
  method DupBinStr(src: array<byte>, at: nat, len: nat, heap: Allocation.Heap, ghost t: bytes)
    returns (res: array?<byte>)
    requires Text(src, t) && at + len <= |t|
    modifies heap
    ensures heap.calls >= old(heap.calls)
    ensures res == null ==> heap.live == old(heap.live) && heap.RefusedSince(old(heap.calls))
    ensures res != null ==>
      fresh(res) && heap.live == old(heap.live) + {res} && Text(res, t[at..at + len]) && res.Length == len + 1
  {
    res := heap.NewBlock(len + 1);
    if res != null {
      forall i | 0 <= i < len {
        res[i] := src[at + i];
      }
      res[len] := NUL;
    }
  }

  /** What `wpa_config_parse_string` returns: a new terminated block with the parsed bytes, or NULL and no new block. */
  twostate predicate Outcome(new str: array?<byte>, len: nat, r: Option<bytes>, heap: Allocation.Heap)
    reads heap, str
  {
    if str == null then heap.live == old(heap.live) && (r.None? || heap.RefusedSince(old(heap.calls)))
    else
      && r.Some? && fresh(str) && heap.live == old(heap.live) + {str}
      && len < str.Length && str[..len] == r.value && str[len] == NUL
  }

  /** `wpa_config_parse_string` */
  method ConfigParseString(value: array<byte>, heap: Allocation.Heap) returns (str: array?<byte>, len: nat)
    requires Terminated(value)
    modifies heap
    ensures Outcome(str, len, ParseString(old(StringOf(value))), heap)
  {
    ghost var t := StringOf(value);
    TextOf(value);
    hide Text, StringOf, Terminated, FromHex, Decoded;
    TextAt(value, t, 0);
    str, len := null, 0;
    if value[0] == QUOTE {
      str, len := ParsePlainString(value, heap, t);
    } else {
      var escaped := false;
      if value[0] == LETTER_P {
        TextAt(value, t, 1);
        escaped := value[1] == QUOTE;
      }
      if escaped {
        str, len := ParseEscapedString(value, heap, t);
      } else {
        str, len := ParseHexString(value, heap, t);
      }
    }
  }

  method ParsePlainString(value: array<byte>, heap: Allocation.Heap, ghost t: bytes)
    returns (str: array?<byte>, len: nat)
    requires Text(value, t) && t != [] && t[0] == QUOTE
    modifies heap
    ensures Outcome(str, len, ParseString(t), heap)
  {
    str, len := null, 0;
    var closed, pos := ClosingQuote(value, 1, t);
    if !closed {
      return;
    }
    len := pos - 1;
    str := DupBinStr(value, 1, len, heap, t);
    assert str != null ==> str[..len] == t[1..1 + len];
  }

  method ParseEscapedString(value: array<byte>, heap: Allocation.Heap, ghost t: bytes)
    returns (str: array?<byte>, len: nat)
    requires Text(value, t) && |t| >= 2 && t[0] == LETTER_P && t[1] == QUOTE
    modifies heap
    ensures Outcome(str, len, ParseString(t), heap)
  {
    hide Decoded;
    str, len := null, 0;
    var closed, pos := ClosingQuote(value, 2, t);
    if !closed {
      return;
    }
    var tlen := pos - 2;
    ghost var inner := t[2..2 + tlen];
    var tstr := DupBinStr(value, 2, tlen, heap, t);
    if tstr == null {
      return;
    }
    str := heap.NewBlock(tlen + 1);
    if str == null {
      heap.ReleaseBlock(tstr);
      return;
    }
    TextString(tstr, inner);
    len := PrintfDecode(str, tlen + 1, tstr);
    assert str[..len] == Decoded(inner, tlen);
    label decoded:
    heap.ReleaseBlock(tstr);
    assert str[..len] == old@decoded(str[..len]);
  }

  method ParseHexString(value: array<byte>, heap: Allocation.Heap, ghost t: bytes) returns (str: array?<byte>, len: nat)
    requires Text(value, t) && !(t != [] && t[0] == QUOTE) && !(|t| >= 2 && t[0] == LETTER_P && t[1] == QUOTE)
    modifies heap
    ensures Outcome(str, len, ParseString(t), heap)
  {
    hide FromHex;
    str, len := null, 0;
    var hlen: nat := 0;
    while value[hlen] != NUL
      invariant hlen <= |t|
      decreases |t| - hlen
    {
      hlen := hlen + 1;
    }
    if hlen % 2 == 1 {
      return;
    }
    var tlen := hlen / 2;
    assert t[..2 * tlen] == t;
    var block := heap.NewBlock(tlen + 1);
    if block == null {
      return;
    }
    var r := HexStr2Bin(value, block, tlen, t);
    if r != 0 {
      heap.ReleaseBlock(block);
      return;
    }
    ghost var text := block[..tlen];
    block[tlen] := NUL;
    assert block[..tlen] == text;
    str, len := block, tlen;
  }
}
