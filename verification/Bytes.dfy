/**
  Bytes, byte strings and the C view of a zero-terminated string.
  An `unsigned char` is an integer below 256; texts are sequences of them.
  */
module Bytes {

  type byte = x: int | 0 <= x < 256
  type bytes = seq<byte>

  datatype Option<+T> = None | Some(value: T)

  const NUL: byte := 0
  const TAB: byte := 9
  const NEWLINE: byte := 10
  const RETURN: byte := 13
  const SPACE: byte := 32
  const QUOTE: byte := 34
  const COMMA: byte := 44
  const SLASH: byte := 47
  const COLON: byte := 58
  const OPEN_BRACKET: byte := 91
  const BACKSLASH: byte := 92
  const CLOSE_BRACKET: byte := 93
  const LETTER_U: byte := 117
  const OPEN_BRACE: byte := 123
  const CLOSE_BRACE: byte := 125

  /** What `strlen` and every other C string function see of a block: the bytes before the first NUL. */
  function CString(b: bytes): (s: bytes)
    ensures |s| <= |b| && s == b[..|s|]
    ensures NulFree(s)
    ensures |s| < |b| ==> b[|s|] == NUL
  {
    if b == [] || b[0] == NUL then [] else [b[0]] + CString(b[1..])
  }

  predicate NulFree(b: bytes) {
    forall i :: 0 <= i < |b| ==> b[i] != NUL
  }

  lemma CStringOfTerminated(s: bytes, rest: bytes)
    requires NulFree(s)
    ensures CString(s + [NUL] + rest) == s
  {
    var b := s + [NUL] + rest;
    var c := CString(b);
    assert b[|s|] == NUL;
    assert |c| <= |s|;
    assert forall i :: 0 <= i < |s| ==> b[i] == s[i];
    assert |c| == |s|;
  }

  lemma CStringOfNulFree(s: bytes)
    requires NulFree(s)
    ensures CString(s) == s
  {
    assert |CString(s)| == |s|;
  }

  /** Byte by byte, `all` is `front` followed by `piece`. */
  lemma Appended(all: bytes, front: bytes, piece: bytes)
    requires |all| == |front| + |piece|
    requires forall i :: 0 <= i < |front| ==> all[i] == front[i]
    requires forall k :: 0 <= k < |piece| ==> all[|front| + k] == piece[k]
    ensures all == front + piece
  {
    forall i | 0 <= i < |all| ensures all[i] == (front + piece)[i] {
      assert i >= |front| ==> all[i] == piece[i - |front|] by {
        if i >= |front| {
          var k := i - |front|;
          assert all[|front| + k] == piece[k];
        }
      }
    }
  }

  // ----- C strings in blocks of memory -----

  /** NULL, or a C string. */
  predicate Terminated(b: array?<byte>)
    reads b
  {
    b == null || exists i :: 0 <= i < b.Length && b[i] == NUL
  }

  /** The C string in a block; NULL counts as empty. */
  ghost function StringOf(b: array?<byte>): bytes
    reads b
  {
    if b == null then [] else CString(b[..])
  }

  /** The loop condition of a C string loop: not yet at the terminator. */
  lemma StringIndex(b: array<byte>, i: nat)
    requires Terminated(b) && i <= |StringOf(b)|
    ensures i < b.Length && (b[i] != NUL <==> i < |StringOf(b)|)
    ensures i < |StringOf(b)| ==> StringOf(b)[i] == b[i]
    ensures NulFree(StringOf(b))
  {
    var s := StringOf(b);
    assert forall k :: 0 <= k < |s| ==> s[k] == b[k];
    assert |s| < b.Length;
    assert b[..][|s|] == NUL;
  }

  lemma StringPrefix(b: array<byte>)
    requires Terminated(b)
    ensures NulFree(StringOf(b)) && |StringOf(b)| < b.Length && StringOf(b) == b[..|StringOf(b)|]
  {
    StringIndex(b, |StringOf(b)|);
  }

  lemma TerminatedAt(b: array<byte>, n: nat)
    requires n < b.Length && b[n] == NUL && NulFree(b[..n])
    ensures Terminated(b) && StringOf(b) == b[..n]
  {
    assert b[..] == b[..n] + [NUL] + b[n + 1..];
    CStringOfTerminated(b[..n], b[n + 1..]);
  }
}
