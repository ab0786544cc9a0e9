/**
  The printer as it runs: a buffer that `ensure` keeps large enough (or finds too small), text written behind
  the offset, and the offset moved by the length of the C string found there.
  */
module JsonPrinter {
  import opened Bytes
  import Unicode
  import opened JsonStrings
  import J = JsonValues
  import opened JsonTree
  import opened JsonDuplicate

  const INT_MAX: nat := 0x7FFF_FFFF

  class PrintBuffer {
    var buffer: array?<byte>
    var length: nat
    var offset: nat
    var depth: nat
    const noalloc: bool
    const layout: J.Layout
    const heap: Heap
    /** What the block held when it became the buffer, and how far it may have been written to since. */
    ghost var base: bytes
    ghost var touched: nat
    /** A copy to a new block has asked for more bytes than the old block has. */
    ghost var strayed: bool

    constructor (buffer: array<byte>, noalloc: bool, layout: J.Layout, heap: Heap)
      requires !noalloc ==> buffer in heap.live
      ensures Valid() && this.buffer == buffer && length == buffer.Length && offset == 0 && depth == 0
      ensures this.noalloc == noalloc && this.layout == layout && this.heap == heap && Written() == []
      ensures base == buffer[..] && touched == 0 && !strayed
    {
      this.buffer, length, offset, depth := buffer, buffer.Length, 0, 0;
      base, touched, strayed := buffer[..], 0, false;
      this.noalloc, this.layout, this.heap := noalloc, layout, heap;
    }

    /** Behind the bytes touched the block is as it was. */
    ghost predicate Clean()
      reads `buffer, `base, `touched, buffer
    {
      buffer != null ==> |base| == buffer.Length && forall i :: touched <= i < |base| ==> buffer[i] == base[i]
    }

    /** `length` is the size of the block, and the offset lies inside it unless the block is empty. */
    ghost predicate Valid()
      reads `buffer, `length, `offset, `base, `touched, buffer, heap`live
    {
      && Clean()
      && (buffer != null ==>
           && length == buffer.Length
           && (offset < length || (length == 0 && offset == 0))
           && (!noalloc ==> buffer in heap.live))
      && (noalloc ==> buffer != null)
    }

    /** A block of no bytes that would have to be copied by hand. */
    ghost predicate Bare()
      reads `buffer, `length
    {
      buffer != null && length == 0 && !noalloc && !heap.reallocates
    }

    /** The text up to the offset. */
    ghost function Written(): (w: bytes)
      requires Valid() && buffer != null
      reads `buffer, `length, `offset, `base, `touched, buffer, heap`live
      ensures |w| == offset
    {
      buffer[..offset]
    }

    /** A C string starts at the offset. */
    ghost predicate Ready()
      requires Valid()
      reads `buffer, `length, `offset, `base, `touched, buffer, heap`live
    {
      buffer != null && offset < length && exists i :: offset <= i < length && buffer[i] == NUL
    }

    /** The C string that starts at the offset. */
    ghost function Tail(): bytes
      requires Valid() && Ready()
      reads `buffer, `length, `offset, `base, `touched, buffer, heap`live
    {
      CString(buffer[offset..])
    }
  }

  /** A new size is the old one, or at most twice what is needed, or INT_MAX. */
  predicate Grown(before: nat, need: nat, after: nat) {
    after == before || after <= (if need <= INT_MAX / 2 then 2 * need else INT_MAX)
  }

  lemma GrownTwice(a: nat, n1: nat, b: nat, n2: nat, c: nat)
    requires Grown(a, n1, b) && Grown(b, n2, c) && n1 <= n2
    ensures Grown(a, n2, c)
  {}

  /** The buffer stays the caller's, is a new block, or has been given up; the other live blocks stay as they are. */
  twostate predicate Kept(p: PrintBuffer)
    reads p, p.heap
  {
    && p.heap.calls >= old(p.heap.calls)
    && (p.buffer == old(p.buffer) || p.buffer == null || fresh(p.buffer))
    && (p.buffer == old(p.buffer) ==> p.base == old(p.base))
    && (!old(p.Bare()) ==> p.strayed == old(p.strayed))
    && p.heap.live - BlockSet(p.buffer) == old(p.heap.live) - BlockSet(old(p.buffer))
    && (p.noalloc ==>
          && p.buffer == old(p.buffer) && p.length == old(p.length)
          && p.heap.live == old(p.heap.live) && p.heap.calls == old(p.heap.calls))
  }

  /**
    Why a print may stop: too small a fixed buffer, more than INT_MAX bytes, or memory refused, in which case the buffer
    is gone.
    */
  twostate predicate OutOfRoom(p: PrintBuffer, need: nat)
    reads p, p.heap
  {
    || (p.noalloc && old(p.length) < need)
    || need > INT_MAX
    || p.heap.RefusedSince(old(p.heap.calls))
  }

  /** A copy strays only from a block of no bytes, at the first request for room, once there is a block to copy to. */
  twostate predicate Strays(p: PrintBuffer, request: Option<nat>)
    reads p, p.heap
  {
    p.strayed <==>
      old(p.strayed)
      || (old(p.Bare()) && request.Some? && request.value + 1 <= INT_MAX && !p.heap.refuses(old(p.heap.calls)))
  }

  /** No write went further than `n` bytes behind the old offset. */
  twostate predicate Within(p: PrintBuffer, n: nat)
    reads p`touched
  {
    p.touched <= old(p.touched) || p.touched <= old(p.offset) + n
  }

  /**
    The text `t` has been printed, with a terminator and nothing behind it: part of it may still stand behind the
    offset.
    */
  twostate predicate Printed(p: PrintBuffer, new t: bytes)
    requires p.Valid() && old(p.Valid()) && old(p.buffer) != null
    reads p, p.buffer, p.heap
  {
    && p.buffer != null && old(p.offset) + |t| + 2 <= p.length &&
       Grown(old(p.length), old(p.offset) + |t| + 2, p.length)
    && p.Ready() && p.Written() + p.Tail() == old(p.Written()) + t && Within(p, |t| + 1)
  }

  /** Room for `needed` more bytes and one to spare. */
  method Ensure(p: PrintBuffer, needed: nat) returns (ok: bool)
    requires p.Valid()
    modifies p`buffer, p`length, p`base, p`touched, p`strayed, p.buffer, p.heap
    ensures p.Valid() && Kept(p) && Strays(p, Some(needed))
    ensures !ok ==> old(p.buffer) == null || OutOfRoom(p, p.offset + needed + 1)
    ensures ok ==>
      && old(p.buffer) != null && p.buffer != null && p.offset + needed + 1 <= p.length &&
         p.Written() == old(p.Written())
      && Grown(old(p.length), p.offset + needed + 1, p.length) && p.touched <= old(p.touched)
  {
    ok := false;
    if p.buffer == null {
      return;
    }
    if p.length > 0 && p.offset >= p.length {
      return;
    }
    if needed > INT_MAX {
      return;
    }
    var total := needed + p.offset + 1;
    if total <= p.length {
      return true;
    }
    if p.noalloc {
      return;
    }
    var newsize;
    if total > INT_MAX / 2 {
      if total <= INT_MAX {
        newsize := INT_MAX;
      } else {
        return;
      }
    } else {
      newsize := total * 2;
    }
    ok := Move(p, newsize);
  }

  /** Takes a larger block for the buffer. When it is refused the buffer is gone as well. */
  method Move(p: PrintBuffer, newsize: nat) returns (ok: bool)
    requires p.Valid() && p.buffer != null && !p.noalloc && newsize > p.length && newsize > p.offset
    modifies p`buffer, p`length, p`base, p`touched, p`strayed, p.buffer, p.heap
    ensures p.Valid() && Kept(p)
    ensures p.strayed <==> old(p.strayed) || (old(p.Bare()) && !p.heap.refuses(old(p.heap.calls)))
    ensures !ok ==> p.heap.RefusedSince(old(p.heap.calls))
    ensures ok ==> p.buffer != null && p.length == newsize && p.Written() == old(p.Written()) && p.touched == 0
  {
    ghost var before := p.buffer[..p.offset];
    var newbuffer;
    if p.heap.reallocates {
      newbuffer := p.heap.Resize(p.buffer, newsize);
      if newbuffer == null {
        p.heap.ReleaseBlock(p.buffer);
        p.length, p.buffer := 0, null;
        return false;
      }
    } else {
      newbuffer := p.heap.NewBlock(newsize);
      if newbuffer == null {
        p.heap.ReleaseBlock(p.buffer);
        p.length, p.buffer := 0, null;
        return false;
      }
      forall i | 0 <= i < p.offset + 1 && i < p.length {
        newbuffer[i] := p.buffer[i];
      }
      p.strayed := p.strayed || p.offset + 1 > p.length;
      p.heap.ReleaseBlock(p.buffer);
    }
    assert newbuffer[..p.offset] == before;
    p.length := newsize;
    p.buffer := newbuffer;
    p.base, p.touched := newbuffer[..], 0;
    ok := true;
  }

  /** `memcpy` into a block, with a terminator behind it if there has to be one. */
  method Store(b: array<byte>, at: nat, t: bytes, terminated: bool)
    requires at + |t| + (if terminated then 1 else 0) <= b.Length
    modifies b
    ensures b[..at + |t|] == old(b[..at]) + t && (terminated ==> b[at + |t|] == NUL)
    ensures forall i :: at + |t| + (if terminated then 1 else 0) <= i < b.Length ==> b[i] == old(b[i])
  {
    ghost var before := b[..at];
    forall i | 0 <= i < |t| {
      b[at + i] := t[i];
    }
    if terminated {
      b[at + |t|] := NUL;
    }
    assert b[..at + |t|] == before + t;
  }

  /** Keeps account of a write that ended before `end`. */
  ghost method Touch(p: PrintBuffer, end: nat)
    requires p.buffer != null && |p.base| == p.buffer.Length
    requires forall i :: p.touched <= i < p.buffer.Length && end <= i ==> p.buffer[i] == p.base[i]
    modifies p`touched
    ensures p.Clean() && (if old(p.touched) < end then p.touched == end else p.touched == old(p.touched))
  {
    if p.touched < end {
      p.touched := end;
    }
  }

  /** `strcpy` of a text behind the offset, which does not move. */
  method PutString(p: PrintBuffer, t: bytes) returns (ok: bool)
    requires p.Valid() && p.buffer != null && NulFree(t)
    modifies p`buffer, p`length, p`base, p`touched, p`strayed, p.buffer, p.heap
    ensures p.Valid() && Kept(p) && Strays(p, Some(|t| + 1))
    ensures if ok then Printed(p, t) else OutOfRoom(p, p.offset + |t| + 2)
  {
    ok := Ensure(p, |t| + 1);
    if !ok {
      return;
    }
    ghost var w := p.Written();
    Store(p.buffer, p.offset, t, true);
    Touch(p, p.offset + |t| + 1);
    TailStored(p, w, t);
  }

  /** A terminated text behind the offset is the string found there. */
  lemma TailStored(p: PrintBuffer, w: bytes, t: bytes)
    requires p.Valid() && p.buffer != null && NulFree(t) && |w| == p.offset && p.offset + |t| < p.length
    requires p.buffer[..p.offset + |t|] == w + t && p.buffer[p.offset + |t|] == NUL
    ensures p.Ready() && p.Written() == w && p.Tail() == t
  {
    var b, c := p.buffer[p.offset..], p.buffer[..p.offset + |t|];
    assert p.buffer[..p.offset] == c[..p.offset] == w;
    assert p.buffer[p.offset..p.offset + |t|] == c[p.offset..] == t;
    assert b == t + [NUL] + b[|t| + 1..];
    CStringOfTerminated(t, b[|t| + 1..]);
  }

  /** Text that is written and stepped over; `spare` more bytes are asked for than are stepped over. */
  method Append(p: PrintBuffer, t: bytes, spare: nat, terminated: bool) returns (ok: bool)
    requires p.Valid() && p.buffer != null && spare <= 1 && (terminated ==> spare == 1)
    modifies p`buffer, p`length, p`base, p`touched, p`strayed, p`offset, p.buffer, p.heap
    ensures p.Valid() && Kept(p) && Strays(p, Some(|t| + spare))
    ensures !ok ==> p.offset == old(p.offset) && OutOfRoom(p, old(p.offset) + |t| + spare + 1)
    ensures ok ==>
      && p.buffer != null && p.offset < p.length && p.offset + spare + 1 <= p.length
      && Grown(old(p.length), p.offset + spare + 1, p.length)
      && p.offset == old(p.offset) + |t| && p.Written() == old(p.Written()) + t
      && (terminated ==> p.buffer[p.offset] == NUL) && Within(p, |t| + (if terminated then 1 else 0))
  {
    ok := Ensure(p, |t| + spare);
    if !ok {
      return;
    }
    Store(p.buffer, p.offset, t, terminated);
    Touch(p, p.offset + |t| + (if terminated then 1 else 0));
    p.offset := p.offset + |t|;
  }

  /** Moves the offset to the end of the C string found behind it. */
  method UpdateOffset(p: PrintBuffer)
    requires p.Valid() && p.Ready()
    modifies p`offset
    ensures p.Valid() && p.Ready() && p.Tail() == [] && p.offset < p.length
    ensures p.Written() == old(p.Written() + p.Tail())
  {
    ghost var b, w, t := p.buffer[p.offset..], p.Written(), p.Tail();
    var n := 0;
    while p.buffer[p.offset + n] != NUL
      invariant p.offset + n < p.length && n <= |t|
      decreases |t| - n
    {
      assert b[n] == p.buffer[p.offset + n];
      n := n + 1;
    }
    assert b[n] == NUL;
    assert n == |t|;
    assert p.buffer[..p.offset + n] == w + b[..n];
    p.offset := p.offset + n;
    assert p.buffer[p.offset..][0] == NUL;
  }

  // ----- strings -----

  /**
    Writes one byte of a string in its escaped form. The `sprintf` of a \uXXXX escape also leaves a terminator behind
    it.
    */
  method WriteEscaped(out: array<byte>, pos: nat, b: byte) returns (newPos: nat)
    requires b != NUL && pos + |EscapeByte(b)| < out.Length
    modifies out
    ensures newPos == pos + |EscapeByte(b)| && out[..newPos] == old(out[..pos]) + EscapeByte(b)
    ensures forall i :: newPos < i < out.Length ==> out[i] == old(out[i])
  {
    ghost var before := out[..pos];
    newPos := pos;
    if b > 31 && b != QUOTE && b != BACKSLASH {
      out[newPos] := b;
    } else {
      out[newPos] := BACKSLASH;
      newPos := newPos + 1;
      if b == BACKSLASH || b == QUOTE {
        out[newPos] := b;
      } else if b == 8 {
        out[newPos] := 98;
      } else if b == 12 {
        out[newPos] := 102;
      } else if b == NEWLINE {
        out[newPos] := 110;
      } else if b == RETURN {
        out[newPos] := 114;
      } else if b == TAB {
        out[newPos] := 116;
      } else {
        out[newPos], out[newPos + 1], out[newPos + 2] := LETTER_U, 48, 48;
        out[newPos + 3], out[newPos + 4] := Unicode.HexLetter(b / 16, false), Unicode.HexLetter(b % 16, false);
        out[newPos + 5] := NUL;
        newPos := newPos + 4;
      }
    }
    newPos := newPos + 1;
    assert out[..newPos] == before + EscapeByte(b);
  }

  lemma QuotedNulFree(s: bytes)
    requires NulFree(s)
    ensures NulFree(Quoted(s))
  {
    EscapedNulFree(s);
  }

  lemma EscapeByteLength(c: byte)
    requires c != NUL
    ensures var e := EscapeByte(c);
            if ShortEscape(c) != 0 then |e| == 2 else if c < 32 then |e| == 6 else e == [c]
  {}

  /** How long the first `n` bytes are once escaped. */
  ghost function EscapedSize(s: bytes, n: nat): nat
    requires n <= |s|
  {
    |Escaped(s[..n])|
  }

  lemma EscapedSizeStep(s: bytes, n: nat)
    requires n < |s| && NulFree(s)
    ensures EscapedSize(s, n + 1) == EscapedSize(s, n) +
      (if ShortEscape(s[n]) != 0 then 2 else if s[n] < 32 then 6 else 1)
    ensures EscapedSize(s, 0) == 0
  {
    EscapedPrefix(s, n);
    EscapeByteLength(s[n]);
  }

  lemma {:induction false} EscapedSizeTight(s: bytes, n: nat)
    requires n <= |s| && NulFree(s)
    ensures EscapedSize(s, n) >= n && (EscapedSize(s, n) == n ==> Escaped(s[..n]) == s[..n])
    decreases n
  {
    if n > 0 {
      hide Escaped, EscapeByte, ShortEscape;
      EscapedSizeTight(s, n - 1);
      EscapedPrefix(s, n - 1);
      EscapeByteLength(s[n - 1]);
      assert s[..n - 1] + [s[n - 1]] == s[..n];
    } else {
      assert s[..0] == [];
    }
  }

  /** Counts the bytes of a C string and those its escapes add. */
  method EscapedLength(b: array<byte>) returns (n: nat, escapes: nat)
    requires Terminated(b)
    ensures n == |StringOf(b)| && n + escapes == |Escaped(StringOf(b))| && n < b.Length
    ensures escapes == 0 ==> Escaped(StringOf(b)) == StringOf(b)
  {
    ghost var s := StringOf(b);
    n, escapes := 0, 0;
    assert EscapedSize(s, 0) == 0;
    StringIndex(b, 0);
    hide StringOf, EscapedSize, Terminated, Escaped, CString, NulFree;
    while b[n] != NUL
      invariant n <= |s| && n < b.Length && (b[n] != NUL <==> n < |s|)
      invariant n < |s| ==> s[n] == b[n]
      invariant n + escapes == EscapedSize(s, n)
      decreases |s| - n
    {
      EscapedSizeStep(s, n);
      StringIndex(b, n + 1);
      var c := b[n];
      if c == QUOTE || c == BACKSLASH || c == 8 || c == 12 || c == NEWLINE || c == RETURN || c == TAB {
        escapes := escapes + 1;
      } else if c < 32 {
        escapes := escapes + 5;
      }
      n := n + 1;
    }
    EscapedSizeTight(s, n);
    EscapedSizeWhole(s);
  }

  lemma EscapedSizeWhole(s: bytes)
    ensures EscapedSize(s, |s|) == |Escaped(s)| && s[..|s|] == s
  {
    assert s[..|s|] == s;
  }

  /** `print_string_ptr`: the quoted text of a C string, or two quotes for NULL. */
  method PrintStringPtr(b: array?<byte>, p: PrintBuffer) returns (ok: bool)
    requires p.Valid() && p.buffer != null && Terminated(b) && (b != null ==> b != p.buffer)
    modifies p`buffer, p`length, p`base, p`touched, p`strayed, p.buffer, p.heap
    ensures p.Valid() && Kept(p) && Strays(p, Some(|old(Quoted(StringOf(b)))| + 1))
    ensures var t := old(Quoted(StringOf(b)));
            if ok then Printed(p, t) else OutOfRoom(p, p.offset + |t| + 2)
  {
    if b == null {
      assert Quoted([]) == [QUOTE, QUOTE];
      ok := PutString(p, [QUOTE, QUOTE]);
    } else {
      ok := PrintText(b, p);
    }
  }

  method PrintText(b: array<byte>, p: PrintBuffer) returns (ok: bool)
    requires p.Valid() && p.buffer != null && Terminated(b) && b != p.buffer
    modifies p`buffer, p`length, p`base, p`touched, p`strayed, p.buffer, p.heap
    ensures p.Valid() && Kept(p) && Strays(p, Some(|old(Quoted(StringOf(b)))| + 1))
    ensures var t := old(Quoted(StringOf(b)));
            if ok then Printed(p, t) else OutOfRoom(p, p.offset + |t| + 2)
  {
    hide StringOf, Escaped, Terminated, NulFree, Quoted, CString;
    var n, escapes := EscapedLength(b);
    QuotedSize(b);
    ok := Ensure(p, n + escapes + 3);
    if !ok {
      return;
    }
    hide Grown;
    PutQuoted(b, p, n, escapes);
  }

  /** The text of a C string, for which there is room. */
  method PutQuoted(b: array<byte>, p: PrintBuffer, n: nat, escapes: nat)
    requires p.Valid() && p.buffer != null && Terminated(b) && b != p.buffer
    requires n == |StringOf(b)| && n + escapes == |Escaped(StringOf(b))| && p.offset + n + escapes + 4 <= p.length
    requires escapes == 0 ==> Escaped(StringOf(b)) == StringOf(b)
    modifies p`touched, p.buffer
    ensures var t := old(Quoted(StringOf(b)));
            && p.Valid() && p.Ready() && p.Written() == old(p.Written()) && p.Tail() == t
            && (p.touched <= old(p.touched) || p.touched <= p.offset + |t| + 1)
  {
    hide StringOf, Escaped, Terminated, NulFree, Quoted;
    QuotedSize(b);
    ghost var t, w := Quoted(StringOf(b)), p.Written();
    FillQuoted(p.buffer, p.offset, b, n, escapes);
    Touch(p, p.offset + |t| + 1);
    TailStored(p, w, t);
  }

  lemma QuotedSize(b: array<byte>)
    requires Terminated(b)
    ensures |Quoted(StringOf(b))| == |Escaped(StringOf(b))| + 2 && NulFree(Quoted(StringOf(b)))
  {
    StringPrefix(b);
    QuotedNulFree(StringOf(b));
  }

  /** The fast path copies a string without escapes as it is. */
  method FillQuoted(out: array<byte>, at: nat, b: array<byte>, n: nat, escapes: nat)
    requires Terminated(b) && b != out && n == |StringOf(b)| && n + escapes == |Escaped(StringOf(b))|
    requires escapes == 0 ==> Escaped(StringOf(b)) == StringOf(b)
    requires at + n + escapes + 2 < out.Length
    modifies out
    ensures var t := Quoted(StringOf(b)); out[..at + |t|] == old(out[..at]) + t && out[at + |t|] == NUL
    ensures forall i :: at + |Quoted(StringOf(b))| < i < out.Length ==> out[i] == old(out[i])
  {
    StringPrefix(b);
    if escapes == 0 {
      Store(out, at, [QUOTE] + b[..n] + [QUOTE], true);
    } else {
      WriteQuoted(out, at, b);
    }
  }

  /** What stands in the buffer when the first `i` bytes of the string have been written. */
  ghost function QuotedSoFar(before: bytes, s: bytes, i: nat): bytes
    requires i <= |s|
  {
    before + [QUOTE] + Escaped(s[..i])
  }

  lemma QuotedSoFarStep(before: bytes, s: bytes, i: nat)
    requires i < |s| && NulFree(s)
    ensures QuotedSoFar(before, s, i + 1) == QuotedSoFar(before, s, i) + EscapeByte(s[i])
    ensures |QuotedSoFar(before, s, i + 1)| < |before + Quoted(s)|
  {
    hide Escaped, EscapeByte;
    EscapedPrefix(s, i);
  }

  lemma QuotedSoFarEnds(before: bytes, s: bytes)
    ensures QuotedSoFar(before, s, 0) == before + [QUOTE]
    ensures QuotedSoFar(before, s, |s|) + [QUOTE] == before + Quoted(s)
    ensures |QuotedSoFar(before, s, |s|)| + 1 == |before + Quoted(s)|
  {
    assert s[..0] == [] && s[..|s|] == s;
  }

  /** The slow path: quote, every byte in its escaped form, quote, terminator. */
  method WriteQuoted(out: array<byte>, at: nat, b: array<byte>)
    requires Terminated(b) && b != out && at + |Quoted(StringOf(b))| < out.Length
    modifies out
    ensures var e := at + |Quoted(StringOf(b))|; out[..e] == old(out[..at]) + Quoted(StringOf(b)) && out[e] == NUL
    ensures forall i :: at + |Quoted(StringOf(b))| < i < out.Length ==> out[i] == old(out[i])
  {
    ghost var s, before := StringOf(b), out[..at];
    QuotedSoFarEnds(before, s);
    StringIndex(b, 0);
    hide StringOf, Quoted, QuotedSoFar, NulFree, Terminated, EscapeByte, Escaped, CString;
    Store(out, at, [QUOTE], false);
    var pos: nat, i: nat := at + 1, 0;
    while b[i] != NUL
      invariant i <= |s| && i < b.Length && (b[i] != NUL <==> i < |s|) && StringOf(b) == s && Terminated(b)
      invariant i < |s| ==> s[i] == b[i]
      invariant pos < out.Length && out[..pos] == QuotedSoFar(before, s, i)
      invariant forall k :: pos < k < out.Length ==> out[k] == old(out[k])
      decreases |s| - i
    {
      QuotedSoFarStep(before, s, i);
      StringIndex(b, i + 1);
      pos := WriteEscaped(out, pos, b[i]);
      i := i + 1;
    }
    Store(out, pos, [QUOTE], true);
  }

  // ----- values -----

  /** The room that printing a value asks for first; None when it gives up before. */
  function FirstRequest(v: J.Json, l: J.Layout): Option<nat> {
    match v
    case Invalid => None
    case Null => Some(|J.NULL_TEXT| + 1)
    case False => Some(|J.FALSE_TEXT| + 1)
    case True => Some(|J.TRUE_TEXT| + 1)
    case Number(x) => if |l.codec.show(x)| > J.MAX_NUMBER_TEXT then None else Some(|l.codec.show(x)| + 1)
    case String(t) => Some(|Quoted(t)| + 1)
    case Raw(t) => Some(|t| + 1)
    case Array(_) => Some(1)
    case Object(_) => Some(if l.formatted then 3 else 2)
  }

  /** A tree to print, none of whose strings is the output buffer. */
  ghost predicate Source(s: Shape, p: PrintBuffer)
    reads s.node`child, s.node`text, s.node`key, s.node`isReference, s.node`keyIsConst, NodesAll(s.kids), Blocks(s),
      p`buffer
  {
    Linked(s, true) && Strings(s) && (p.buffer != null ==> p.buffer !in Blocks(s))
  }

  method PrintNumber(item: Node, p: PrintBuffer) returns (ok: bool)
    requires p.Valid() && p.buffer != null
    modifies p`buffer, p`length, p`base, p`touched, p`strayed, p`offset, p.buffer, p.heap
    ensures p.Valid() && Kept(p) && Strays(p, FirstRequest(J.Number(item.number), p.layout))
    ensures var t := p.layout.codec.show(item.number);
            if ok then |t| <= 25 && Printed(p, t)
            else |t| > 25 || OutOfRoom(p, old(p.offset) + |t| + 2)
  {
    var t := p.layout.codec.show(item.number);
    if |t| > J.MAX_NUMBER_TEXT {
      return false;
    }
    ok := Append(p, t, 1, true);
    if ok {
      EmptyTail(p);
    }
  }

  lemma EmptyTail(p: PrintBuffer)
    requires p.Valid() && p.buffer != null && p.offset < p.length && p.buffer[p.offset] == NUL
    ensures p.Ready() && p.Tail() == []
  {
    assert p.buffer[p.offset..][0] == NUL;
  }

  /** Raw text is copied as it is. */
  method PrintRaw(b: array<byte>, p: PrintBuffer) returns (ok: bool)
    requires p.Valid() && p.buffer != null && Terminated(b) && b != p.buffer
    modifies p`buffer, p`length, p`base, p`touched, p`strayed, p.buffer, p.heap
    ensures p.Valid() && Kept(p) && Strays(p, Some(|old(StringOf(b))| + 1))
    ensures var t := old(StringOf(b));
            if ok then Printed(p, t) else OutOfRoom(p, p.offset + |t| + 2)
  {
    hide StringOf, Terminated, NulFree;
    var n := Strlen(b);
    ok := PutString(p, b[..n]);
  }

  /** Everything but arrays and objects. */
  method PrintScalar(item: Node, p: PrintBuffer, ghost s: Shape) returns (ok: bool)
    requires p.Valid() && p.buffer != null && item == s.node && Source(s, p) && item.kind != ArrayKind &&
      item.kind != ObjectKind
    modifies p`buffer, p`length, p`base, p`touched, p`strayed, p`offset, p.buffer, p.heap
    ensures p.Valid() && Kept(p) && Strays(p, FirstRequest(old(Val(s)), p.layout))
    ensures var v := old(Val(s)); var t := J.Text(v, p.layout, 0);
            if ok then J.Printable(v, p.layout.codec) && Printed(p, t)
            else !J.Printable(v, p.layout.codec) || OutOfRoom(p, old(p.offset) + |t| + 2)
  {
    hide Quoted, Terminated, StringOf, NulFree, Printed, OutOfRoom, Linked, Strings, PrintBuffer.Clean;
    ok := false;
    SourceStrings(s);
    ghost var v := Val(s);
    match item.kind
    case NullKind =>
      ok := PutString(p, J.NULL_TEXT);
    case FalseKind =>
      ok := PutString(p, J.FALSE_TEXT);
    case TrueKind =>
      ok := PutString(p, J.TRUE_TEXT);
    case NumberKind =>
      ok := PrintNumber(item, p);
    case RawKind =>
      if item.text != null {
        assert v == J.Raw(StringOf(item.text));
        ok := PrintRaw(item.text, p);
      }
    case StringKind =>
      assert v == J.String(StringOf(item.text));
      ok := PrintStringPtr(item.text, p);
    case _ =>
  }

  lemma SourceStrings(s: Shape)
    requires Linked(s, true) && Strings(s)
    ensures s.node.text == s.text && s.node.key == s.key && Terminated(s.text) && Terminated(s.key)
    ensures (s.text != null ==> s.text in Blocks(s)) && (s.key != null ==> s.key in Blocks(s))
    ensures NulFree(J.NULL_TEXT) && NulFree(J.FALSE_TEXT) && NulFree(J.TRUE_TEXT)
  {}

  method Strlen(b: array<byte>) returns (n: nat)
    requires Terminated(b)
    ensures n < b.Length && b[..n] == StringOf(b) && NulFree(StringOf(b))
  {
    StringPrefix(b);
    n := 0;
    while b[n] != NUL
      invariant n <= |StringOf(b)|
      decreases |StringOf(b)| - n
    {
      StringIndex(b, n);
      n := n + 1;
    }
    StringIndex(b, n);
  }

  /** Text has been printed and stepped over, and there is still room for one byte and the terminator. */
  twostate predicate Advanced(p: PrintBuffer, new t: bytes)
    requires p.Valid() && old(p.Valid()) && old(p.buffer) != null
    reads p, p.buffer, p.heap
  {
    && p.buffer != null && p.offset < p.length && Grown(old(p.length), p.offset + 2, p.length)
    && p.offset == old(p.offset) + |t| && p.Written() == old(p.Written()) + t && Within(p, |t| + 1)
  }

  lemma SourceKid(s: Shape, i: nat, p: PrintBuffer)
    requires Source(s, p) && i < |s.kids|
    ensures Source(s.kids[i], p)
    ensures s.kids[i].node.next == (if i + 1 < |s.kids| then s.kids[i + 1].node else null)
    ensures Terminated(s.kids[i].key) && s.kids[i].node.key == s.kids[i].key &&
      (p.buffer != null ==> s.kids[i].key != p.buffer)
  {
    SourceChild(s, i);
    SourceNode(s.kids[i]);
    assert Blocks(s.kids[i]) <= BlocksAll(s.kids) <= Blocks(s);
  }

  /** A value and the comma behind it. */
  method PrintElement(child: Node, p: PrintBuffer, ghost s: Shape) returns (ok: bool)
    requires p.Valid() && p.buffer != null && child == s.node && Source(s, p)
    modifies p`buffer, p`length, p`base, p`touched, p`strayed, p`offset, p`depth, p.buffer, p.heap
    ensures p.Valid() && Kept(p) && (ok ==> p.depth == old(p.depth))
    ensures var v := old(Val(s));
            var t := J.Text(v, p.layout, old(p.depth)) + J.AfterElem(p.layout, old(child.next) == null);
            if ok then J.Printable(v, p.layout.codec) && Advanced(p, t)
            else !J.Printable(v, p.layout.codec) || OutOfRoom(p, old(p.offset) + |t| + 2)
    decreases s, 5
  {
    hide J.Text, J.Printable, Val, Linked, Strings, NodesAll, Blocks, J.AfterElem, Grown,
      CString, PrintBuffer.Written, PrintBuffer.Tail, PrintBuffer.Ready, PrintBuffer.Clean;
    ghost var w, v := p.Written(), Val(s);
    ghost var t, sep := J.Text(v, p.layout, p.depth), J.AfterElem(p.layout, child.next == null);
    ok := PrintValue(child, p, s);
    if ok {
      UpdateOffset(p);
      assert p.Written() == w + t;
      ghost var middle := p.length;
      ok := PrintComma(p, child.next == null);
      ConcatAssociates(w, t, sep);
      if ok {
        GrownTwice(old(p.length), old(p.offset) + |t| + 2, middle, p.offset + 2, p.length);
      }
    }
  }

  /** The separator of array elements. */
  method PrintComma(p: PrintBuffer, last: bool) returns (ok: bool)
    requires p.Valid() && p.buffer != null && p.Ready() && p.offset + 2 <= p.length
    modifies p`buffer, p`length, p`base, p`touched, p`strayed, p`offset, p.buffer, p.heap
    ensures p.Valid() && Kept(p)
    ensures var t := J.AfterElem(p.layout, last);
            if ok then Advanced(p, t) else OutOfRoom(p, old(p.offset) + |t| + 2)
  {
    ok := true;
    if !last {
      ok := Append(p, if p.layout.formatted then [COMMA, SPACE] else [COMMA], 1, true);
    } else {
      assert p.Written() + [] == p.Written();
    }
  }

  /** One more element: what it adds to the text, and what is left. */
  lemma ElemsTextStep(kids: seq<Shape>, i: nat, l: J.Layout, depth: nat)
    requires i < |kids|
    ensures var v := Val(kids[i]);
            var rest := ElemsFrom(kids, i + 1);
            && ElemsFrom(kids, i) == J.Elem(v, rest) && (rest.NoElems? <==> i + 1 == |kids|)
            && J.ElemsText(ElemsFrom(kids, i), l, depth) ==
                 J.Text(v, l, depth) + J.AfterElem(l, i + 1 == |kids|) + J.ElemsText(rest, l, depth)
            && (J.PrintableElems(ElemsFrom(kids, i), l.codec) <==>
               J.Printable(v, l.codec) && J.PrintableElems(rest, l.codec))
  {
    hide J.Text, J.Printable, Val, J.AfterElem;
  }

  lemma ElemsTextEnd(kids: seq<Shape>, l: J.Layout, depth: nat)
    ensures J.ElemsText(ElemsFrom(kids, |kids|), l, depth) == [] && J.PrintableElems(ElemsFrom(kids, |kids|), l.codec)
  {}

  /** The elements `kids[i..]` are still to be printed. */
  ghost predicate ElemsLeft(kids: seq<Shape>, i: nat, p: PrintBuffer, whole: bytes, printable: bool)
    requires p.Valid()
    reads p, p.buffer, p.heap, NodesAll(kids)`kind, NodesAll(kids)`number, BlocksAll(kids)
  {
    && p.buffer != null && i <= |kids|
    && p.Written() + J.ElemsText(ElemsFrom(kids, i), p.layout, p.depth) == whole
    && J.PrintableElems(ElemsFrom(kids, i), p.layout.codec) == printable
  }

  method PrintElements(first: Node?, p: PrintBuffer, ghost s: Shape) returns (ok: bool)
    requires p.Valid() && p.buffer != null && p.offset < p.length && first == First(s.kids) && Source(s, p)
    modifies p`buffer, p`length, p`base, p`touched, p`strayed, p`offset, p`depth, p.buffer, p.heap
    ensures p.Valid() && Kept(p) && (ok ==> p.depth == old(p.depth))
    ensures var es := old(ElemsFrom(s.kids, 0)); var t := J.ElemsText(es, p.layout, old(p.depth));
            if ok then J.PrintableElems(es, p.layout.codec) && Advanced(p, t)
            else !J.PrintableElems(es, p.layout.codec) || OutOfRoom(p, old(p.offset) + |t| + 2)
    decreases s, 1
  {
    hide Val, ElemsFrom, Linked, Strings, NodesAll, Blocks, BlocksAll, CString,
      PrintBuffer.Written, PrintBuffer.Tail, PrintBuffer.Ready, PrintBuffer.Clean, J.ElemsText, J.PrintableElems,
        Source;
    var child := first;
    ghost var i, es := 0, ElemsFrom(s.kids, 0);
    ghost var t := J.ElemsText(es, p.layout, p.depth);
    ghost var whole, printable := p.Written() + t, J.PrintableElems(es, p.layout.codec);
    ok := true;
    while child != null
      invariant i <= |s.kids| && child == (if i < |s.kids| then s.kids[i].node else null)
      invariant p.Valid() && Kept(p) && p.depth == old(p.depth) && Source(s, p)
      invariant p.buffer != null && p.offset < p.length && Grown(old(p.length), p.offset + 2, p.length)
      invariant p.touched <= old(p.touched) || p.touched <= p.offset + 1
      invariant ElemsLeft(s.kids, i, p, whole, printable)
      decreases |s.kids| - i
    {
      ok := PrintElementLeft(child, p, s, i, whole, printable);
      if !ok {
        return;
      }
      child := child.next;
      i := i + 1;
    }
    ElemsTextEnd(s.kids, p.layout, p.depth);
  }

  lemma KidsBlocks(s: Shape)
    ensures BlocksAll(s.kids) <= Blocks(s)
  {}

  /** One round of that loop. */
  method PrintElementLeft(child: Node, p: PrintBuffer, ghost s: Shape, ghost i: nat, ghost whole: bytes,
                          ghost printable: bool)
    returns (ok: bool)
    requires p.Valid() && Source(s, p) && i < |s.kids| && child == s.kids[i].node &&
      ElemsLeft(s.kids, i, p, whole, printable)
    modifies p`buffer, p`length, p`base, p`touched, p`strayed, p`offset, p`depth, p.buffer, p.heap
    ensures p.Valid() && Kept(p)
    ensures if ok then
              && p.depth == old(p.depth) && Source(s, p) && p.buffer != null && p.offset < p.length
              && p.offset >= old(p.offset) && Grown(old(p.length), p.offset + 2, p.length)
              && (p.touched <= old(p.touched) || p.touched <= p.offset + 1)
              && ElemsLeft(s.kids, i + 1, p, whole, printable)
              && child.next == (if i + 1 < |s.kids| then s.kids[i + 1].node else null)
            else !printable || OutOfRoom(p, |whole| + 2)
    decreases s, 0
  {
    hide Val, ElemsFrom, Linked, Strings, NodesAll, Blocks, BlocksAll, Grown, CString,
      PrintBuffer.Written, PrintBuffer.Tail, PrintBuffer.Ready, PrintBuffer.Clean, J.ElemsText, J.PrintableElems,
        J.Text, J.AfterElem, J.Printable;
    assert allocated(Blocks(s)) && allocated(BlocksAll(s.kids)) && allocated(NodesAll(s.kids));
    KidsBlocks(s);
    SourceKid(s, i, p);
    ElemsTextStep(s.kids, i, p.layout, p.depth);
    ghost var v, rest := Val(s.kids[i]), ElemsFrom(s.kids, i + 1);
    ghost var t := J.Text(v, p.layout, p.depth) + J.AfterElem(p.layout, i + 1 == |s.kids|);
    ghost var w, u := p.Written(), J.ElemsText(rest, p.layout, p.depth);
    ConcatAssociates(w, t, u);
    ok := PrintElement(child, p, s.kids[i]);
  }

  /** A tree stays as it is while other blocks are written to. */
  lemma SourceFields(s: Shape)
    requires Linked(s, true)
    ensures s.node.child == First(s.kids)
  {}

  /** The opening bracket; the tree and what it stands for are as before. */
  method OpenArray(item: Node, p: PrintBuffer, ghost s: Shape) returns (ok: bool)
    requires p.Valid() && p.buffer != null && item == s.node && Source(s, p)
    modifies p`buffer, p`length, p`base, p`touched, p`strayed, p`offset, p`depth, p.buffer, p.heap
    ensures p.Valid() && Kept(p) && Strays(p, Some(1))
    ensures !ok ==> OutOfRoom(p, old(p.offset) + 2)
    ensures ok ==>
      && p.buffer != null && p.offset < p.length && Grown(old(p.length), p.offset + 1, p.length)
      && p.offset == old(p.offset) + 1 && p.Written() == old(p.Written()) + [OPEN_BRACKET] &&
         p.depth == old(p.depth) + 1
      && (p.touched <= old(p.touched) || p.touched <= p.offset)
      && Source(s, p) && item.child == First(s.kids) && ElemsFrom(s.kids, 0) == old(ElemsFrom(s.kids, 0))
  {
    hide Val, ElemsFrom, MembersFrom, Linked, Strings, NodesAll, Blocks, BlocksAll, CString, StringOf, Grown,
      PrintBuffer.Written, PrintBuffer.Tail, PrintBuffer.Ready, PrintBuffer.Clean;
    assert allocated(Blocks(s)) && allocated(BlocksAll(s.kids)) && allocated(NodesAll(s.kids));
    KidsBlocks(s);
    SourceFields(s);
    ok := Append(p, [OPEN_BRACKET], 0, false);
    if ok {
      p.depth := p.depth + 1;
    }
  }

  method PrintArray(item: Node, p: PrintBuffer, ghost s: Shape) returns (ok: bool)
    requires p.Valid() && p.buffer != null && item == s.node && Source(s, p) && item.kind == ArrayKind
    modifies p`buffer, p`length, p`base, p`touched, p`strayed, p`offset, p`depth, p.buffer, p.heap
    ensures p.Valid() && Kept(p) && (ok ==> p.depth == old(p.depth))
    ensures Strays(p, Some(1))
    ensures var v := J.Array(old(ElemsFrom(s.kids, 0))); var t := J.Text(v, p.layout, old(p.depth));
            if ok then J.Printable(v, p.layout.codec) && Printed(p, t)
            else !J.Printable(v, p.layout.codec) || OutOfRoom(p, old(p.offset) + |t| + 2)
    decreases s, 3
  {
    hide Val, ElemsFrom, MembersFrom, Linked, Strings, NodesAll, Blocks, BlocksAll, CString, StringOf, Quoted, Grown,
      PrintBuffer.Written, PrintBuffer.Tail, PrintBuffer.Ready, PrintBuffer.Clean, J.ElemsText, J.PrintableElems;
    ghost var w, t, n := p.Written(), J.ElemsText(ElemsFrom(s.kids, 0), p.layout, p.depth + 1), p.length;
    ok := OpenArray(item, p, s);
    if !ok {
      return;
    }
    ghost var m := p.length;
    ok := PrintElementsAndBracket(item, p, s);
    if ok {
      ConcatAssociates(w, [OPEN_BRACKET], t + [CLOSE_BRACKET]);
      ConcatAssociates([OPEN_BRACKET], t, [CLOSE_BRACKET]);
      GrownTwice(n, old(p.offset) + 2, m, old(p.offset) + |t| + 4, p.length);
    }
  }

  method PrintElementsAndBracket(item: Node, p: PrintBuffer, ghost s: Shape) returns (ok: bool)
    requires p.Valid() && p.buffer != null && p.offset < p.length && p.depth > 0
    requires item == s.node && item.child == First(s.kids) && Source(s, p)
    modifies p`buffer, p`length, p`base, p`touched, p`strayed, p`offset, p`depth, p.buffer, p.heap
    ensures p.Valid() && Kept(p) && (ok ==> p.depth == old(p.depth) - 1)
    ensures var es := old(ElemsFrom(s.kids, 0)); var t := J.ElemsText(es, p.layout, old(p.depth)) + [CLOSE_BRACKET];
            if ok then J.PrintableElems(es, p.layout.codec) && Printed(p, t)
            else !J.PrintableElems(es, p.layout.codec) || OutOfRoom(p, old(p.offset) + |t| + 2)
    decreases s, 2
  {
    hide Val, ElemsFrom, MembersFrom, Linked, Strings, NodesAll, Blocks, BlocksAll, CString, StringOf, Quoted, Grown,
      PrintBuffer.Written, PrintBuffer.Tail, PrintBuffer.Ready, PrintBuffer.Clean, J.ElemsText, J.PrintableElems,
        Source;
    ghost var w, t, n := p.Written(), J.ElemsText(ElemsFrom(s.kids, 0), p.layout, p.depth), p.length;
    ok := PrintElements(item.child, p, s);
    if !ok {
      return;
    }
    ghost var m := p.length;
    ok := PutString(p, [CLOSE_BRACKET]);
    p.depth := p.depth - 1;
    if ok {
      ConcatAssociates(w, t, [CLOSE_BRACKET]);
      GrownTwice(n, p.offset + 2, m, p.offset + 3, p.length);
    }
  }

  // ----- objects -----

  /** Indentation, key and colon of a member. */
  method PrintKey(child: Node, p: PrintBuffer) returns (ok: bool)
    requires p.Valid() && p.buffer != null && p.offset < p.length && Terminated(child.key) &&
      (child.key != null ==> child.key != p.buffer)
    modifies p`buffer, p`length, p`base, p`touched, p`strayed, p`offset, p.buffer, p.heap
    ensures p.Valid() && Kept(p)
    ensures var t := J.KeyText(old(StringOf(child.key)), p.layout, p.depth);
            if ok then Advanced(p, t) else OutOfRoom(p, old(p.offset) + |t| + 2)
  {
    hide StringOf, CString, Quoted, Terminated, Grown, PrintBuffer.Written, PrintBuffer.Tail, PrintBuffer.Ready,
      PrintBuffer.Clean;
    ghost var w, n, q := p.Written(), p.length, Quoted(StringOf(child.key));
    ghost var tabs := J.Gap(p.layout, J.Repeat(TAB, p.depth));
    var colon := [COLON] + J.Gap(p.layout, [TAB]);
    ok := true;
    if p.layout.formatted {
      ok := Append(p, J.Repeat(TAB, p.depth), 0, false);
      if !ok {
        return;
      }
    } else {
      assert p.Written() + [] == p.Written();
      GrownSame(n, p.offset + 1);
    }
    assert p.Written() == w + tabs;
    ghost var m := p.length;
    ok := PrintQuotedKey(child.key, p, colon);
    if ok {
      ConcatAssociates(w, tabs, q + colon);
      ConcatAssociates(tabs, q, colon);
      GrownTwice(n, old(p.offset) + |tabs| + 1, m, p.offset + 2, p.length);
    }
  }

  lemma GrownSame(a: nat, n: nat)
    ensures Grown(a, n, a)
  {}

  method PrintQuotedKey(key: array?<byte>, p: PrintBuffer, colon: bytes) returns (ok: bool)
    requires p.Valid() && p.buffer != null && Terminated(key) && (key != null ==> key != p.buffer)
    requires |colon| > 0
    modifies p`buffer, p`length, p`base, p`touched, p`strayed, p`offset, p.buffer, p.heap
    ensures p.Valid() && Kept(p)
    ensures var t := old(Quoted(StringOf(key))) + colon;
            if ok then Advanced(p, t) else OutOfRoom(p, old(p.offset) + |t| + 2)
  {
    hide StringOf, CString, Quoted, Terminated, Grown, PrintBuffer.Written, PrintBuffer.Tail, PrintBuffer.Ready,
      PrintBuffer.Clean;
    ghost var w, n, q := p.Written(), p.length, Quoted(StringOf(key));
    ok := PrintStringPtr(key, p);
    if !ok {
      return;
    }
    ghost var m := p.length;
    UpdateOffset(p);
    assert p.Written() == w + q;
    ok := Append(p, colon, 0, false);
    if ok {
      ConcatAssociates(w, q, colon);
      GrownTwice(n, old(p.offset) + |q| + 2, m, p.offset + 1, p.length);
      GrownMore(n, p.offset + 1, p.length);
    }
  }

  lemma GrownMore(a: nat, n: nat, b: nat)
    requires Grown(a, n, b)
    ensures Grown(a, n + 1, b)
  {}

  /** A member with the comma and line end behind it. */
  method PrintMember(child: Node, p: PrintBuffer, ghost s: Shape) returns (ok: bool)
    requires p.Valid() && p.buffer != null && p.offset < p.length && child == s.node && Source(s, p)
    modifies p`buffer, p`length, p`base, p`touched, p`strayed, p`offset, p`depth, p.buffer, p.heap
    ensures p.Valid() && Kept(p) && (ok ==> p.depth == old(p.depth))
    ensures var v := old(Val(s));
            var t := J.KeyText(old(StringOf(s.key)), p.layout, old(p.depth)) +
                     (J.Text(v, p.layout, old(p.depth)) + J.AfterMember(p.layout, old(child.next) == null));
            if ok then J.Printable(v, p.layout.codec) && Advanced(p, t)
            else !J.Printable(v, p.layout.codec) || OutOfRoom(p, old(p.offset) + |t| + 2)
    decreases s, 6
  {
    hide Val, ElemsFrom, MembersFrom, Linked, Strings, NodesAll, Blocks, BlocksAll, CString, StringOf, Quoted, Grown,
      PrintBuffer.Written, PrintBuffer.Tail, PrintBuffer.Ready, PrintBuffer.Clean, J.KeyText, J.Text, J.AfterMember,
        J.Printable, Terminated;
    ghost var w, n := p.Written(), p.length;
    ghost var head := J.KeyText(StringOf(s.key), p.layout, p.depth);
    ghost var rest := J.Text(Val(s), p.layout, p.depth) + J.AfterMember(p.layout, child.next == null);
    assert allocated(Blocks(s)) && allocated(NodesAll(s.kids)) && allocated(Nodes(s));
    SourceStrings(s);
    ok := PrintKey(child, p);
    if !ok {
      return;
    }
    ghost var m := p.length;
    ok := PrintMemberValue(child, p, s);
    if ok {
      ConcatAssociates(w, head, rest);
      GrownTwice(n, old(p.offset) + |head| + 2, m, p.offset + 2, p.length);
    }
  }

  method PrintMemberValue(child: Node, p: PrintBuffer, ghost s: Shape) returns (ok: bool)
    requires p.Valid() && p.buffer != null && child == s.node && Source(s, p)
    modifies p`buffer, p`length, p`base, p`touched, p`strayed, p`offset, p`depth, p.buffer, p.heap
    ensures p.Valid() && Kept(p) && (ok ==> p.depth == old(p.depth))
    ensures var v := old(Val(s));
            var t := J.Text(v, p.layout, old(p.depth)) + J.AfterMember(p.layout, old(child.next) == null);
            if ok then J.Printable(v, p.layout.codec) && Advanced(p, t)
            else !J.Printable(v, p.layout.codec) || OutOfRoom(p, old(p.offset) + |t| + 2)
    decreases s, 5
  {
    hide Val, ElemsFrom, MembersFrom, Linked, Strings, NodesAll, Blocks, BlocksAll, CString, StringOf, Quoted, Grown,
      PrintBuffer.Written, PrintBuffer.Tail, PrintBuffer.Ready, PrintBuffer.Clean, J.Text, J.Printable, J.AfterMember;
    ghost var w, v, n := p.Written(), Val(s), p.length;
    ghost var t := J.Text(v, p.layout, p.depth);
    ok := PrintValue(child, p, s);
    if !ok {
      return;
    }
    UpdateOffset(p);
    assert p.Written() == w + t;
    ghost var m, sep := p.length, J.AfterMember(p.layout, child.next == null);
    ok := PrintMemberEnd(p, child.next == null);
    if ok {
      ConcatAssociates(w, t, sep);
      GrownTwice(n, old(p.offset) + |t| + 2, m, p.offset + 2, p.length);
    }
  }

  /** The separator of members. */
  method PrintMemberEnd(p: PrintBuffer, last: bool) returns (ok: bool)
    requires p.Valid() && p.buffer != null
    modifies p`buffer, p`length, p`base, p`touched, p`strayed, p`offset, p.buffer, p.heap
    ensures p.Valid() && Kept(p)
    ensures var t := J.AfterMember(p.layout, last);
            if ok then Advanced(p, t) else OutOfRoom(p, old(p.offset) + |t| + 2)
  {
    hide PrintBuffer.Written, PrintBuffer.Tail, PrintBuffer.Ready, PrintBuffer.Clean, Grown;
    var sep := (if !last then [COMMA] else []) + (if p.layout.formatted then [NEWLINE] else []);
    ok := Append(p, sep, 1, true);
  }

  lemma MembersTextStep(kids: seq<Shape>, i: nat, l: J.Layout, depth: nat)
    requires i < |kids|
    ensures var v := Val(kids[i]);
            var key := StringOf(kids[i].key);
            var rest := MembersFrom(kids, i + 1);
            && MembersFrom(kids, i) == J.Member(key, v, rest) && (rest.NoMembers? <==> i + 1 == |kids|)
            && J.MembersText(MembersFrom(kids, i), l, depth) ==
                 J.KeyText(key, l, depth) + (J.Text(v, l, depth) + J.AfterMember(l, i + 1 == |kids|)) +
                   J.MembersText(rest, l, depth)
            && (J.PrintableMembers(MembersFrom(kids, i), l.codec) <==>
               J.Printable(v, l.codec) && J.PrintableMembers(rest, l.codec))
  {
    hide J.Text, J.Printable, Val, J.AfterMember, J.KeyText, StringOf;
    ConcatAssociates(J.KeyText(StringOf(kids[i].key), l, depth), J.Text(Val(kids[i]), l, depth),
      J.AfterMember(l, i + 1 == |kids|));
  }

  lemma MembersTextEnd(kids: seq<Shape>, l: J.Layout, depth: nat)
    ensures J.MembersText(MembersFrom(kids, |kids|), l, depth) == [] &&
      J.PrintableMembers(MembersFrom(kids, |kids|), l.codec)
  {}

  /** The members `kids[i..]` are still to be printed. */
  ghost predicate MembersLeft(kids: seq<Shape>, i: nat, p: PrintBuffer, whole: bytes, printable: bool)
    requires p.Valid()
    reads p, p.buffer, p.heap, NodesAll(kids)`kind, NodesAll(kids)`number, BlocksAll(kids)
  {
    && p.buffer != null && i <= |kids|
    && p.Written() + J.MembersText(MembersFrom(kids, i), p.layout, p.depth) == whole
    && J.PrintableMembers(MembersFrom(kids, i), p.layout.codec) == printable
  }

  method PrintMembers(first: Node?, p: PrintBuffer, ghost s: Shape) returns (ok: bool)
    requires p.Valid() && p.buffer != null && p.offset < p.length && first == First(s.kids) && Source(s, p)
    modifies p`buffer, p`length, p`base, p`touched, p`strayed, p`offset, p`depth, p.buffer, p.heap
    ensures p.Valid() && Kept(p) && (ok ==> p.depth == old(p.depth))
    ensures var ms := old(MembersFrom(s.kids, 0)); var t := J.MembersText(ms, p.layout, old(p.depth));
            if ok then J.PrintableMembers(ms, p.layout.codec) && Advanced(p, t)
            else !J.PrintableMembers(ms, p.layout.codec) || OutOfRoom(p, old(p.offset) + |t| + 2)
    decreases s, 1
  {
    hide Val, MembersFrom, Linked, Strings, NodesAll, Blocks, BlocksAll, CString,
      PrintBuffer.Written, PrintBuffer.Tail, PrintBuffer.Ready, PrintBuffer.Clean, J.MembersText, J.PrintableMembers,
        Source;
    var child := first;
    ghost var i, ms := 0, MembersFrom(s.kids, 0);
    ghost var t := J.MembersText(ms, p.layout, p.depth);
    ghost var whole, printable := p.Written() + t, J.PrintableMembers(ms, p.layout.codec);
    ok := true;
    while child != null
      invariant i <= |s.kids| && child == (if i < |s.kids| then s.kids[i].node else null)
      invariant p.Valid() && Kept(p) && p.depth == old(p.depth) && Source(s, p)
      invariant p.buffer != null && p.offset < p.length && Grown(old(p.length), p.offset + 2, p.length)
      invariant p.touched <= old(p.touched) || p.touched <= p.offset + 1
      invariant MembersLeft(s.kids, i, p, whole, printable)
      decreases |s.kids| - i
    {
      ok := PrintMemberLeft(child, p, s, i, whole, printable);
      if !ok {
        return;
      }
      child := child.next;
      i := i + 1;
    }
    MembersTextEnd(s.kids, p.layout, p.depth);
  }

  /** One round of that loop. */
  method PrintMemberLeft(child: Node, p: PrintBuffer, ghost s: Shape, ghost i: nat, ghost whole: bytes,
                         ghost printable: bool)
    returns (ok: bool)
    requires p.Valid() && p.buffer != null && p.offset < p.length
    requires Source(s, p) && i < |s.kids| && child == s.kids[i].node && MembersLeft(s.kids, i, p, whole, printable)
    modifies p`buffer, p`length, p`base, p`touched, p`strayed, p`offset, p`depth, p.buffer, p.heap
    ensures p.Valid() && Kept(p)
    ensures if ok then
              && p.depth == old(p.depth) && Source(s, p) && p.buffer != null && p.offset < p.length
              && p.offset >= old(p.offset) && Grown(old(p.length), p.offset + 2, p.length)
              && (p.touched <= old(p.touched) || p.touched <= p.offset + 1)
              && MembersLeft(s.kids, i + 1, p, whole, printable)
              && child.next == (if i + 1 < |s.kids| then s.kids[i + 1].node else null)
            else !printable || OutOfRoom(p, |whole| + 2)
    decreases s, 0
  {
    hide Val, ElemsFrom, MembersFrom, Linked, Strings, NodesAll, Blocks, BlocksAll, CString, StringOf, Quoted, Grown,
      PrintBuffer.Written, PrintBuffer.Tail, PrintBuffer.Ready, PrintBuffer.Clean, J.MembersText, J.PrintableMembers,
        J.Text, J.AfterMember, J.KeyText, J.Printable;
    assert allocated(Blocks(s)) && allocated(BlocksAll(s.kids)) && allocated(NodesAll(s.kids));
    KidsBlocks(s);
    SourceKid(s, i, p);
    MembersTextStep(s.kids, i, p.layout, p.depth);
    ghost var v, rest := Val(s.kids[i]), MembersFrom(s.kids, i + 1);
    ghost var t := J.KeyText(StringOf(s.kids[i].key), p.layout, p.depth) +
      (J.Text(v, p.layout, p.depth) + J.AfterMember(p.layout, i + 1 == |s.kids|));
    ghost var w, u := p.Written(), J.MembersText(rest, p.layout, p.depth);
    ConcatAssociates(w, t, u);
    ok := PrintMember(child, p, s.kids[i]);
  }

  /** The opening brace; the tree and what it stands for are as before. */
  method OpenObject(item: Node, p: PrintBuffer, open: bytes, ghost s: Shape) returns (ok: bool)
    requires p.Valid() && p.buffer != null && item == s.node && Source(s, p)
    modifies p`buffer, p`length, p`base, p`touched, p`strayed, p`offset, p`depth, p.buffer, p.heap
    ensures p.Valid() && Kept(p) && Strays(p, Some(|open| + 1))
    ensures !ok ==> OutOfRoom(p, old(p.offset) + |open| + 2)
    ensures ok ==>
      && p.buffer != null && p.offset < p.length && Grown(old(p.length), p.offset + 2, p.length)
      && p.offset == old(p.offset) + |open| && p.Written() == old(p.Written()) + open && p.depth == old(p.depth) + 1
      && (p.touched <= old(p.touched) || p.touched <= p.offset)
      && Source(s, p) && item.child == First(s.kids) && MembersFrom(s.kids, 0) == old(MembersFrom(s.kids, 0))
  {
    hide Val, ElemsFrom, MembersFrom, Linked, Strings, NodesAll, Blocks, BlocksAll, CString, StringOf, Grown,
      PrintBuffer.Written, PrintBuffer.Tail, PrintBuffer.Ready, PrintBuffer.Clean;
    assert allocated(Blocks(s)) && allocated(BlocksAll(s.kids)) && allocated(NodesAll(s.kids));
    KidsBlocks(s);
    SourceFields(s);
    ok := Append(p, open, 1, false);
    if ok {
      p.depth := p.depth + 1;
    }
  }

  method PrintObject(item: Node, p: PrintBuffer, ghost s: Shape) returns (ok: bool)
    requires p.Valid() && p.buffer != null && item == s.node && Source(s, p) && item.kind == ObjectKind
    modifies p`buffer, p`length, p`base, p`touched, p`strayed, p`offset, p`depth, p.buffer, p.heap
    ensures p.Valid() && Kept(p) && (ok ==> p.depth == old(p.depth))
    ensures Strays(p, Some(if p.layout.formatted then 3 else 2))
    ensures var v := J.Object(old(MembersFrom(s.kids, 0))); var t := J.Text(v, p.layout, old(p.depth));
            if ok then J.Printable(v, p.layout.codec) && Printed(p, t)
            else !J.Printable(v, p.layout.codec) || OutOfRoom(p, old(p.offset) + |t| + 2)
    decreases s, 3
  {
    hide Val, ElemsFrom, MembersFrom, Linked, Strings, NodesAll, Blocks, BlocksAll, CString, StringOf, Quoted, Grown,
      PrintBuffer.Written, PrintBuffer.Tail, PrintBuffer.Ready, PrintBuffer.Clean, J.MembersText, J.PrintableMembers,
        J.Repeat, J.Text, J.Printable, J.Gap;
    ghost var w, n, depth := p.Written(), p.length, p.depth;
    ghost var t := J.MembersText(MembersFrom(s.kids, 0), p.layout, p.depth + 1);
    ghost var close := J.Gap(p.layout, J.Repeat(TAB, p.depth)) + [CLOSE_BRACE];
    var open := if p.layout.formatted then [OPEN_BRACE, NEWLINE] else [OPEN_BRACE];
    ObjectParts(w, open, t, p.layout, MembersFrom(s.kids, 0), depth);
    ok := OpenObject(item, p, open, s);
    if !ok {
      return;
    }
    ghost var m := p.length;
    ok := PrintMembersAndBrace(item, p, s);
    if ok {
      GrownTwice(n, old(p.offset) + |open| + 2, m, old(p.offset) + |open| + |t + close| + 2, p.length);
    }
  }

  /** The text of an object in the order it is written. */
  lemma ObjectParts(w: bytes, open: bytes, t: bytes, l: J.Layout, ms: J.Members, depth: nat)
    requires open == (if l.formatted then [OPEN_BRACE, NEWLINE] else [OPEN_BRACE]) &&
      t == J.MembersText(ms, l, depth + 1)
    ensures var close := J.Gap(l, J.Repeat(TAB, depth)) + [CLOSE_BRACE];
            w + open + (t + close) == w + J.Text(J.Object(ms), l, depth)
            && |open| + |t + close| == |J.Text(J.Object(ms), l, depth)|
            && (J.Printable(J.Object(ms), l.codec) <==> J.PrintableMembers(ms, l.codec))
  {
    hide J.MembersText, J.Repeat, J.PrintableMembers;
    assert open == [OPEN_BRACE] + J.Gap(l, [NEWLINE]);
    var gap := J.Gap(l, J.Repeat(TAB, depth));
    hide J.Gap;
    ConcatAssociates(w, open, t + (gap + [CLOSE_BRACE]));
    assert open + t + gap + [CLOSE_BRACE] == open + (t + (gap + [CLOSE_BRACE]));
  }

  method PrintMembersAndBrace(item: Node, p: PrintBuffer, ghost s: Shape) returns (ok: bool)
    requires p.Valid() && p.buffer != null && p.offset < p.length && p.depth > 0
    requires item == s.node && item.child == First(s.kids) && Source(s, p)
    modifies p`buffer, p`length, p`base, p`touched, p`strayed, p`offset, p`depth, p.buffer, p.heap
    ensures p.Valid() && Kept(p) && (ok ==> p.depth == old(p.depth) - 1)
    ensures var ms := old(MembersFrom(s.kids, 0));
            var t := J.MembersText(ms, p.layout, old(p.depth)) +
              (J.Gap(p.layout, J.Repeat(TAB, old(p.depth) - 1)) + [CLOSE_BRACE]);
            if ok then J.PrintableMembers(ms, p.layout.codec) && Printed(p, t)
            else !J.PrintableMembers(ms, p.layout.codec) || OutOfRoom(p, old(p.offset) + |t| + 2)
    decreases s, 2
  {
    hide Val, ElemsFrom, MembersFrom, Linked, Strings, NodesAll, Blocks, BlocksAll, CString, StringOf, Quoted, Grown,
      PrintBuffer.Written, PrintBuffer.Tail, PrintBuffer.Ready, PrintBuffer.Clean, J.MembersText, J.PrintableMembers,
        Source;
    ghost var w, t, n := p.Written(), J.MembersText(MembersFrom(s.kids, 0), p.layout, p.depth), p.length;
    ok := PrintMembers(item.child, p, s);
    if !ok {
      return;
    }
    ghost var m := p.length;
    var close := (if p.layout.formatted then J.Repeat(TAB, p.depth - 1) else []) + [CLOSE_BRACE];
    ok := PutString(p, close);
    p.depth := p.depth - 1;
    if ok {
      ConcatAssociates(w, t, close);
      GrownTwice(n, p.offset + 2, m, p.offset + |close| + 2, p.length);
    }
  }

  /**
    Prints a tree behind the offset. It succeeds exactly when every node can be printed and there is room: with a fixed
    buffer, for the text and two bytes more; otherwise as long as memory is granted and nothing exceeds INT_MAX.
    */
  method PrintValue(item: Node, p: PrintBuffer, ghost s: Shape) returns (ok: bool)
    requires p.Valid() && p.buffer != null && item == s.node && Source(s, p)
    modifies p`buffer, p`length, p`base, p`touched, p`strayed, p`offset, p`depth, p.buffer, p.heap
    ensures p.Valid() && Kept(p) && (ok ==> p.depth == old(p.depth))
    ensures Strays(p, FirstRequest(old(Val(s)), p.layout))
    ensures var v := old(Val(s)); var t := J.Text(v, p.layout, old(p.depth));
            if ok then J.Printable(v, p.layout.codec) && Printed(p, t)
            else !J.Printable(v, p.layout.codec) || OutOfRoom(p, old(p.offset) + |t| + 2)
    decreases s, 4
  {
    hide Linked, Strings, NodesAll, Blocks, ElemsFrom, MembersFrom, J.ElemsText, J.MembersText, J.PrintableElems,
      J.PrintableMembers,
      Quoted, Printed, OutOfRoom, StringOf, Terminated;
    if item.kind == ArrayKind {
      ok := PrintArray(item, p, s);
    } else if item.kind == ObjectKind {
      ok := PrintObject(item, p, s);
    } else {
      ok := PrintScalar(item, p, s);
    }
  }

  // ----- the public entry points -----

  /** A block that holds a text and its terminator. */
  predicate Holds(b: array<byte>, t: bytes)
    reads b
  {
    |t| < b.Length && b[..|t|] == t && b[|t|] == NUL
  }

  lemma PrintedHolds(p: PrintBuffer, t: bytes)
    requires p.Valid() && p.Ready() && p.Written() + p.Tail() == t
    ensures Holds(p.buffer, t)
  {
    var w, u := p.Written(), p.Tail();
    var b := p.buffer[p.offset..];
    var i :| p.offset <= i < p.length && p.buffer[i] == NUL;
    assert b[i - p.offset] == NUL;
    assert |u| < |b|;
    assert p.buffer[..|t|] == p.buffer[..p.offset] + b[..|u|];
  }

  /** `cJSON_PrintPreallocated`: prints into the caller's buffer of `len` bytes, or reports that it does not fit. */
  method PrintPreallocated(item: Node, buf: array?<byte>, len: int, formatted: bool, codec: J.Codec, heap: Heap,
                           ghost s: Shape)
    returns (ok: bool)
    requires len <= INT_MAX && (buf != null && len >= 0 ==> buf.Length == len)
    requires item == s.node && Linked(s, true) && Strings(s) && (buf != null ==> buf !in Blocks(s))
    modifies (if buf == null then {} else {buf}), heap
    ensures heap.live == old(heap.live)
    ensures var v := old(Val(s)); var t := J.Text(v, J.Layout(formatted, codec), 0);
            && (ok <==> buf != null && J.Printable(v, codec) && |t| + 2 <= len)
            && (ok ==> Holds(buf, t) && forall i :: |t| < i < buf.Length ==> buf[i] == old(buf[i]))
  {
    hide Val, Linked, Strings, NodesAll, Blocks, J.Text, J.Printable, Holds, PrintBuffer.Written, PrintBuffer.Tail,
      PrintBuffer.Ready;
    if len < 0 || buf == null {
      return false;
    }
    assert allocated(Blocks(s)) && allocated(NodesAll(s.kids)) && allocated(Nodes(s));
    ghost var v := Val(s);
    var p := new PrintBuffer(buf, true, J.Layout(formatted, codec), heap);
    assert Val(s) == v;
    assert p.Written() == [];
    ok := PrintValue(item, p, s);
    if ok {
      PrintedFromStart(p, J.Text(v, p.layout, 0));
      assert p.Clean();
    }
  }

  lemma PrintedFromStart(p: PrintBuffer, t: bytes)
    requires p.Valid() && p.Ready() && p.Written() + p.Tail() == [] + t
    ensures Holds(p.buffer, t)
  {
    assert [] + t == t;
    PrintedHolds(p, t);
  }

  /**
    When `cJSON_PrintBuffered` copies more bytes than its block has: from a prebuffer of 0, without `realloc`, for a
    value that asks for room, when neither the prebuffer nor the block asked for first is refused.
    */
  predicate CopyStrays(prebuffer: int, reallocates: bool, refuses: nat -> bool, calls: nat, v: J.Json, l: J.Layout) {
    && prebuffer == 0 && !reallocates && !refuses(calls) && !refuses(calls + 1)
    && var request := FirstRequest(v, l); request.Some? && request.value + 1 <= INT_MAX
  }

  /**
    `cJSON_PrintBuffered`: prints into a block that starts with `prebuffer` bytes and grows when it has to. `strayed`
    says whether a copy to a larger block asked for bytes that the smaller one does not have.
    */
  method PrintBuffered(item: Node, prebuffer: int, formatted: bool, codec: J.Codec, heap: Heap, ghost s: Shape)
    returns (r: array?<byte>, ghost strayed: bool)
    requires item == s.node && Linked(s, true) && Strings(s)
    modifies heap
    ensures heap.calls >= old(heap.calls)
    ensures var v := old(Val(s)); var t := J.Text(v, J.Layout(formatted, codec), 0);
            if r != null then
              && prebuffer >= 0 && J.Printable(v, codec) && Holds(r, t) && Grown(prebuffer, |t| + 2, r.Length)
              && fresh(r) && heap.live == old(heap.live) + {r}
            else
              && (prebuffer < 0 || !J.Printable(v, codec) || |t| + 2 > INT_MAX || heap.RefusedSince(old(heap.calls)))
              && heap.live == old(heap.live)
    ensures strayed <==>
      CopyStrays(prebuffer, heap.reallocates, heap.refuses, old(heap.calls), old(Val(s)), J.Layout(formatted, codec))
  {
    hide Val, Linked, Strings, NodesAll, Blocks, J.Text, J.Printable, Holds, PrintBuffer.Written, PrintBuffer.Tail,
      PrintBuffer.Ready, PrintBuffer.Clean, Grown;
    r, strayed := null, false;
    if prebuffer < 0 {
      return;
    }
    assert allocated(Blocks(s)) && allocated(NodesAll(s.kids)) && allocated(Nodes(s));
    ghost var v := Val(s);
    var buffer := heap.NewBlock(prebuffer);
    if buffer == null {
      return;
    }
    var p := new PrintBuffer(buffer, false, J.Layout(formatted, codec), heap);
    assert Val(s) == v && p.Written() == [];
    var ok := PrintValue(item, p, s);
    strayed := p.strayed;
    if ok {
      PrintedFromStart(p, J.Text(v, p.layout, 0));
      r := p.buffer;
    } else if p.buffer != null {
      heap.ReleaseBlock(p.buffer);
    }
  }

  /** Over all values and refusals every copy stays in its block if and only if there is a prebuffer or `realloc`. */
  lemma CopiesStayExactly(prebuffer: int, reallocates: bool, l: J.Layout)
    ensures (forall refuses: nat -> bool, calls: nat, v: J.Json ::
               !CopyStrays(prebuffer, reallocates, refuses, calls, v, l))
       <==> prebuffer != 0 || reallocates
  {
    if prebuffer == 0 && !reallocates {
      NullStrays(l);
    }
  }

  /** Without either, printing `null` copies one byte from a block of none. */
  lemma NullStrays(l: J.Layout)
    ensures CopyStrays(0, false, n => false, 0, J.Null, l)
  {
    assert |J.NULL_TEXT| == 4;
  }

  /** The same by running the code on a node. */
  method PrintNullFromNothing(codec: J.Codec) returns (r: array?<byte>, ghost strayed: bool)
    ensures r != null && Holds(r, J.NULL_TEXT) && strayed
  {
    var heap := new Heap(n => false, false);
    var item := heap.NewItem();
    item.kind := NullKind;
    ghost var s := Shape(item, null, null, false, false, []);
    assert Val(s) == J.Null && Linked(s, true) && Strings(s);
    assert J.Printable(J.Null, codec) && |J.Text(J.Null, J.Layout(false, codec), 0)| == 4;
    r, strayed := PrintBuffered(item, 0, false, codec, heap, s);
  }

  /** `cJSON_Print` and `cJSON_PrintUnformatted`: the text in a block of exactly its size. */
  method Print(item: Node, formatted: bool, codec: J.Codec, heap: Heap, ghost s: Shape) returns (r: array?<byte>)
    requires item == s.node && Linked(s, true) && Strings(s)
    modifies heap
    ensures heap.calls >= old(heap.calls)
    ensures var v := old(Val(s)); var t := J.Text(v, J.Layout(formatted, codec), 0);
            if r != null then
              && J.Printable(v, codec) && Holds(r, t) && r.Length == |t| + 1
              && fresh(r) && heap.live == old(heap.live) + {r}
            else
              && (!J.Printable(v, codec) || |t| + 2 > INT_MAX || heap.RefusedSince(old(heap.calls)))
              && heap.live == old(heap.live)
  {
    hide Val, Linked, Strings, NodesAll, Blocks, J.Text, J.Printable, Holds, PrintBuffer.Written, PrintBuffer.Tail,
      PrintBuffer.Ready, PrintBuffer.Clean, Grown;
    r := null;
    assert allocated(Blocks(s)) && allocated(NodesAll(s.kids)) && allocated(Nodes(s));
    ghost var v := Val(s);
    var buffer := heap.NewBlock(256);
    if buffer == null {
      return;
    }
    var p := new PrintBuffer(buffer, false, J.Layout(formatted, codec), heap);
    assert Val(s) == v && p.Written() == [];
    var ok := PrintValue(item, p, s);
    if ok {
      ghost var t := J.Text(v, p.layout, 0);
      UpdateOffset(p);
      AllWritten(p, t);
      r := Shrink(p);
      if r != null {
        HoldsText(r, t);
      }
    }
    if r == null && p.buffer != null {
      heap.ReleaseBlock(p.buffer);
    }
  }

  lemma AllWritten(p: PrintBuffer, t: bytes)
    requires p.Valid() && p.Ready() && p.Tail() == [] && p.Written() == [] + t
    ensures p.offset == |t| && p.buffer[..p.offset] == t && p.buffer[p.offset] == NUL
  {
    assert [] + t == t && t + [] == t;
    PrintedHolds(p, t);
  }

  lemma HoldsText(r: array<byte>, t: bytes)
    requires r.Length == |t| + 1 && r[..|t|] == t && r[|t|] == NUL
    ensures Holds(r, t)
  {}

  /** Moves the finished text to a block of its own size. The old block is gone exactly when this succeeds. */
  method Shrink(p: PrintBuffer) returns (r: array?<byte>)
    requires p.Valid() && !p.noalloc && p.buffer != null && p.offset < p.length && p.buffer[p.offset] == NUL
    modifies p.buffer, p.heap
    ensures p.heap.calls >= old(p.heap.calls)
    ensures r == null ==> p.heap.live == old(p.heap.live) && p.heap.RefusedSince(old(p.heap.calls))
    ensures r != null ==>
      && fresh(r) && p.heap.live == old(p.heap.live) - {p.buffer} + {r}
      && r.Length == p.offset + 1 && r[..p.offset] == old(p.buffer[..p.offset]) && r[p.offset] == NUL
  {
    if p.heap.reallocates {
      r := p.heap.Resize(p.buffer, p.offset + 1);
    } else {
      r := p.heap.NewBlock(p.offset + 1);
      if r != null {
        forall i | 0 <= i < p.offset + 1 && i < p.length {
          r[i] := p.buffer[i];
        }
        r[p.offset] := NUL;
        p.heap.ReleaseBlock(p.buffer);
      }
    }
  }
}
