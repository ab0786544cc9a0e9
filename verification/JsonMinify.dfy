/** cJSON_Minify: the in-place loop with its read and write positions, and the function of the text it computes. */
module JsonMinify {
  import opened Bytes
  import opened JsonTree

  const STAR: byte := 42

  predicate White(b: byte) {
    b == SPACE || b == TAB || b == RETURN || b == NEWLINE
  }

  /** What follows a one-line comment. */
  function AfterLine(t: bytes): (r: bytes)
    ensures |r| <= |t|
  {
    if t == [] then [] else if t[0] == NEWLINE then t[1..] else AfterLine(t[1..])
  }

  predicate ClosesBlock(t: bytes) {
    |t| > 1 && t[0] == STAR && t[1] == SLASH
  }

  /** What follows a block comment. */
  function AfterBlock(t: bytes): (r: bytes)
    ensures |r| <= |t|
  {
    if t == [] then [] else if ClosesBlock(t) then t[2..] else AfterBlock(t[1..])
  }

  predicate HidesQuote(t: bytes) {
    |t| > 1 && t[0] == BACKSLASH && t[1] == QUOTE
  }

  /** How much of `t`, the text after an opening quote, belongs to the string: up to and with its closing quote. */
  function StringLength(t: bytes): (n: nat)
    ensures n <= |t|
  {
    if t == [] then 0
    else if t[0] == QUOTE then 1
    else if HidesQuote(t) then 2 + StringLength(t[2..])
    else 1 + StringLength(t[1..])
  }

  function Minified(t: bytes): (r: bytes)
    ensures |r| <= |t|
    decreases |t|
  {
    if t == [] then []
    else if White(t[0]) then Minified(t[1..])
    else if t[0] == SLASH then
      if |t| > 1 && t[1] == SLASH then Minified(AfterLine(t[2..]))
      else if |t| > 1 && t[1] == STAR then Minified(AfterBlock(t[2..]))
      else Minified(t[1..])
    else if t[0] == QUOTE then
      var n := 1 + StringLength(t[1..]);
      t[..n] + Minified(t[n..])
    else [t[0]] + Minified(t[1..])
  }

  // ----- the loops -----

  /** From the read position on, the block still holds the text it held at first. */
  ghost predicate Unread(json: array<byte>, t: bytes, p: nat)
    reads json
  {
    && p <= |t| < json.Length && json[|t|] == NUL && NulFree(t)
    && forall i :: p <= i < |t| ==> json[i] == t[i]
  }

  lemma AfterAt(t: bytes, q: nat)
    requires q <= |t|
    ensures AfterLine(t[q..]) == if q == |t| then t[q..] else if t[q] == NEWLINE then t[q + 1..]
      else AfterLine(t[q + 1..])
    ensures q == |t| ==> AfterBlock(t[q..]) == t[q..]
    ensures q < |t| ==>
      AfterBlock(t[q..]) ==
      (if q + 1 < |t| && t[q] == STAR && t[q + 1] == SLASH then t[q + 2..] else AfterBlock(t[q + 1..]))
  {
    var u := t[q..];
    assert u != [] ==> u[1..] == t[q + 1..];
    assert |u| > 1 ==> u[2..] == t[q + 2..];
  }

  function LengthStep(t: bytes, q: nat): nat
    requires q < |t|
  {
    if t[q] == QUOTE then 1
    else if q + 1 < |t| && t[q] == BACKSLASH && t[q + 1] == QUOTE then 2 + StringLength(t[q + 2..])
    else 1 + StringLength(t[q + 1..])
  }

  lemma StringLengthAt(t: bytes, q: nat)
    requires q <= |t|
    ensures q == |t| ==> StringLength(t[q..]) == 0
    ensures q < |t| ==> StringLength(t[q..]) == LengthStep(t, q)
  {
    var u := t[q..];
    assert u != [] ==> u[1..] == t[q + 1..];
    assert |u| > 1 ==> u[2..] == t[q + 2..];
  }

  /** `skip_oneline_comment`; the result is the new read position. */
  method SkipOneline(json: array<byte>, p: nat, ghost t: bytes) returns (q: nat)
    requires p + 2 <= |t| && Unread(json, t, p)
    ensures p <= q <= |t| && t[q..] == AfterLine(t[p + 2..])
  {
    hide AfterLine;
    q := p + 2;
    AfterAt(t, q);
    while json[q] != NUL
      invariant p + 2 <= q <= |t| && AfterLine(t[p + 2..]) == AfterLine(t[q..])
      decreases |t| - q
    {
      AfterAt(t, q);
      if json[q] == NEWLINE {
        return q + 1;
      }
      q := q + 1;
      AfterAt(t, q);
    }
  }

  /** `skip_multiline_comment` */
  method SkipMultiline(json: array<byte>, p: nat, ghost t: bytes) returns (q: nat)
    requires p + 2 <= |t| && Unread(json, t, p)
    ensures p <= q <= |t| && t[q..] == AfterBlock(t[p + 2..])
  {
    hide AfterBlock;
    q := p + 2;
    AfterAt(t, q);
    while json[q] != NUL
      invariant p + 2 <= q <= |t| && AfterBlock(t[p + 2..]) == AfterBlock(t[q..])
      decreases |t| - q
    {
      AfterAt(t, q);
      if json[q] == STAR && json[q + 1] == SLASH {
        return q + 2;
      }
      q := q + 1;
      AfterAt(t, q);
    }
  }

  /** From the write position `w` to `v` the block holds the text from `p` on. */
  ghost predicate Copied(json: array<byte>, w: nat, v: nat, t: bytes, p: nat)
    reads json
  {
    w <= v <= json.Length && p + (v - w) <= |t| && forall i {:trigger json[i]} :: w <= i < v ==>
      json[i] == t[i + (p - w)]
  }

  /** `output[0] = input[0]`, with both positions moved on. */
  method CopyByte(json: array<byte>, q: nat, v: nat, ghost w: nat, ghost p: nat, ghost t: bytes)
    requires Unread(json, t, q) && q < |t| && w <= v <= q && q - p == v - w && p <= q && Copied(json, w, v, t, p)
    modifies json
    ensures Unread(json, t, q + 1) && Copied(json, w, v + 1, t, p)
    ensures forall i :: 0 <= i < json.Length && i != v ==> json[i] == old(json[i])
  {
    json[v] := json[q];
  }

  /** `minify_string`: copies a string from the read position to the write position, which is never ahead of it. */
  method MinifyString(json: array<byte>, p: nat, w: nat, ghost t: bytes) returns (q: nat, v: nat)
    requires w <= p < |t| && Unread(json, t, p) && t[p] == QUOTE
    modifies json
    ensures q == p + 1 + StringLength(t[p + 1..]) && q - p == v - w
    ensures q <= |t| && Unread(json, t, q) && Copied(json, w, v, t, p)
    ensures forall i :: 0 <= i < w || |t| < i < json.Length ==> json[i] == old(json[i])
  {
    hide StringLength, Copied, Unread;
    ghost var end := p + 1 + StringLength(t[p + 1..]);
    UnreadByte(json, t, p);
    EmptyCopy(json, w, t, p);
    CopyByte(json, p, w, w, p, t);
    q, v := p + 1, w + 1;
    StringLengthAt(t, q);
    UnreadByte(json, t, q);
    while json[q] != NUL
      invariant p < q <= |t| && q - p == v - w && Unread(json, t, q) && Copied(json, w, v, t, p)
      invariant q < json.Length && (json[q] == NUL <==> q == |t|) && (q < |t| ==> json[q] == t[q])
      invariant end == q + StringLength(t[q..])
      invariant forall i :: 0 <= i < w || |t| < i < json.Length ==> json[i] == old(json[i])
      decreases |t| - q
    {
      StringLengthAt(t, q);
      var b := json[q];
      CopyByte(json, q, v, w, p, t);
      q, v := q + 1, v + 1;
      UnreadByte(json, t, q);
      if b == QUOTE {
        return;
      } else if b == BACKSLASH && json[q] == QUOTE {
        CopyByte(json, q, v, w, p, t);
        q, v := q + 1, v + 1;
        UnreadByte(json, t, q);
      }
      StringLengthAt(t, q);
    }
  }

  lemma UnreadByte(json: array<byte>, t: bytes, q: nat)
    requires Unread(json, t, q)
    ensures q <= |t| < json.Length && (json[q] == NUL <==> q == |t|) && (q < |t| ==> json[q] == t[q])
  {}

  lemma EmptyCopy(json: array<byte>, w: nat, t: bytes, p: nat)
    requires w <= json.Length && p <= |t|
    ensures Copied(json, w, w, t, p)
  {}

  /** One step of `Minified` at a position. */
  lemma MinifiedAt(t: bytes, p: nat)
    requires p < |t|
    ensures White(t[p]) ==> Minified(t[p..]) == Minified(t[p + 1..])
    ensures t[p] == SLASH && p + 1 < |t| && t[p + 1] == SLASH ==> Minified(t[p..]) == Minified(AfterLine(t[p + 2..]))
    ensures t[p] == SLASH && p + 1 < |t| && t[p + 1] == STAR ==> Minified(t[p..]) == Minified(AfterBlock(t[p + 2..]))
    ensures t[p] == SLASH && (p + 1 == |t| || (t[p + 1] != SLASH && t[p + 1] != STAR)) ==>
      Minified(t[p..]) == Minified(t[p + 1..])
    ensures t[p] == QUOTE ==>
      var q := p + 1 + StringLength(t[p + 1..]);
      q <= |t| && Minified(t[p..]) == t[p..q] + Minified(t[q..])
    ensures !White(t[p]) && t[p] != SLASH && t[p] != QUOTE ==> Minified(t[p..]) == [t[p]] + Minified(t[p + 1..])
  {
    var u := t[p..];
    assert u[1..] == t[p + 1..];
    if p + 1 < |t| {
      assert u[2..] == t[p + 2..];
    }
    if t[p] == QUOTE {
      var q := p + 1 + StringLength(t[p + 1..]);
      assert u[..q - p] == t[p..q] && u[q - p..] == t[q..];
    }
  }

  /** `cJSON_Minify` */
  method Minify(json: array?<byte>)
    requires Terminated(json)
    modifies json
    ensures json != null ==> Terminated(json) && StringOf(json) == Minified(old(StringOf(json)))
    ensures json != null ==> forall i :: |old(StringOf(json))| < i < json.Length ==> json[i] == old(json[i])
  {
    if json == null {
      return;
    }
    StringPrefix(json);
    ghost var t := StringOf(json);
    StringIndex(json, |t|);
    hide Minified, StringLength, AfterLine, AfterBlock, StringOf, Terminated;
    var p, into := 0, 0;
    assert t[0..] == t;
    while json[p] != NUL
      invariant into <= p <= |t| && Unread(json, t, p)
      invariant json[..into] + Minified(t[p..]) == Minified(t)
      invariant forall i :: |t| < i < json.Length ==> json[i] == old(json[i])
      decreases |t| - p
    {
      p, into := MinifyToken(json, p, into, t);
    }
    json[into] := NUL;
    assert t[p..] == [] && json[..into] == Minified(t) by {
      MinifiedEmpty();
    }
    MinifiedNulFree(t);
    TerminatedAt(json, into);
  }

  lemma MinifiedEmpty()
    ensures Minified([]) == []
  {}

  lemma {:induction false} AfterIsSuffix(t: bytes)
    requires NulFree(t)
    ensures NulFree(AfterLine(t)) && NulFree(AfterBlock(t))
    decreases |t|
  {
    if t != [] {
      AfterIsSuffix(t[1..]);
    }
  }

  lemma {:induction false} MinifiedNulFree(t: bytes)
    requires NulFree(t)
    ensures NulFree(Minified(t))
    decreases |t|
  {
    if t != [] {
      MinifiedAt(t, 0);
      assert t[0..] == t;
      if t[0] == QUOTE {
        MinifiedNulFree(t[1 + StringLength(t[1..])..]);
      } else if t[0] == SLASH && |t| > 1 && t[1] == SLASH {
        AfterIsSuffix(t[2..]);
        MinifiedNulFree(AfterLine(t[2..]));
      } else if t[0] == SLASH && |t| > 1 && t[1] == STAR {
        AfterIsSuffix(t[2..]);
        MinifiedNulFree(AfterBlock(t[2..]));
      } else {
        MinifiedNulFree(t[1..]);
      }
    }
  }

  /** One round of the loop: a white space, a comment, a string or a byte. */
  method MinifyToken(json: array<byte>, p: nat, into: nat, ghost t: bytes) returns (q: nat, w: nat)
    requires into <= p < |t| && Unread(json, t, p)
    modifies json
    ensures p < q && w <= q && Unread(json, t, q)
    ensures into <= w && json[..w] + Minified(t[q..]) == old(json[..into]) + Minified(t[p..])
    ensures forall i :: |t| < i < json.Length ==> json[i] == old(json[i])
  {
    hide Minified, StringLength, AfterLine, AfterBlock;
    MinifiedAt(t, p);
    var b := json[p];
    q, w := p, into;
    if b == SPACE || b == TAB || b == RETURN || b == NEWLINE {
      q := q + 1;
    } else if b == SLASH {
      if json[q + 1] == SLASH {
        q := SkipOneline(json, q, t);
      } else if json[q + 1] == STAR {
        q := SkipMultiline(json, q, t);
      } else {
        q := q + 1;
      }
    } else if b == QUOTE {
      q, w := MinifyString(json, q, w, t);
      Appended(json[..w], old(json[..into]), t[p..q]);
    } else {
      json[w] := json[q];
      q, w := q + 1, w + 1;
      assert json[..w] == old(json[..into]) + [t[p]];
    }
  }

  // ----- minifying twice -----

  /** A text in which every byte is copied. */
  predicate Minimal(t: bytes)
    decreases |t|
  {
    t == [] ||
    (!White(t[0]) && t[0] != SLASH && Minimal(t[if t[0] == QUOTE then 1 + StringLength(t[1..]) else 1..]))
  }

  lemma {:induction false} MinimalStays(t: bytes)
    requires Minimal(t)
    ensures Minified(t) == t
    decreases |t|
  {
    if t != [] {
      var n := if t[0] == QUOTE then 1 + StringLength(t[1..]) else 1;
      MinimalStays(t[n..]);
      assert t == t[..n] + t[n..];
    }
  }

  /** A string keeps its end whatever text follows it, if only it is closed. */
  lemma {:induction false} StringStays(t: bytes, n: nat, rest: bytes)
    requires n == StringLength(t)
    requires n < |t| || rest == []
    ensures StringLength(t[..n] + rest) == n
    decreases |t|
  {
    var u := t[..n] + rest;
    if t != [] && t[0] != QUOTE {
      var k := if HidesQuote(t) then 2 else 1;
      StringStays(t[k..], n - k, rest);
      assert u[k..] == t[k..][..n - k] + rest;
    }
  }

  lemma {:induction false} MinifiedIsMinimal(t: bytes)
    ensures Minimal(Minified(t))
    decreases |t|
  {
    if t != [] {
      if t[0] == QUOTE {
        var n := StringLength(t[1..]);
        var rest := Minified(t[n + 1..]);
        MinifiedIsMinimal(t[n + 1..]);
        assert n == |t| - 1 ==> rest == [];
        StringStays(t[1..], n, rest);
        var u := t[..n + 1] + rest;
        assert u[1..] == t[1..][..n] + rest && u[n + 1..] == rest;
      } else if t[0] == SLASH && |t| > 1 && t[1] == SLASH {
        MinifiedIsMinimal(AfterLine(t[2..]));
      } else if t[0] == SLASH && |t| > 1 && t[1] == STAR {
        MinifiedIsMinimal(AfterBlock(t[2..]));
      } else {
        MinifiedIsMinimal(t[1..]);
      }
    }
  }

  /** Minifying a second time changes nothing, on every text. */
  lemma MinifyIdempotent(t: bytes)
    ensures Minified(Minified(t)) == Minified(t)
  {
    MinifiedIsMinimal(t);
    MinimalStays(Minified(t));
  }
}
