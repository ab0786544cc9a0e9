/**
  The parser as it runs: a cursor over zero-terminated text, nodes linked as they are parsed,
  strings unescaped into a block of estimated size, and everything given back when it fails.
  */
module JsonParser {
  import opened Bytes
  import opened Unicode
  import opened JsonStrings
  import J = JsonValues
  import opened JsonTree
  import opened JsonDelete
  import opened JsonDuplicate

  class ParseBuffer {
    const content: bytes
    const codec: J.Codec
    var offset: nat
    var depth: nat

    constructor (text: bytes, codec: J.Codec)
      ensures Valid() && offset == 0 && depth == 0 && content == text + [NUL] && this.codec == codec
    {
      content, this.codec, offset, depth := text + [NUL], codec, 0, 0;
    }

    /** The text ends with its terminator, and the cursor is at most just past it. */
    predicate Valid()
      reads this
    {
      content != [] && content[|content| - 1] == NUL && offset <= |content|
    }

    method SkipWhitespace()
      requires Valid()
      modifies this`offset
      ensures Valid() && offset == J.Skip(content, old(offset)) && offset < |content|
    {
      while offset < |content| && content[offset] <= 32
        invariant offset <= |content| && J.SkipLow(content, offset) == J.SkipLow(content, old(offset))
        decreases |content| - offset
      {
        offset := offset + 1;
      }
      if offset == |content| {
        offset := offset - 1;
      }
    }
  }

  /** The first pass over a string: the closing quote, and how many escapes came before it. */
  method FindClosingQuote(c: bytes, start: nat) returns (found: bool, end: nat, skipped: nat)
    requires start < |c|
    ensures FindEnd(c, start + 1) == if found then Some(end) else None
    ensures found ==> start < end < |c| && skipped == EscapesBefore(c, start + 1, end)
    ensures found && end > start + 1 ==> !StartsEscape(c, start + 1, end - 1)
  {
    ghost var lo := start + 1;
    end, skipped, found := start + 1, 0, false;
    while end < |c| && c[end] != QUOTE
      invariant lo <= end <= |c| && FindEnd(c, end) == FindEnd(c, lo)
      invariant skipped == EscapesBefore(c, lo, end)
      invariant end > lo ==> !StartsEscape(c, lo, end - 1)
      decreases |c| - end
    {
      if c[end] == BACKSLASH {
        if end + 1 >= |c| {
          return;
        }
        assert StartsEscape(c, lo, end) && !StartsEscape(c, lo, end + 1);
        skipped := skipped + 1;
        end := end + 1;
      }
      end := end + 1;
    }
    if end >= |c| {
      return;
    }
    found := true;
  }

  /** Bytes already written, followed by what the second pass still yields. */
  ghost function Onto(written: bytes, rest: Option<bytes>): Option<bytes> {
    if rest.None? then None else Some(written + rest.value)
  }

  lemma OntoStep(c: bytes, p: nat, end: nat, before: bytes, after: bytes)
    requires p < end < |c| && NextPiece(c, p, end).Piece?
    requires after == before + NextPiece(c, p, end).output
    ensures Onto(before, Unescape(c, p, end)) == Onto(after, Unescape(c, p + NextPiece(c, p, end).used, end))
  {
    hide NextPiece;
    var piece := NextPiece(c, p, end);
    var rest := Unescape(c, p + piece.used, end);
    if rest.Some? {
      assert before + (piece.output + rest.value) == after + rest.value;
    }
  }

  /** Room for the piece at `p`, and for the terminator after it. */
  lemma RoomForPiece(c: bytes, lo: nat, p: nat, end: nat, pos: nat)
    requires lo <= p < end < |c| && !StartsEscape(c, lo, end - 1)
    requires NextPiece(c, p, end).Piece? && pos + EscapesBefore(c, lo, p) <= p - lo
    ensures var piece := NextPiece(c, p, end);
            var q := if p + piece.used <= end then p + piece.used else end;
            && pos + |piece.output| + EscapesBefore(c, lo, q) <= q - lo
            && pos + |piece.output| + 1 < end - lo + 2 - EscapesBefore(c, lo, end)
  {
    hide NextPiece;
    PieceFits(c, lo, p, end);
    var piece := NextPiece(c, p, end);
    RoomGrows(c, lo, if p + piece.used <= end then p + piece.used else end, end);
  }

  /** The second pass over a string: writes the unescaped bytes and a terminator into a block of the estimated size. */
  method UnescapeInto(c: bytes, lo: nat, end: nat, out: array<byte>) returns (ok: bool, pos: nat, p: nat)
    requires lo <= end < |c| && (end > lo ==> !StartsEscape(c, lo, end - 1))
    requires out.Length == end - lo + 2 - EscapesBefore(c, lo, end)
    modifies out
    ensures !ok ==> Unescape(c, lo, end) == None && lo <= p < end
    ensures ok ==> pos < out.Length && out[pos] == NUL && Unescape(c, lo, end) == Some(out[..pos])
  {
    hide NextPiece, Unescape, StartsEscape, EscapesBefore;
    ok, pos, p := false, 0, lo;
    OntoNothing(Unescape(c, lo, end));
    assert out[..0] == [];
    while p < end
      invariant lo <= p <= end + 1 && pos < out.Length
      invariant p <= end ==> pos + EscapesBefore(c, lo, p) <= p - lo
      invariant Onto(out[..pos], Unescape(c, p, end)) == Unescape(c, lo, end)
      decreases end + 1 - p
    {
      var used, newPos;
      ok, used, newPos := WritePiece(c, lo, p, end, out, pos);
      if !ok {
        return;
      }
      p := p + used;
      pos := newPos;
    }
    UnescapeEnds(c, p, end, out[..pos]);
    out[pos] := NUL;
    ok := true;
  }

  lemma UnescapeEnds(c: bytes, p: nat, end: nat, written: bytes)
    requires end <= p <= end + 1 && end < |c|
    ensures Onto(written, Unescape(c, p, end)) == Some(written)
  {
    assert written + [] == written;
  }

  lemma OntoNothing(rest: Option<bytes>)
    ensures Onto([], rest) == rest
  {
    if rest.Some? {
      assert [] + rest.value == rest.value;
    }
  }

  /** One round of the second pass. */
  method WritePiece(c: bytes, ghost lo: nat, p: nat, end: nat, out: array<byte>, pos: nat)
    returns (ok: bool, used: nat, newPos: nat)
    requires lo <= p < end < |c| && !StartsEscape(c, lo, end - 1) && pos + EscapesBefore(c, lo, p) <= p - lo
    requires out.Length == end - lo + 2 - EscapesBefore(c, lo, end) && pos < out.Length
    modifies out
    ensures !ok ==> Unescape(c, p, end) == None
    ensures ok ==>
      && used >= 1 && p + used <= end + 1 && newPos < out.Length
      && (p + used <= end ==> newPos + EscapesBefore(c, lo, p + used) <= p + used - lo)
      && Onto(old(out[..])[..pos], Unescape(c, p, end)) == Onto(out[..newPos], Unescape(c, p + used, end))
  {
    hide StartsEscape, EscapesBefore, Unescape;
    ok, used, newPos := true, 1, pos;
    ghost var before := out[..];
    ghost var piece := NextPiece(c, p, end);
    if piece.Piece? {
      RoomForPiece(c, lo, p, end, pos);
    }
    if c[p] != BACKSLASH {
      out[pos] := c[p];
      newPos := pos + 1;
    } else {
      used := 2;
      var letter := c[p + 1];
      if letter == 98 {
        out[pos] := 8;
        newPos := pos + 1;
      } else if letter == 102 {
        out[pos] := 12;
        newPos := pos + 1;
      } else if letter == 110 {
        out[pos] := NEWLINE;
        newPos := pos + 1;
      } else if letter == 114 {
        out[pos] := RETURN;
        newPos := pos + 1;
      } else if letter == 116 {
        out[pos] := TAB;
        newPos := pos + 1;
      } else if letter == QUOTE || letter == BACKSLASH || letter == SLASH {
        out[pos] := letter;
        newPos := pos + 1;
      } else if letter == LETTER_U {
        used, newPos := Utf16LiteralToUtf8(c, p, end, out, pos);
        ok := used != 0;
      } else {
        ok := false;
      }
    }
    if ok {
      assert out[..newPos] == before[..pos] + piece.output;
      OntoStep(c, p, end, before[..pos], out[..newPos]);
    } else {
      BadPieceFails(c, p, end);
    }
  }

  lemma BadPieceFails(c: bytes, p: nat, end: nat)
    requires p < end < |c| && NextPiece(c, p, end).BadPiece?
    ensures Unescape(c, p, end) == None
  {}

  /** Reads the string literal at the cursor into a block of its own. Leaves everything as it was when it fails. */
  method ParseString(item: Node, buf: ParseBuffer, heap: Heap) returns (ok: bool)
    requires buf.Valid() && buf.offset < |buf.content|
    modifies item`kind, item`text, buf`offset, heap
    ensures buf.Valid() && heap.calls >= old(heap.calls)
    ensures ok ==>
      && ParseStringAt(buf.content, old(buf.offset)) == StringOk(StringOf(item.text), buf.offset)
      && item.kind == StringKind && item.text != null && fresh(item.text) && Terminated(item.text)
      && heap.live == old(heap.live) + {item.text}
    ensures !ok ==>
      && (ParseStringAt(buf.content, old(buf.offset)).StringFail? || heap.RefusedSince(old(heap.calls)))
      && item.kind == old(item.kind) && item.text == old(item.text) && heap.live == old(heap.live)
  {
    hide FindEnd, Unescape, StartsEscape, EscapesBefore;
    var c, start := buf.content, buf.offset;
    ok := false;
    if c[start] != QUOTE {
      buf.offset := start + 1;
      return;
    }
    var found, end, skipped := FindClosingQuote(c, start);
    if !found {
      buf.offset := start + 1;
      return;
    }
    var allocationLength := end - start - skipped;
    var output := heap.NewBlock(allocationLength + 1);
    if output == null {
      buf.offset := start + 1;
      return;
    }
    var pos, p;
    ok, pos, p := UnescapeInto(c, start + 1, end, output);
    if !ok {
      heap.ReleaseBlock(output);
      buf.offset := p;
      return;
    }
    assert output[..] == output[..pos] + output[pos..];
    CStringStops(output[..], pos);
    item.kind := StringKind;
    item.text := output;
    buf.offset := end + 1;
  }

  /** A C string is cut at its first NUL, so what lies behind the terminator does not matter. */
  lemma CStringStops(b: bytes, pos: nat)
    requires pos < |b| && b[pos] == NUL
    ensures CString(b) == CString(b[..pos])
  {
    var s, t := CString(b), CString(b[..pos]);
    assert |s| <= pos;
    assert |t| < pos ==> b[|t|] == NUL;
    assert |s| < pos ==> b[..pos][|s|] == NUL;
    assert |s| == |t|;
  }

  /** The run of number characters ends where it has to. */
  lemma {:induction false} NumberRunEnds(c: bytes, p: nat, room: nat, n: nat)
    requires n <= room && p + n <= |c| && forall k :: p <= k < p + n ==> J.NumberByte(c[k])
    requires n == room || p + n == |c| || !J.NumberByte(c[p + n])
    ensures J.NumberRun(c, p, room) == c[p..p + n]
    decreases n
  {
    hide J.NumberByte;
    if n > 0 {
      NumberRunEnds(c, p + 1, room - 1, n - 1);
      assert c[p..p + n] == [c[p]] + c[p + 1..p + n];
    }
  }

  /** Copies the maximal run of number characters, at most `room` of them. */
  method CopyNumber(c: bytes, start: nat, room: nat) returns (run: bytes)
    requires start <= |c|
    ensures run == J.NumberRun(c, start, room)
  {
    hide J.NumberRun, J.NumberByte;
    run := [];
    var i := 0;
    while i < room && start + i < |c| && J.NumberByte(c[start + i])
      invariant 0 <= i <= room && start + i <= |c| && run == c[start..start + i]
      invariant forall k :: start <= k < start + i ==> J.NumberByte(c[k])
      decreases room - i
    {
      run := run + [c[start + i]];
      i := i + 1;
    }
    NumberRunEnds(c, start, room, i);
  }

  method ParseNumber(item: Node, buf: ParseBuffer) returns (ok: bool)
    requires buf.Valid() && buf.offset < |buf.content|
    modifies item`kind, item`number, buf`offset
    ensures buf.Valid()
    ensures var r := J.ParseNumber(buf.content, old(buf.offset), buf.codec);
            if ok then item.kind == NumberKind && r == J.Ok(J.Number(item.number), buf.offset) else r.Fail?
  {
    hide J.NumberRun;
    var run := CopyNumber(buf.content, buf.offset, J.MAX_NUMBER_RUN);
    var afterEnd := buf.codec.Used(run);
    if afterEnd == 0 {
      return false;
    }
    item.number := buf.codec.value(run);
    item.kind := NumberKind;
    buf.offset := buf.offset + afterEnd;
    ok := true;
  }

  method Matches(buf: ParseBuffer, word: bytes) returns (r: bool)
    requires buf.Valid()
    ensures r == (buf.offset + |word| <= |buf.content| && buf.content[buf.offset..buf.offset + |word|] == word)
  {
    r := buf.offset + |word| <= |buf.content| && buf.content[buf.offset..buf.offset + |word|] == word;
  }

  // ----- values, arrays and objects -----

  /** The shape of a node with nothing below it. */
  ghost function Leaf(n: Node): Shape
    reads n`key
  {
    Shape(n, null, n.key, false, false, [])
  }

  ghost function Prepend(vals: seq<J.Json>, r: J.Result<J.Elems>): J.Result<J.Elems>
    decreases |vals|
  {
    if vals == [] || r.Fail? then r
    else
      var n := |vals| - 1;
      Prepend(vals[..n], J.Ok(J.Elem(vals[n], r.value), r.end))
  }

  /** None of the three words stands at `p`. */
  predicate NoWord(c: bytes, p: nat) {
    && !(p + 4 <= |c| && c[p..p + 4] == J.NULL_TEXT)
    && !(p + 5 <= |c| && c[p..p + 5] == J.FALSE_TEXT)
    && !(p + 4 <= |c| && c[p..p + 4] == J.TRUE_TEXT)
  }

  /** `null`, `false` or `true`. */
  method ParseWord(item: Node, buf: ParseBuffer) returns (found: bool)
    requires buf.Valid() && buf.offset < |buf.content| && item.Blank() && Terminated(item.key)
    modifies item`kind, buf`offset
    ensures found ==>
      && buf.Valid() && Sound(Leaf(item))
      && J.ParseScalar(buf.content, old(buf.offset), buf.codec) == J.Ok(Val(Leaf(item)), buf.offset)
    ensures !found ==> NoWord(buf.content, buf.offset) && item.kind == old(item.kind) && buf.offset == old(buf.offset)
  {
    hide Sound, StringOf, Terminated;
    found := true;
    assert |J.NULL_TEXT| == 4 && |J.FALSE_TEXT| == 5 && |J.TRUE_TEXT| == 4;
    var isNull := Matches(buf, J.NULL_TEXT);
    if isNull {
      item.kind := NullKind;
      buf.offset := buf.offset + 4;
      LeafSound(Leaf(item));
      return;
    }
    var isFalse := Matches(buf, J.FALSE_TEXT);
    if isFalse {
      item.kind := FalseKind;
      buf.offset := buf.offset + 5;
      LeafSound(Leaf(item));
      return;
    }
    var isTrue := Matches(buf, J.TRUE_TEXT);
    if isTrue {
      item.kind := TrueKind;
      buf.offset := buf.offset + 4;
      LeafSound(Leaf(item));
      return;
    }
    found := false;
  }

  lemma ScalarWordless(c: bytes, p: nat, k: J.Codec)
    requires p < |c| && NoWord(c, p)
    ensures J.ParseScalar(c, p, k) ==
            if c[p] == QUOTE then
              var s := ParseStringAt(c, p);
              if s.StringFail? then J.Fail else J.Ok(J.String(s.value), s.end)
            else if c[p] == 45 || 48 <= c[p] <= 57 then J.ParseNumber(c, p, k)
            else J.Fail
  {
    hide J.ParseNumber, ParseStringAt;
  }

  /** The scalars, and the dispatch on the first character of a value. */
  method ParseScalar(item: Node, buf: ParseBuffer, heap: Heap) returns (ok: bool, ghost s: Shape)
    requires buf.Valid() && buf.offset < |buf.content| && item.Blank() && Terminated(item.key)
    modifies item`kind, item`number, item`text, buf`offset, heap
    ensures buf.Valid() && heap.calls >= old(heap.calls)
    ensures ok ==>
      && s.node == item && s.key == item.key && s.kids == [] && Sound(s)
      && fresh(Inside(s)) && heap.live == old(heap.live) + Inside(s)
      && J.ParseScalar(buf.content, old(buf.offset), buf.codec) == J.Ok(Val(s), buf.offset)
    ensures !ok ==>
      && (J.ParseScalar(buf.content, old(buf.offset), buf.codec).Fail? || heap.RefusedSince(old(heap.calls)))
      && item.Blank() && heap.live == old(heap.live)
  {
    hide J.ParseNumber, J.ParseScalar, ParseStringAt, NoWord, Sound, Inside, StringOf, Terminated;
    s := Leaf(item);
    LeafShape(s);
    ok := ParseWord(item, buf);
    if ok {
      return;
    }
    ScalarWordless(buf.content, buf.offset, buf.codec);
    ok := true;
    var c := buf.content[buf.offset];
    if c == QUOTE {
      ok := ParseString(item, buf, heap);
      if ok {
        s := s.(text := item.text);
        LeafShape(s);
        LeafSound(s);
      }
    } else if c == 45 || 48 <= c <= 57 {
      ok := ParseNumber(item, buf);
      LeafSound(s);
    } else {
      ok := false;
    }
  }

  // ----- children -----

  /** Everything that makes a forest sound except the links between its roots. */
  ghost predicate SoundApart(kids: seq<Shape>)
    reads NodesAll(kids), BlocksAll(kids)
  {
    LinkedAll(kids, false) && UniqueAll(kids) && RefFreeAll(kids) && forall i :: 0 <= i < |kids| ==> Strings(kids[i])
  }

  ghost function LastNode(kids: seq<Shape>): Node? {
    if kids == [] then null else kids[|kids| - 1].node
  }

  lemma SoundWithLast(kids: seq<Shape>, leaf: Shape, s: Shape)
    requires SoundApart(kids) && Chain(kids + [leaf]) && leaf.node == s.node && Sound(s) && OwnedAll(kids) !! Owned(s)
    ensures SoundAll(kids + [s]) && OwnedAll(kids + [s]) == OwnedAll(kids) + Owned(s)
  {
    hide Owned, OwnedAll, Unique, UniqueAll, Linked, Strings, RefFree;
    AppendShape(kids, s);
    var old_, all := kids + [leaf], kids + [s];
    forall i | 0 <= i < |all| ensures old_[i].node == all[i].node && Linked(all[i], false) && RefFree(all[i]) &&
      Strings(all[i]) {
      assert all[i] == if i < |kids| then kids[i] else s;
    }
    ChainOfSameNodes(old_, all);
  }

  lemma ChainOfSameNodes(kids: seq<Shape>, all: seq<Shape>)
    requires |kids| == |all| && Chain(kids) && forall i :: 0 <= i < |kids| ==> kids[i].node == all[i].node
    ensures Chain(all)
  {}

  /** A new blank node, hung behind the last child. */
  method NewChild(heap: Heap, last: Node?, ghost kids: seq<Shape>) returns (child: Node?)
    requires SoundAll(kids) && last == LastNode(kids)
    modifies heap, (if last == null then {} else {last})`next
    ensures heap.calls >= old(heap.calls)
    ensures child == null ==> SoundAll(kids) && heap.live == old(heap.live) && heap.RefusedSince(old(heap.calls))
    ensures child != null ==>
      && fresh(child) && child.Blank() && child.key == null && heap.live == old(heap.live) + {child}
      && SoundApart(kids) && Chain(kids + [Leaf(child)])
  {
    hide Owned, OwnedAll, Unique, UniqueAll, Linked, Strings, RefFree, Sound, NodesAll, BlocksAll, Nodes, Blocks;
    assert allocated(NodesAll(kids)) && allocated(BlocksAll(kids)) && allocated(OwnedAll(kids));
    child := heap.NewItem();
    if child == null {
      return;
    }
    ghost var leaf := Leaf(child);
    LeafSound(leaf);
    SoundNode(leaf);
    AppendShape(kids, leaf);
    if last != null {
      Append(last, child, kids, leaf);
    }
    LinkedFront(kids, leaf);
  }

  lemma LinkedFront(kids: seq<Shape>, d: Shape)
    requires LinkedAll(kids + [d], false)
    ensures LinkedAll(kids, false)
  {
    assert forall i :: 0 <= i < |kids| ==> (kids + [d])[i] == kids[i];
  }

  /** The children parsed so far stand for `vals`. */
  ghost predicate Show(kids: seq<Shape>, vals: seq<J.Json>)
    reads NodesAll(kids)`kind, NodesAll(kids)`number, BlocksAll(kids)
  {
    |vals| == |kids| && forall i :: 0 <= i < |kids| ==> Val(kids[i]) == vals[i]
  }

  lemma ShowOneMore(kids: seq<Shape>, vals: seq<J.Json>, s: Shape)
    requires Show(kids, vals)
    ensures Show(kids + [s], vals + [Val(s)])
  {
    hide Val;
    var all := kids + [s];
    forall i | 0 <= i < |all| ensures Val(all[i]) == (vals + [Val(s)])[i] {
      assert all[i] == if i < |kids| then kids[i] else s;
    }
  }

  lemma {:induction false} ShownElems(kids: seq<Shape>, vals: seq<J.Json>, i: nat, end: nat)
    requires Show(kids, vals) && i <= |kids|
    ensures Prepend(vals[..i], J.Ok(ElemsFrom(kids, i), end)) == J.Ok(ElemsFrom(kids, 0), end)
    decreases i
  {
    hide Val;
    if i > 0 {
      ShownElems(kids, vals, i - 1, end);
      assert vals[..i][..i - 1] == vals[..i - 1];
    }
  }

  lemma PrependOneMore(vals: seq<J.Json>, v: J.Json, r: J.Result<J.Elems>)
    ensures Prepend(vals + [v], r) == Prepend(vals, if r.Fail? then J.Fail else J.Ok(J.Elem(v, r.value), r.end))
  {
    assert (vals + [v])[..|vals|] == vals;
  }

  /** One element of an array: a new node, the comma or bracket before the value, the value, white space. */
  method ParseElement(ghost item: Node, buf: ParseBuffer, heap: Heap, last: Node?, ghost kids: seq<Shape>)
    returns (ok: bool, child: Node?, ghost s: Shape, ghost end: nat)
    requires buf.Valid() && buf.offset + 1 < |buf.content|
    requires SoundAll(kids) && last == LastNode(kids)
    modifies buf`offset, buf`depth, heap, (if last == null then {} else {last})`next
    ensures buf.Valid() && heap.calls >= old(heap.calls)
    ensures child == null ==> !ok && SoundAll(kids) && heap.live == old(heap.live) && heap.RefusedSince(old(heap.calls))
    ensures child != null ==>
      && child == s.node && child in Nodes(s) && SoundAll(kids + [s]) &&
         OwnedAll(kids + [s]) == OwnedAll(kids) + Owned(s)
      && fresh(Owned(s)) && fresh(Nodes(s)) && heap.live == old(heap.live) + Owned(s)
    ensures var q := J.Skip(buf.content, old(buf.offset) + 1);
            var r := J.ParseValue(buf.content, q, old(buf.depth), buf.codec);
            if ok then
              && child != null && r == J.Ok(Val(s), end) && buf.offset == J.Skip(buf.content, end)
              && buf.depth == old(buf.depth)
            else r.Fail? || heap.RefusedSince(old(heap.calls))
    decreases |buf.content| - buf.offset, 1
  {
    hide Owned, OwnedAll, Inside, Unique, UniqueAll, Linked, Strings, RefFree, Sound, SoundAll, SoundApart, Chain,
      NodesAll, BlocksAll, Blocks,
      J.ParseValue, J.Skip, Val;
    s, end, ok := Leaf(item), 0, false;
    assert allocated(NodesAll(kids)) && allocated(BlocksAll(kids)) && allocated(OwnedAll(kids));
    child := NewChild(heap, last, kids);
    if child == null {
      return;
    }
    ghost var leaf := Leaf(child);
    assert allocated(NodesAll(kids + [leaf]));
    ok, s, end := ReadNext(child, buf, heap);
    OwnedParts(s);
    SoundNode(s);
    SoundWithLast(kids, leaf, s);
  }

  /** Steps over one character and white space, parses a value into `child`, and skips white space. */
  method ReadNext(child: Node, buf: ParseBuffer, heap: Heap) returns (ok: bool, ghost s: Shape, ghost end: nat)
    requires buf.Valid() && buf.offset + 1 < |buf.content| && child.Blank() && Terminated(child.key)
    modifies child`kind, child`number, child`text, child`child, buf`offset, buf`depth, heap
    ensures buf.Valid() && heap.calls >= old(heap.calls)
    ensures s.node == child && s.key == child.key && !s.keyIsConst && Sound(s)
    ensures fresh(Inside(s)) && heap.live == old(heap.live) + Inside(s)
    ensures var q := J.Skip(buf.content, old(buf.offset) + 1);
            var r := J.ParseValue(buf.content, q, old(buf.depth), buf.codec);
            if ok then
              r == J.Ok(Val(s), end) && buf.offset == J.Skip(buf.content, end) && buf.depth == old(buf.depth)
            else r.Fail? || heap.RefusedSince(old(heap.calls))
    decreases |buf.content| - buf.offset, 0
  {
    hide Owned, OwnedAll, Inside, Unique, UniqueAll, Linked, Strings, RefFree, Sound, NodesAll, BlocksAll, Blocks,
      J.ParseValue, J.Skip, Val;
    s, end := Leaf(child), 0;
    buf.offset := buf.offset + 1;
    buf.SkipWhitespace();
    ghost var value;
    ok, value := ParseValue(child, buf, heap);
    if ok {
      s := value;
      end := buf.offset;
      SoundNode(s);
      assert allocated(Nodes(s)) && allocated(NodesAll(s.kids)) && allocated(Blocks(s));
      buf.SkipWhitespace();
    } else {
      LeafSound(s);
      LeafShape(s);
    }
  }

  lemma OwnedParts(s: Shape)
    ensures Owned(s) == {s.node} + OwnKey(s) + Inside(s)
  {}

  // One unfolding of the array loop of the specification.

  lemma ElemsUnfold(c: bytes, p: nat, depth: nat, k: J.Codec, v: J.Json, end: nat)
    requires p + 1 < |c| && J.ParseValue(c, J.Skip(c, p + 1), depth, k) == J.Ok(v, end)
    ensures var e := J.Skip(c, end);
            var rest := J.ParseElems(c, e, depth, k);
            J.ParseElems(c, p, depth, k) ==
              if c[e] == COMMA then if rest.Fail? then J.Fail else J.Ok(J.Elem(v, rest.value), rest.end)
              else if c[e] == CLOSE_BRACKET then J.Ok(J.Elem(v, J.NoElems), e + 1)
              else J.Fail
  {
    hide J.ParseValue, J.Skip;
  }

  lemma ElemsUnfoldFails(c: bytes, p: nat, depth: nat, k: J.Codec)
    requires p < |c| && p + 1 <= |c| && J.ParseValue(c, J.Skip(c, p + 1), depth, k).Fail?
    ensures J.ParseElems(c, p, depth, k).Fail?
  {
    hide J.ParseValue, J.Skip;
  }

  lemma ElemsSameStart(c: bytes, p: nat, p': nat, depth: nat, k: J.Codec)
    requires p + 1 < |c| && p' + 1 < |c| && J.Skip(c, p + 1) == J.Skip(c, p' + 1)
    ensures J.ParseElems(c, p, depth, k) == J.ParseElems(c, p', depth, k)
  {
    hide J.ParseValue, J.Skip;
  }

  /**
    What is left of `whole`, the result due for the loop, once the elements `vals` have been read:
    with `more`, the cursor is at the comma (or at the start); otherwise just behind the last element.
    */
  ghost predicate Left(whole: J.Result<J.Elems>, c: bytes, depth: nat, k: J.Codec, vals: seq<J.Json>, p: nat,
                       more: bool)
    requires p < |c|
  {
    if more then whole == Prepend(vals, J.ParseElems(c, p, depth, k))
    else whole == if c[p] == CLOSE_BRACKET then Prepend(vals, J.Ok(J.NoElems, p + 1)) else J.Fail
  }

  lemma LeftStep(whole: J.Result<J.Elems>, c: bytes, depth: nat, k: J.Codec, vals: seq<J.Json>, p: nat, v: J.Json,
                 end: nat)
    requires p + 1 < |c| && Left(whole, c, depth, k, vals, p, true)
    requires J.ParseValue(c, J.Skip(c, p + 1), depth, k) == J.Ok(v, end)
    ensures var e := J.Skip(c, end); Left(whole, c, depth, k, vals + [v], e, c[e] == COMMA)
  {
    hide J.ParseValue, J.ParseElems, J.Skip;
    ElemsUnfold(c, p, depth, k, v, end);
    var e := J.Skip(c, end);
    PrependOneMore(vals, v, J.ParseElems(c, e, depth, k));
    PrependOneMore(vals, v, J.Ok(J.NoElems, e + 1));
  }

  lemma LeftFails(whole: J.Result<J.Elems>, c: bytes, depth: nat, k: J.Codec, vals: seq<J.Json>, p: nat)
    requires p + 1 < |c| && Left(whole, c, depth, k, vals, p, true)
    ensures J.ParseValue(c, J.Skip(c, p + 1), depth, k).Fail? ==> whole.Fail?
  {
    hide J.ParseValue, J.ParseElems, J.Skip;
    if J.ParseValue(c, J.Skip(c, p + 1), depth, k).Fail? {
      ElemsUnfoldFails(c, p, depth, k);
    }
  }

  lemma LeftDone(whole: J.Result<J.Elems>, c: bytes, depth: nat, k: J.Codec, kids: seq<Shape>, vals: seq<J.Json>,
                 p: nat)
    requires p < |c| && Left(whole, c, depth, k, vals, p, false) && Show(kids, vals)
    ensures whole == if c[p] == CLOSE_BRACKET then J.Ok(ElemsFrom(kids, 0), p + 1) else J.Fail
  {
    hide J.ParseElems, Val;
    ShownElems(kids, vals, |kids|, p + 1);
    assert vals[..|kids|] == vals;
  }

  /** A growing list of children: sound, new, and reachable from its two ends. */
  twostate predicate Growing(new kids: seq<Shape>, new head: Node?, new last: Node?)
    reads NodesAll(kids), BlocksAll(kids)
  {
    && SoundAll(kids) && head == First(kids) && last == LastNode(kids) && (last != null ==> last in NodesAll(kids))
    && fresh(OwnedAll(kids)) && fresh(NodesAll(kids))
  }

  lemma Grow(kids: seq<Shape>, head: Node?, s: Shape)
    requires head == First(kids) && s.node in Nodes(s)
    ensures First(kids + [s]) == (if head == null then s.node else head) && LastNode(kids + [s]) == s.node
    ensures NodesAll(kids + [s]) == NodesAll(kids) + Nodes(s) && s.node in NodesAll(kids + [s])
  {
    AppendShape(kids, s);
  }

  /** The loop over the elements. What has been parsed stays linked below `head`, also on failure. */
  method ParseElements(ghost item: Node, buf: ParseBuffer, heap: Heap)
    returns (ok: bool, head: Node?, ghost kids: seq<Shape>)
    requires buf.Valid() && buf.offset + 1 < |buf.content|
    modifies buf`offset, buf`depth, heap
    ensures buf.Valid() && heap.calls >= old(heap.calls)
    ensures SoundAll(kids) && head == First(kids) && fresh(OwnedAll(kids)) && fresh(NodesAll(kids))
    ensures heap.live == old(heap.live) + OwnedAll(kids)
    ensures var r := J.ParseElems(buf.content, old(buf.offset), old(buf.depth), buf.codec);
            if ok then r == J.Ok(ElemsFrom(kids, 0), buf.offset + 1) && buf.depth == old(buf.depth)
            else r.Fail? || heap.RefusedSince(old(heap.calls))
    decreases |buf.content| - buf.offset, 2
  {
    hide Owned, OwnedAll, Inside, Unique, UniqueAll, Linked, Strings, RefFree, Sound, SoundAll, NodesAll, BlocksAll,
      Blocks,
      J.ParseValue, J.ParseElems, J.Skip, Val, Show, Left, First, LastNode;
    NoKids();
    kids, head, ok := [], null, false;
    ghost var vals: seq<J.Json>, depth := [], buf.depth;
    ghost var whole := J.ParseElems(buf.content, buf.offset, depth, buf.codec);
    LeftStart(buf.content, buf.offset, depth, buf.codec);
    var last, more := null, true;
    while more
      invariant buf.Valid() && buf.offset < |buf.content| && (more ==> buf.offset + 1 < |buf.content|)
      invariant buf.depth == depth && heap.calls >= old(heap.calls) && buf.offset >= old(buf.offset)
      invariant Growing(kids, head, last) && heap.live == old(heap.live) + OwnedAll(kids)
      invariant Show(kids, vals) && Left(whole, buf.content, depth, buf.codec, vals, buf.offset, more)
      decreases |buf.content| - buf.offset
    {
      ghost var p := buf.offset;
      assert allocated(NodesAll(kids)) && allocated(BlocksAll(kids));
      LeftFails(whole, buf.content, depth, buf.codec, vals, p);
      var child; ghost var s, end;
      ok, child, s, end := ParseElement(item, buf, heap, last, kids);
      if child == null {
        return;
      }
      Grow(kids, head, s);
      head := if head == null then child else head;
      if !ok {
        kids := kids + [s];
        return;
      }
      LeftStep(whole, buf.content, depth, buf.codec, vals, p, Val(s), end);
      ShowOneMore(kids, vals, s);
      kids, vals := kids + [s], vals + [Val(s)];
      last := child;
      more := buf.content[buf.offset] == COMMA;
    }
    LeftDone(whole, buf.content, depth, buf.codec, kids, vals, buf.offset);
    ok := buf.content[buf.offset] == CLOSE_BRACKET;
  }

  lemma LeftStart(c: bytes, p: nat, depth: nat, k: J.Codec)
    requires p < |c|
    ensures Left(J.ParseElems(c, p, depth, k), c, depth, k, [], p, true)
  {
    hide J.ParseElems;
  }

  lemma NoKids()
    ensures SoundAll([]) && OwnedAll([]) == {} && NodesAll([]) == {} && BlocksAll([]) == {}
    ensures Show([], []) && First([]) == null && LastNode([]) == null
    ensures ShowMembers([], []) && ElemsFrom([], 0) == J.NoElems && MembersFrom([], 0) == J.NoMembers
  {}

  lemma ArrayUnfold(c: bytes, p: nat, depth: nat, k: J.Codec)
    requires p + 1 < |c| && c[p] == OPEN_BRACKET
    ensures var q := J.Skip(c, p + 1);
            var r := J.ParseElems(c, q - 1, depth + 1, k);
            J.ParseValue(c, p, depth, k) ==
              if depth >= J.NESTING_LIMIT then J.Fail
              else if c[q] == CLOSE_BRACKET then J.Ok(J.Array(J.NoElems), q + 1)
              else if r.Fail? then J.Fail else J.Ok(J.Array(r.value), r.end)
  {
    hide J.ParseElems, J.ParseScalar;
    var q := J.Skip(c, p + 1);
    assert J.Skip(c, q) == q;
    ElemsSameStart(c, p, q - 1, depth + 1, k);
  }

  /** A node that has just been given children. */
  lemma ParentOf(item: Node, kids: seq<Shape>) returns (s: Shape)
    requires SoundAll(kids) && item !in OwnedAll(kids) && (item.key != null ==> item.key !in OwnedAll(kids))
    requires !item.isReference && !item.keyIsConst && item.text == null && Terminated(item.key) &&
      item.child == First(kids)
    ensures s == Shape(item, null, item.key, false, false, kids) && Sound(s) && Inside(s) == OwnedAll(kids)
    ensures item.kind == ArrayKind ==> Val(s) == J.Array(ElemsFrom(kids, 0))
    ensures item.kind == ObjectKind ==> Val(s) == J.Object(MembersFrom(kids, 0))
  {
    hide SoundAll, OwnedAll, UniqueAll, LinkedAll, Chain, First, ElemsFrom, MembersFrom;
    s := Shape(item, null, item.key, false, false, kids);
    SoundForest(kids);
  }

  lemma SoundForest(kids: seq<Shape>)
    requires SoundAll(kids)
    ensures Chain(kids) && LinkedAll(kids, false) && UniqueAll(kids) && RefFreeAll(kids) &&
      forall i :: 0 <= i < |kids| ==> Strings(kids[i])
  {}

  method ParseArray(item: Node, buf: ParseBuffer, heap: Heap) returns (ok: bool, ghost s: Shape)
    requires buf.Valid() && buf.offset < |buf.content| && buf.content[buf.offset] == OPEN_BRACKET
    requires item.Blank() && Terminated(item.key)
    modifies item`kind, item`number, item`text, item`child, buf`offset, buf`depth, heap
    ensures buf.Valid() && heap.calls >= old(heap.calls)
    ensures var r := J.ParseValue(buf.content, old(buf.offset), old(buf.depth), buf.codec);
            if ok then
              && s.node == item && s.key == item.key && Sound(s)
              && fresh(Inside(s)) && heap.live == old(heap.live) + Inside(s)
              && r == J.Ok(Val(s), buf.offset) && buf.depth == old(buf.depth)
            else
              && (r.Fail? || heap.RefusedSince(old(heap.calls)))
              && item.Blank() && heap.live == old(heap.live)
    decreases |buf.content| - buf.offset, 3
  {
    hide Owned, OwnedAll, Inside, Unique, UniqueAll, Linked, Strings, RefFree, Sound, SoundAll, NodesAll, BlocksAll,
      Blocks,
      J.ParseValue, J.ParseElems, J.Skip, Val, First, ElemsFrom;
    ok, s := false, Leaf(item);
    ArrayUnfold(buf.content, buf.offset, buf.depth, buf.codec);
    if buf.depth >= J.NESTING_LIMIT {
      return;
    }
    buf.depth := buf.depth + 1;
    buf.offset := buf.offset + 1;
    buf.SkipWhitespace();
    var head: Node? := null;
    ghost var kids: seq<Shape> := [];
    NoKids();
    if buf.content[buf.offset] != CLOSE_BRACKET {
      buf.offset := buf.offset - 1;
      ok, head, kids := ParseElements(item, buf, heap);
      if !ok {
        DeleteAll(head, heap, kids);
        return;
      }
    }
    ok := true;
    s := Finish(item, ArrayKind, buf, head, kids);
  }

  /** The common end of a successful array or object. */
  method Finish(item: Node, kind: Kind, buf: ParseBuffer, head: Node?, ghost kids: seq<Shape>) returns (ghost s: Shape)
    requires item.Blank() && Terminated(item.key) && head == First(kids) && SoundAll(kids)
    requires item !in NodesAll(kids) && item !in OwnedAll(kids) && (item.key != null ==> item.key !in OwnedAll(kids))
    requires buf.depth > 0
    modifies item`kind, item`child, buf`offset, buf`depth
    ensures buf.depth == old(buf.depth) - 1 && buf.offset == old(buf.offset) + 1
    ensures s.node == item && s.key == item.key && Sound(s) && Inside(s) == OwnedAll(kids)
    ensures kind == ArrayKind ==> Val(s) == old(J.Array(ElemsFrom(kids, 0)))
    ensures kind == ObjectKind ==> Val(s) == old(J.Object(MembersFrom(kids, 0)))
  {
    hide Owned, OwnedAll, Inside, Unique, UniqueAll, Linked, Strings, RefFree, Sound, SoundAll, NodesAll, BlocksAll,
      Blocks, Val, First,
      ElemsFrom, MembersFrom;
    assert allocated(NodesAll(kids)) && allocated(BlocksAll(kids));
    buf.depth := buf.depth - 1;
    item.kind := kind;
    item.child := head;
    buf.offset := buf.offset + 1;
    s := ParentOf(item, kids);
  }

  /** Cleaning up after a failed array or object. */
  method DeleteAll(head: Node?, heap: Heap, ghost kids: seq<Shape>)
    requires SoundAll(kids) && head == First(kids) && OwnedAll(kids) <= heap.live
    modifies heap`live, OwnedAll(kids)
    ensures heap.live == old(heap.live) - OwnedAll(kids)
  {
    if head != null {
      Delete(head, heap, kids);
    }
  }

  // ----- objects -----

  ghost function PrependMembers(vals: seq<(bytes, J.Json)>, r: J.Result<J.Members>): J.Result<J.Members>
    decreases |vals|
  {
    if vals == [] || r.Fail? then r
    else
      var n := |vals| - 1;
      PrependMembers(vals[..n], J.Ok(J.Member(vals[n].0, vals[n].1, r.value), r.end))
  }

  /** The members parsed so far have the keys and values `vals`. */
  ghost predicate ShowMembers(kids: seq<Shape>, vals: seq<(bytes, J.Json)>)
    reads NodesAll(kids)`kind, NodesAll(kids)`number, BlocksAll(kids)
  {
    |vals| == |kids| && forall i :: 0 <= i < |kids| ==> (StringOf(kids[i].key), Val(kids[i])) == vals[i]
  }

  lemma ShowOneMoreMember(kids: seq<Shape>, vals: seq<(bytes, J.Json)>, s: Shape)
    requires ShowMembers(kids, vals)
    ensures ShowMembers(kids + [s], vals + [(StringOf(s.key), Val(s))])
  {
    hide Val, StringOf;
    var all := kids + [s];
    var more := vals + [(StringOf(s.key), Val(s))];
    forall i | 0 <= i < |all| ensures (StringOf(all[i].key), Val(all[i])) == more[i] {
      assert all[i] == if i < |kids| then kids[i] else s;
    }
  }

  lemma {:induction false} ShownMembers(kids: seq<Shape>, vals: seq<(bytes, J.Json)>, i: nat, end: nat)
    requires ShowMembers(kids, vals) && i <= |kids|
    ensures PrependMembers(vals[..i], J.Ok(MembersFrom(kids, i), end)) == J.Ok(MembersFrom(kids, 0), end)
    decreases i
  {
    hide Val, StringOf;
    if i > 0 {
      ShownMembers(kids, vals, i - 1, end);
      assert vals[..i][..i - 1] == vals[..i - 1];
      assert vals[i - 1] == (StringOf(kids[i - 1].key), Val(kids[i - 1]));
    }
  }

  lemma PrependOneMoreMember(vals: seq<(bytes, J.Json)>, m: (bytes, J.Json), r: J.Result<J.Members>)
    ensures PrependMembers(vals + [m], r) ==
            PrependMembers(vals, if r.Fail? then J.Fail else J.Ok(J.Member(m.0, m.1, r.value), r.end))
  {
    assert (vals + [m])[..|vals|] == vals;
  }

  /** Where the value of the member after `p` starts: just past its colon. */
  ghost predicate KeyAt(c: bytes, p: nat, key: bytes, colon: nat)
    requires p + 1 < |c|
  {
    var r := ParseStringAt(c, J.Skip(c, p + 1));
    r.StringOk? && r.value == key && colon == J.Skip(c, r.end) && c[colon] == COLON
  }

  lemma MembersUnfold(c: bytes, p: nat, depth: nat, k: J.Codec, key: bytes, colon: nat, v: J.Json, end: nat)
    requires p + 1 < |c| && c[|c| - 1] == NUL && KeyAt(c, p, key, colon)
    requires colon + 1 < |c| && J.ParseValue(c, J.Skip(c, colon + 1), depth, k) == J.Ok(v, end)
    ensures var e := J.Skip(c, end);
            var rest := J.ParseMembers(c, e, depth, k);
            J.ParseMembers(c, p, depth, k) ==
              if c[e] == COMMA then if rest.Fail? then J.Fail else J.Ok(J.Member(key, v, rest.value), rest.end)
              else if c[e] == CLOSE_BRACE then J.Ok(J.Member(key, v, J.NoMembers), e + 1)
              else J.Fail
  {
    hide J.ParseValue, J.Skip, ParseStringAt;
  }

  /** A member fails when its key or colon is missing, or its value does not parse. */
  lemma MembersUnfoldFails(c: bytes, p: nat, depth: nat, k: J.Codec)
    requires p + 1 < |c|
    requires forall key: bytes, colon: nat :: KeyAt(c, p, key, colon) ==>
               colon + 1 < |c| && J.ParseValue(c, J.Skip(c, colon + 1), depth, k).Fail?
    ensures J.ParseMembers(c, p, depth, k).Fail?
  {
    hide J.ParseValue, J.Skip, ParseStringAt;
    var r := ParseStringAt(c, J.Skip(c, p + 1));
    if r.StringOk? && c[J.Skip(c, r.end)] == COLON {
      assert KeyAt(c, p, r.value, J.Skip(c, r.end));
    }
  }

  /** Without a key and colon, or without a value behind them, the rest of the object is rejected. */
  lemma MemberMissing(c: bytes, p: nat, depth: nat, k: J.Codec)
    requires p + 1 < |c|
    ensures (forall key: bytes, colon: nat :: !KeyAt(c, p, key, colon)) ==> J.ParseMembers(c, p, depth, k).Fail?
    ensures forall key: bytes, colon: nat ::
              KeyAt(c, p, key, colon) && colon + 1 < |c| && J.ParseValue(c, J.Skip(c, colon + 1), depth, k).Fail? ==>
              J.ParseMembers(c, p, depth, k).Fail?
  {
    hide J.ParseValue, J.ParseMembers, J.Skip, ParseStringAt;
    if forall key: bytes, colon: nat :: !KeyAt(c, p, key, colon) {
      MembersUnfoldFails(c, p, depth, k);
    }
    forall key: bytes, colon: nat | KeyAt(c, p, key, colon) && colon + 1 < |c| &&
      J.ParseValue(c, J.Skip(c, colon + 1), depth, k).Fail?
      ensures J.ParseMembers(c, p, depth, k).Fail?
    {
      MembersUnfoldFails(c, p, depth, k);
    }
  }

  lemma MembersSameStart(c: bytes, p: nat, p': nat, depth: nat, k: J.Codec)
    requires p + 1 < |c| && p' + 1 < |c| && J.Skip(c, p + 1) == J.Skip(c, p' + 1)
    ensures J.ParseMembers(c, p, depth, k) == J.ParseMembers(c, p', depth, k)
  {
    hide J.ParseValue, J.Skip, ParseStringAt;
  }

  ghost predicate LeftMembers(whole: J.Result<J.Members>, c: bytes, depth: nat, k: J.Codec, vals: seq<(bytes, J.Json)>,
                              p: nat, more: bool)
    requires p < |c|
  {
    if more then whole == PrependMembers(vals, J.ParseMembers(c, p, depth, k))
    else whole == if c[p] == CLOSE_BRACE then PrependMembers(vals, J.Ok(J.NoMembers, p + 1)) else J.Fail
  }

  lemma LeftMembersStart(c: bytes, p: nat, depth: nat, k: J.Codec)
    requires p < |c|
    ensures LeftMembers(J.ParseMembers(c, p, depth, k), c, depth, k, [], p, true)
  {
    hide J.ParseMembers;
  }

  lemma LeftMembersStep(whole: J.Result<J.Members>, c: bytes, depth: nat, k: J.Codec, vals: seq<(bytes, J.Json)>,
                        p: nat,
      key: bytes, colon: nat, v: J.Json, end: nat)
    requires p + 1 < |c| && c[|c| - 1] == NUL && LeftMembers(whole, c, depth, k, vals, p, true) &&
      KeyAt(c, p, key, colon)
    requires colon + 1 < |c| && J.ParseValue(c, J.Skip(c, colon + 1), depth, k) == J.Ok(v, end)
    ensures var e := J.Skip(c, end); LeftMembers(whole, c, depth, k, vals + [(key, v)], e, c[e] == COMMA)
  {
    hide J.ParseValue, J.ParseMembers, J.Skip, KeyAt;
    MembersUnfold(c, p, depth, k, key, colon, v, end);
    var e := J.Skip(c, end);
    PrependOneMoreMember(vals, (key, v), J.ParseMembers(c, e, depth, k));
    PrependOneMoreMember(vals, (key, v), J.Ok(J.NoMembers, e + 1));
  }

  lemma LeftMembersDone(whole: J.Result<J.Members>, c: bytes, depth: nat, k: J.Codec, kids: seq<Shape>,
                        vals: seq<(bytes, J.Json)>, p: nat)
    requires p < |c| && LeftMembers(whole, c, depth, k, vals, p, false) && ShowMembers(kids, vals)
    ensures whole == if c[p] == CLOSE_BRACE then J.Ok(MembersFrom(kids, 0), p + 1) else J.Fail
  {
    hide J.ParseMembers, Val;
    ShownMembers(kids, vals, |kids|, p + 1);
    assert vals[..|kids|] == vals;
  }

  /** Parses a key into `child` as a string and moves it to the key field; stops at the colon. */
  method ReadKey(child: Node, buf: ParseBuffer, heap: Heap) returns (ok: bool)
    requires buf.Valid() && buf.offset + 1 < |buf.content| && child.Blank() && child.key == null
    modifies child`kind, child`text, child`key, buf`offset, heap
    ensures buf.Valid() && heap.calls >= old(heap.calls)
    ensures child.Blank() && Terminated(child.key) && fresh(BlockSet(child.key)) &&
      heap.live == old(heap.live) + BlockSet(child.key)
    ensures if ok then
              KeyAt(buf.content, old(buf.offset), StringOf(child.key), buf.offset) && old(buf.offset) < buf.offset &&
                buf.offset + 1 < |buf.content|
            else
              heap.RefusedSince(old(heap.calls)) || forall key: bytes, colon: nat ::
                !KeyAt(buf.content, old(buf.offset), key, colon)
  {
    hide ParseStringAt, J.Skip, KeyAt, StringOf;
    ghost var p := buf.offset;
    KeyCases(buf.content, p);
    buf.offset := buf.offset + 1;
    buf.SkipWhitespace();
    ok := ParseString(child, buf, heap);
    if !ok {
      return;
    }
    ghost var key := StringOf(child.text);
    buf.SkipWhitespace();
    child.key := child.text;
    child.text := null;
    ok := buf.content[buf.offset] == COLON;
  }

  lemma KeyCases(c: bytes, p: nat)
    requires p + 1 < |c|
    ensures var r := ParseStringAt(c, J.Skip(c, p + 1));
            if r.StringOk? && c[J.Skip(c, r.end)] == COLON then KeyAt(c, p, r.value, J.Skip(c, r.end))
            else forall key: bytes, colon: nat :: !KeyAt(c, p, key, colon)
  {
    hide ParseStringAt, J.Skip;
  }

  /** One member of an object: a new node, the comma or brace before the key, key, colon, value and white space. */
  method ParseMember(ghost item: Node, buf: ParseBuffer, heap: Heap, last: Node?, ghost kids: seq<Shape>)
    returns (ok: bool, child: Node?, ghost s: Shape, ghost colon: nat, ghost end: nat)
    requires buf.Valid() && buf.offset + 1 < |buf.content|
    requires SoundAll(kids) && last == LastNode(kids)
    modifies buf`offset, buf`depth, heap, (if last == null then {} else {last})`next
    ensures buf.Valid() && heap.calls >= old(heap.calls)
    ensures child == null ==> !ok && SoundAll(kids) && heap.live == old(heap.live) && heap.RefusedSince(old(heap.calls))
    ensures child != null ==>
      && child == s.node && child in Nodes(s) && SoundAll(kids + [s]) &&
         OwnedAll(kids + [s]) == OwnedAll(kids) + Owned(s)
      && fresh(Owned(s)) && fresh(Nodes(s)) && heap.live == old(heap.live) + Owned(s)
    ensures var c := buf.content;
            if ok then
              && child != null && KeyAt(c, old(buf.offset), StringOf(s.key), colon) && old(buf.offset) < colon &&
                 colon + 1 < |c|
              && J.ParseValue(c, J.Skip(c, colon + 1), old(buf.depth), buf.codec) == J.Ok(Val(s), end)
              && buf.offset == J.Skip(c, end) && buf.depth == old(buf.depth)
            else
              || heap.RefusedSince(old(heap.calls))
              || J.ParseMembers(c, old(buf.offset), old(buf.depth), buf.codec).Fail?
    decreases |buf.content| - buf.offset, 2
  {
    hide Owned, OwnedAll, Inside, Unique, UniqueAll, Linked, Strings, RefFree, Sound, SoundAll, SoundApart, Chain,
      NodesAll, BlocksAll, Blocks,
      J.ParseValue, J.ParseMembers, J.Skip, Val, KeyAt;
    ok, s, colon, end := false, Leaf(item), 0, 0;
    assert allocated(NodesAll(kids)) && allocated(BlocksAll(kids)) && allocated(OwnedAll(kids));
    child := NewChild(heap, last, kids);
    if child == null {
      return;
    }
    ghost var leaf := Leaf(child);
    assert allocated(NodesAll(kids + [leaf]));
    ok, s, colon, end := ReadMember(child, buf, heap);
    OwnedParts(s);
    SoundNode(s);
    SoundWithLast(kids, leaf, s);
  }

  /** Key, colon and value of one member, parsed into `child`. */
  method ReadMember(child: Node, buf: ParseBuffer, heap: Heap)
    returns (ok: bool, ghost s: Shape, ghost colon: nat, ghost end: nat)
    requires buf.Valid() && buf.offset + 1 < |buf.content| && child.Blank() && child.key == null
    modifies child`kind, child`number, child`text, child`key, child`child, buf`offset, buf`depth, heap
    ensures buf.Valid() && heap.calls >= old(heap.calls)
    ensures s.node == child && s.key == child.key && !s.keyIsConst && Sound(s)
    ensures fresh(Inside(s)) && fresh(BlockSet(s.key)) && heap.live == old(heap.live) + BlockSet(s.key) + Inside(s)
    ensures var c := buf.content;
            if ok then
              && KeyAt(c, old(buf.offset), StringOf(s.key), colon) && old(buf.offset) < colon && colon + 1 < |c|
              && J.ParseValue(c, J.Skip(c, colon + 1), old(buf.depth), buf.codec) == J.Ok(Val(s), end)
              && buf.offset == J.Skip(c, end) && buf.depth == old(buf.depth)
            else
              || heap.RefusedSince(old(heap.calls))
              || J.ParseMembers(c, old(buf.offset), old(buf.depth), buf.codec).Fail?
    decreases |buf.content| - buf.offset, 1
  {
    hide Owned, OwnedAll, Inside, Unique, UniqueAll, Linked, Strings, RefFree, Sound, NodesAll, BlocksAll, Blocks,
      J.ParseValue, J.ParseMembers, J.Skip, Val, KeyAt;
    MemberMissing(buf.content, buf.offset, buf.depth, buf.codec);
    ok := ReadKey(child, buf, heap);
    s, colon, end := Leaf(child), buf.offset, 0;
    if ok {
      ok, s, end := ReadNext(child, buf, heap);
    } else {
      LeafSound(s);
      LeafShape(s);
    }
  }

  /** The loop over the members. What has been parsed stays linked below `head`, also on failure. */
  method ParseMembers(ghost item: Node, buf: ParseBuffer, heap: Heap)
    returns (ok: bool, head: Node?, ghost kids: seq<Shape>)
    requires buf.Valid() && buf.offset + 1 < |buf.content|
    modifies buf`offset, buf`depth, heap
    ensures buf.Valid() && heap.calls >= old(heap.calls)
    ensures SoundAll(kids) && head == First(kids) && fresh(OwnedAll(kids)) && fresh(NodesAll(kids))
    ensures heap.live == old(heap.live) + OwnedAll(kids)
    ensures var r := J.ParseMembers(buf.content, old(buf.offset), old(buf.depth), buf.codec);
            if ok then r == J.Ok(MembersFrom(kids, 0), buf.offset + 1) && buf.depth == old(buf.depth)
            else r.Fail? || heap.RefusedSince(old(heap.calls))
    decreases |buf.content| - buf.offset, 3
  {
    hide Owned, OwnedAll, Inside, Unique, UniqueAll, Linked, Strings, RefFree, Sound, SoundAll, NodesAll, BlocksAll,
      Blocks,
      J.ParseValue, J.ParseMembers, J.Skip, Val, ShowMembers, LeftMembers, First, LastNode, KeyAt, StringOf;
    NoKids();
    kids, head, ok := [], null, false;
    ghost var vals: seq<(bytes, J.Json)>, depth := [], buf.depth;
    ghost var whole := J.ParseMembers(buf.content, buf.offset, depth, buf.codec);
    LeftMembersStart(buf.content, buf.offset, depth, buf.codec);
    var last, more := null, true;
    while more
      invariant buf.Valid() && buf.offset < |buf.content| && (more ==> buf.offset + 1 < |buf.content|)
      invariant buf.depth == depth && heap.calls >= old(heap.calls) && buf.offset >= old(buf.offset)
      invariant Growing(kids, head, last) && heap.live == old(heap.live) + OwnedAll(kids)
      invariant ShowMembers(kids, vals) && LeftMembers(whole, buf.content, depth, buf.codec, vals, buf.offset, more)
      decreases |buf.content| - buf.offset
    {
      ghost var p := buf.offset;
      assert allocated(NodesAll(kids)) && allocated(BlocksAll(kids));
      LeftMembersFail(whole, buf.content, depth, buf.codec, vals, p);
      var child; ghost var s, colon, end;
      ok, child, s, colon, end := ParseMember(item, buf, heap, last, kids);
      if child == null {
        return;
      }
      Grow(kids, head, s);
      head := if head == null then child else head;
      if !ok {
        kids := kids + [s];
        return;
      }
      LeftMembersStep(whole, buf.content, depth, buf.codec, vals, p, StringOf(s.key), colon, Val(s), end);
      ShowOneMoreMember(kids, vals, s);
      kids, vals := kids + [s], vals + [(StringOf(s.key), Val(s))];
      last := child;
      more := buf.content[buf.offset] == COMMA;
    }
    LeftMembersDone(whole, buf.content, depth, buf.codec, kids, vals, buf.offset);
    ok := buf.content[buf.offset] == CLOSE_BRACE;
  }

  lemma LeftMembersFail(whole: J.Result<J.Members>, c: bytes, depth: nat, k: J.Codec, vals: seq<(bytes, J.Json)>,
                        p: nat)
    requires p + 1 < |c| && LeftMembers(whole, c, depth, k, vals, p, true)
    ensures J.ParseMembers(c, p, depth, k).Fail? ==> whole.Fail?
  {
    hide J.ParseMembers;
  }

  lemma ObjectUnfold(c: bytes, p: nat, depth: nat, k: J.Codec)
    requires p + 1 < |c| && c[p] == OPEN_BRACE
    ensures var q := J.Skip(c, p + 1);
            var r := J.ParseMembers(c, q - 1, depth + 1, k);
            J.ParseValue(c, p, depth, k) ==
              if depth >= J.NESTING_LIMIT then J.Fail
              else if c[q] == CLOSE_BRACE then J.Ok(J.Object(J.NoMembers), q + 1)
              else if r.Fail? then J.Fail else J.Ok(J.Object(r.value), r.end)
  {
    hide J.ParseMembers, J.ParseScalar;
    var q := J.Skip(c, p + 1);
    assert J.Skip(c, q) == q;
    MembersSameStart(c, p, q - 1, depth + 1, k);
  }

  method ParseObject(item: Node, buf: ParseBuffer, heap: Heap) returns (ok: bool, ghost s: Shape)
    requires buf.Valid() && buf.offset < |buf.content| && buf.content[buf.offset] == OPEN_BRACE
    requires item.Blank() && Terminated(item.key)
    modifies item`kind, item`number, item`text, item`child, buf`offset, buf`depth, heap
    ensures buf.Valid() && heap.calls >= old(heap.calls)
    ensures var r := J.ParseValue(buf.content, old(buf.offset), old(buf.depth), buf.codec);
            if ok then
              && s.node == item && s.key == item.key && Sound(s)
              && fresh(Inside(s)) && heap.live == old(heap.live) + Inside(s)
              && r == J.Ok(Val(s), buf.offset) && buf.depth == old(buf.depth)
            else
              && (r.Fail? || heap.RefusedSince(old(heap.calls)))
              && item.Blank() && heap.live == old(heap.live)
    decreases |buf.content| - buf.offset, 4
  {
    hide Owned, OwnedAll, Inside, Unique, UniqueAll, Linked, Strings, RefFree, Sound, SoundAll, NodesAll, BlocksAll,
      Blocks,
      J.ParseValue, J.ParseMembers, J.Skip, Val, First, MembersFrom;
    ok, s := false, Leaf(item);
    ObjectUnfold(buf.content, buf.offset, buf.depth, buf.codec);
    if buf.depth >= J.NESTING_LIMIT {
      return;
    }
    buf.depth := buf.depth + 1;
    buf.offset := buf.offset + 1;
    buf.SkipWhitespace();
    var head: Node? := null;
    ghost var kids: seq<Shape> := [];
    NoKids();
    if buf.content[buf.offset] != CLOSE_BRACE {
      buf.offset := buf.offset - 1;
      ok, head, kids := ParseMembers(item, buf, heap);
      if !ok {
        DeleteAll(head, heap, kids);
        return;
      }
    }
    ok := true;
    s := Finish(item, ObjectKind, buf, head, kids);
  }

  /**
    Parses the value at the cursor into a blank node. On success the tree below the node stands for what the
    text says, the live blocks have grown by exactly that tree, and the depth counter is back where it was.
    On failure the text is malformed or memory was refused, and no block is left behind.
    */
  method ParseValue(item: Node, buf: ParseBuffer, heap: Heap) returns (ok: bool, ghost s: Shape)
    requires buf.Valid() && buf.offset < |buf.content| && item.Blank() && Terminated(item.key)
    modifies item`kind, item`number, item`text, item`child, buf`offset, buf`depth, heap
    ensures buf.Valid() && heap.calls >= old(heap.calls)
    ensures var r := J.ParseValue(buf.content, old(buf.offset), old(buf.depth), buf.codec);
            if ok then
              && s.node == item && s.key == item.key && Sound(s)
              && fresh(Inside(s)) && heap.live == old(heap.live) + Inside(s)
              && r == J.Ok(Val(s), buf.offset) && buf.depth == old(buf.depth)
            else
              && (r.Fail? || heap.RefusedSince(old(heap.calls)))
              && item.Blank() && heap.live == old(heap.live)
    decreases |buf.content| - buf.offset, 5
  {
    hide J.ParseElems, J.ParseMembers, J.ParseScalar, J.Skip;
    var c := buf.content[buf.offset];
    if c == OPEN_BRACKET {
      ok, s := ParseArray(item, buf, heap);
    } else if c == OPEN_BRACE {
      ok, s := ParseObject(item, buf, heap);
    } else {
      ok, s := ParseScalar(item, buf, heap);
    }
  }

  /** Reads the whole text into a new node; on failure the node has nothing below it. */
  method ParseRoot(item: Node, buf: ParseBuffer, requireNullTerminated: bool, heap: Heap, ghost text: bytes)
    returns (ok: bool, ghost s: Shape)
    requires buf.Valid() && buf.offset == 0 && buf.depth == 0 && buf.content == text + [NUL]
    requires item.Blank() && item.key == null && item in heap.live
    modifies item`kind, item`number, item`text, item`child, buf`offset, buf`depth, heap
    ensures heap.calls >= old(heap.calls)
    ensures s.node == item && s.key == null && Sound(s) && fresh(Inside(s)) && heap.live == old(heap.live) + Inside(s)
    ensures var r := J.ParseText(text, requireNullTerminated, buf.codec);
            if ok then r == J.Ok(Val(s), buf.offset) else r.Fail? || heap.RefusedSince(old(heap.calls))
  {
    hide Owned, Inside, Unique, UniqueAll, Linked, Strings, RefFree, Sound, NodesAll, BlocksAll, Blocks, J.ParseValue,
      J.Skip, Val;
    if 4 < |buf.content| && buf.content[..3] == [0xEF, 0xBB, 0xBF] {
      buf.offset := 3;
    }
    buf.SkipWhitespace();
    ok, s := ParseValue(item, buf, heap);
    if !ok {
      s := Leaf(item);
      LeafSound(s);
      LeafShape(s);
    }
    assert allocated(Nodes(s)) && allocated(NodesAll(s.kids)) && allocated(Blocks(s));
    if ok && requireNullTerminated {
      buf.SkipWhitespace();
      ok := buf.content[buf.offset] == NUL;
    }
  }

  /**
    `cJSON_ParseWithOpts`: byte-order mark, white space, one value and, if asked for, nothing but white space after it.
    Returns the new tree and the end of what was read; a failed parse leaves the set of live blocks as it was.
    */
  method ParseWithOpts(text: bytes, requireNullTerminated: bool, codec: J.Codec, heap: Heap)
    returns (item: Node?, end: nat, ghost tree: Option<Shape>)
    modifies heap
    ensures var r := J.ParseText(text, requireNullTerminated, codec);
            if item != null then
              && tree.Some? && item == tree.value.node && item.next == null && item.prev == null && Sound(tree.value)
              && fresh(Owned(tree.value)) && heap.live == old(heap.live) + Owned(tree.value)
              && r == J.Ok(Val(tree.value), end)
            else
              && (r.Fail? || heap.RefusedSince(old(heap.calls)))
              && heap.live == old(heap.live)
  {
    hide Owned, Inside, Unique, UniqueAll, Linked, Strings, RefFree, Sound, NodesAll, BlocksAll, Blocks, J.ParseText,
      Val;
    tree, end := None, 0;
    var buf := new ParseBuffer(text, codec);
    item := heap.NewItem();
    if item == null {
      return;
    }
    var ok; ghost var s;
    ok, s := ParseRoot(item, buf, requireNullTerminated, heap, text);
    OwnedParts(s);
    SoundNode(s);
    end := buf.offset;
    if ok {
      tree := Some(s);
    } else {
      Discard(item, heap, s);
      item := null;
    }
  }
}
