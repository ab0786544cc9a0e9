/** cJSON_Duplicate: a fresh, separate, equal tree, or no change at all to the set of live blocks. */
module JsonDuplicate {
  import opened Bytes
  import opened JsonTree
  import opened JsonDelete

  /** The same node content: kind, number, flags, and strings compared as C strings. */
  ghost predicate SameNode(s: Shape, c: Shape)
    reads s.node`kind, s.node`number, s.node`keyIsConst, c.node`kind, c.node`number, c.node`keyIsConst, Blocks(s),
      Blocks(c)
  {
    && s.node.kind == c.node.kind && s.node.number == c.node.number && s.node.keyIsConst == c.node.keyIsConst
    && (s.text == null <==> c.text == null) && StringOf(s.text) == StringOf(c.text)
    && (s.key == null <==> c.key == null) && StringOf(s.key) == StringOf(c.key)
  }

  /** The same tree, node by node and in the same order. */
  ghost predicate SameTree(s: Shape, c: Shape)
    reads Nodes(s)`kind, Nodes(s)`number, Nodes(s)`keyIsConst, Nodes(c)`kind, Nodes(c)`number, Nodes(c)`keyIsConst
    reads Blocks(s), Blocks(c)
    decreases s
  {
    && SameNode(s, c)
    && |s.kids| == |c.kids|
    && forall i :: 0 <= i < |s.kids| ==> SameTree(s.kids[i], c.kids[i])
  }

  /** `cJSON_strdup`: a fresh copy of a C string, NULL for NULL; `ok` is false when memory is refused. */
  method Strdup(b: array?<byte>, heap: Heap) returns (ok: bool, copy: array?<byte>)
    requires Terminated(b)
    modifies heap
    ensures heap.calls >= old(heap.calls)
    ensures !ok ==> heap.live == old(heap.live) && heap.RefusedSince(old(heap.calls))
    ensures ok ==> heap.live == old(heap.live) + BlockSet(copy) && fresh(BlockSet(copy))
    ensures ok ==> (copy == null <==> b == null) && Terminated(copy) && StringOf(copy) == StringOf(b)
  {
    if b == null {
      return true, null;
    }
    var length := 0;
    while b[length] != NUL
      invariant 0 <= length < b.Length
      invariant NulFree(b[..length])
      decreases b.Length - length
    {
      length := length + 1;
    }
    ghost var text := b[..length];
    assert b[..] == text + [NUL] + b[length + 1..];
    CStringOfTerminated(text, b[length + 1..]);
    copy := heap.NewBlock(length + 1);
    ok := copy != null;
    if ok {
      forall i | 0 <= i < length + 1 {
        copy[i] := b[i];
      }
      assert copy[..] == text + [NUL] + [];
      CStringOfTerminated(text, []);
      assert copy[length] == NUL;
    }
  }

  /** A tree that owns everything it shows, has no block twice and only proper strings. */
  ghost predicate Sound(c: Shape)
    reads c.node`child, c.node`text, c.node`key, c.node`isReference, c.node`keyIsConst, NodesAll(c.kids), Blocks(c)
  {
    Linked(c, false) && Unique(c) && RefFree(c) && Strings(c)
  }

  ghost predicate SoundAll(kids: seq<Shape>)
    reads NodesAll(kids), BlocksAll(kids)
  {
    && Chain(kids) && LinkedAll(kids, false) && UniqueAll(kids) && RefFreeAll(kids)
    && forall i :: 0 <= i < |kids| ==> Strings(kids[i])
  }

  lemma SingleShape(c: Shape)
    ensures OwnedAll([c]) == Owned(c) && (UniqueAll([c]) <==> Unique(c))
  {
    assert [] + [c] == [c];
    AppendShape([], c);
  }

  method Discard(item: Node, heap: Heap, ghost c: Shape)
    requires item == c.node && Sound(c) && Owned(c) <= heap.live
    requires item.next == null && item.prev == null
    modifies heap`live, Owned(c)
    ensures heap.live == old(heap.live) - Owned(c)
  {
    SingleShape(c);
    Delete(item, heap, [c]);
  }

  /** A lone node is a sound tree once its strings are in place and different. */
  lemma LeafSound(c: Shape)
    requires c.kids == [] && !c.isReference && !c.node.isReference && c.node.child == null
    requires c.node.text == c.text && c.node.key == c.key && c.node.keyIsConst == c.keyIsConst
    requires Terminated(c.text) && Terminated(c.key)
    requires c.text != null && !c.keyIsConst ==> c.text != c.key
    ensures Sound(c) && Owned(c) == {c.node} + OwnKey(c) + BlockSet(c.text)
    ensures NodesAll(c.kids) == {}
    ensures forall b :: b in Blocks(c) ==> b == c.text || b == c.key
  {
    LeafShape(c);
  }

  /** The new node with type, number and text, but no key yet. */
  method CopyText(item: Node, heap: Heap) returns (newitem: Node?, ghost c: Shape)
    requires Terminated(item.text)
    modifies heap
    ensures heap.calls >= old(heap.calls)
    ensures newitem == null ==> heap.live == old(heap.live) && heap.RefusedSince(old(heap.calls))
    ensures newitem != null ==>
      && c == Shape(newitem, newitem.text, null, false, item.keyIsConst, []) && Sound(c)
      && newitem.kind == item.kind && newitem.number == item.number && newitem.keyIsConst == item.keyIsConst
      && newitem.next == null && newitem.prev == null && newitem.child == null && newitem.key == null &&
         !newitem.isReference
      && (newitem.text == null <==> item.text == null) && Terminated(newitem.text) &&
         StringOf(newitem.text) == StringOf(item.text)
      && fresh(newitem) && fresh(BlockSet(newitem.text)) &&
         heap.live == old(heap.live) + {newitem} + BlockSet(newitem.text)
  {
    hide Sound, Owned, Inside, Linked, Unique, Strings;
    c := Shape(item, null, null, false, false, []);
    newitem := heap.NewItem();
    if newitem == null {
      return;
    }
    newitem.kind, newitem.keyIsConst, newitem.number := item.kind, item.keyIsConst, item.number;
    var ok, text := Strdup(item.text, heap);
    c := Shape(newitem, null, null, false, item.keyIsConst, []);
    if !ok {
      LeafSound(c);
      Discard(newitem, heap, c);
      newitem := null;
      return;
    }
    newitem.text, c := text, c.(text := text);
    LeafSound(c);
  }

  /** The node itself with its strings, without its children. */
  method CopyNode(item: Node, heap: Heap, ghost s: Shape) returns (newitem: Node?, ghost c: Shape)
    requires item == s.node && item.text == s.text && item.key == s.key && Terminated(s.text) && Terminated(s.key)
    modifies heap
    ensures heap.calls >= old(heap.calls)
    ensures newitem == null ==> heap.live == old(heap.live) && heap.RefusedSince(old(heap.calls))
    ensures newitem != null ==>
      && newitem == c.node && c.kids == [] && Sound(c) && SameNode(s, c)
      && newitem.next == null && newitem.prev == null
      && fresh(Owned(c)) && heap.live == old(heap.live) + Owned(c)
  {
    hide Sound, Owned, OwnedAll, Inside, Linked, Unique, UniqueAll, Strings, NodesAll, BlocksAll, StringOf, Terminated;
    newitem, c := CopyText(item, heap);
    if newitem == null {
      return;
    }
    var ok, key := true, item.key;
    if !item.keyIsConst {
      ok, key := Strdup(item.key, heap);
      if !ok {
        LeafSound(c);
        Discard(newitem, heap, c);
        newitem := null;
        return;
      }
    }
    newitem.key, c := key, c.(key := key);
    LeafSound(c);
  }

  /** A lone node that takes a separate sound forest for its children is a sound tree. */
  lemma ParentSound(c: Shape, kids: seq<Shape>)
    requires c.kids == [] && !c.isReference && SoundAll(kids) && Owned(c) !! OwnedAll(kids)
    requires !c.node.isReference && c.node.keyIsConst == c.keyIsConst && c.node.key == c.key && c.node.text == c.text
    requires Unique(c) && Strings(c) && c.node.child == First(kids)
    ensures var p := c.(kids := kids);
            Sound(p) && Owned(p) == Owned(c) + OwnedAll(kids)
  {
    LeafShape(c);
  }

  lemma SoundAppended(kids: seq<Shape>, d: Shape)
    requires UniqueAll(kids) && RefFreeAll(kids) && (forall i :: 0 <= i < |kids| ==> Strings(kids[i]))
    requires Unique(d) && RefFree(d) && Strings(d) && OwnedAll(kids) !! Owned(d)
    requires Chain(kids + [d]) && LinkedAll(kids + [d], false)
    ensures SoundAll(kids + [d]) && OwnedAll(kids + [d]) == OwnedAll(kids) + Owned(d)
  {
    AppendShape(kids, d);
    var all := kids + [d];
    forall i | 0 <= i < |all| ensures RefFree(all[i]) && Strings(all[i]) {
      assert all[i] == if i < |kids| then kids[i] else d;
    }
  }

  /** Hangs a new child behind `last`, or makes it the first child. */
  method AttachChild(parent: Node, last: Node?, child: Node, ghost kids: seq<Shape>, ghost d: Shape)
    requires SoundAll(kids) && Sound(d) && OwnedAll(kids) !! Owned(d) && parent !in NodesAll(kids) &&
      parent !in Nodes(d)
    requires child == d.node && child.next == null && child.prev == null
    requires last == (if kids == [] then null else kids[|kids| - 1].node) && parent.child == First(kids)
    modifies parent`child, (if last == null then {} else {last})`next, child`prev
    ensures SoundAll(kids + [d]) && parent.child == First(kids + [d])
    ensures OwnedAll(kids + [d]) == OwnedAll(kids) + Owned(d)
  {
    hide Owned, OwnedAll, Unique, Linked, Strings, RefFree;
    AppendShape(kids, d);
    assert allocated(Blocks(d)) && forall i :: 0 <= i < |kids| ==> allocated(Blocks(kids[i]));
    if last != null {
      Append(last, child, kids, d);
    } else {
      parent.child := child;
    }
    SoundAppended(kids, d);
  }

  ghost predicate SameTrees(kids: seq<Shape>, copies: seq<Shape>)
    requires |copies| <= |kids|
    reads NodesAll(kids)`kind, NodesAll(kids)`number, NodesAll(kids)`keyIsConst
    reads NodesAll(copies)`kind, NodesAll(copies)`number, NodesAll(copies)`keyIsConst
    reads BlocksAll(kids), BlocksAll(copies)
  {
    forall i :: 0 <= i < |copies| ==> SameTree(kids[i], copies[i])
  }

  lemma EmptyForest()
    ensures SoundAll([]) && OwnedAll([]) == {} && NodesAll([]) == {}
  {}

  /** What a copier needs to know of the node itself. */
  lemma SourceNode(s: Shape)
    requires Linked(s, true) && Strings(s)
    ensures s.node.text == s.text && s.node.key == s.key && Terminated(s.text) && Terminated(s.key)
    ensures s.node.child == First(s.kids)
  {}

  lemma NotBelow(s: Shape, n: Node)
    requires n !in Nodes(s)
    ensures n !in NodesAll(s.kids)
  {}

  /** What the loop needs to know of the i-th child. */
  lemma SourceChild(s: Shape, i: nat)
    requires Linked(s, true) && Strings(s) && i < |s.kids|
    ensures Linked(s.kids[i], true) && Strings(s.kids[i]) && Nodes(s.kids[i]) <= NodesAll(s.kids)
    ensures s.kids[i].node.next == (if i + 1 < |s.kids| then s.kids[i + 1].node else null)
  {}

  lemma SameTreesExtended(kids: seq<Shape>, copies: seq<Shape>, d: Shape)
    requires |copies| < |kids| && SameTrees(kids, copies) && SameTree(kids[|copies|], d)
    ensures SameTrees(kids, copies + [d])
  {
    hide SameTree;
    var all := copies + [d];
    forall i | 0 <= i < |all| ensures SameTree(kids[i], all[i]) {
      assert all[i] == if i < |copies| then copies[i] else d;
    }
  }

  lemma SameTreeBuilt(s: Shape, leaf: Shape, copies: seq<Shape>)
    requires SameNode(s, leaf) && |copies| == |s.kids| && SameTrees(s.kids, copies)
    ensures SameTree(s, leaf.(kids := copies))
  {}

  /** The loop over the children of `item`; the copies made so far hang below `newitem` in any case. */
  method DuplicateChildren(item: Node, newitem: Node, heap: Heap, ghost s: Shape)
    returns (ok: bool, ghost copies: seq<Shape>)
    requires item == s.node && Linked(s, true) && Strings(s)
    requires newitem.child == null && newitem !in Nodes(s)
    modifies heap, newitem`child
    ensures heap.calls >= old(heap.calls)
    ensures SoundAll(copies) && newitem.child == First(copies)
    ensures fresh(OwnedAll(copies)) && heap.live == old(heap.live) + OwnedAll(copies)
    ensures !ok ==> heap.RefusedSince(old(heap.calls))
    ensures ok ==> |copies| == |s.kids| && SameTrees(s.kids, copies)
    decreases s, 0
  {
    hide Owned, OwnedAll, Unique, UniqueAll, Strings, RefFree, SameTree, SoundAll, Nodes, NodesAll, Linked, BlocksAll,
      Blocks, Terminated;
    EmptyForest();
    SourceNode(s);
    NotBelow(s, newitem);
    copies := [];
    var child, last := item.child, null;
    assert allocated(NodesAll(s.kids)) && allocated(Blocks(s));
    while child != null
      invariant |copies| <= |s.kids| && child == (if |copies| < |s.kids| then s.kids[|copies|].node else null)
      invariant last == (if copies == [] then null else copies[|copies| - 1].node)
      invariant SoundAll(copies) && newitem.child == First(copies)
      invariant fresh(OwnedAll(copies)) && heap.live == old(heap.live) + OwnedAll(copies)
      invariant fresh(NodesAll(copies)) && (last != null ==> last in NodesAll(copies))
      invariant SameTrees(s.kids, copies)
      invariant heap.calls >= old(heap.calls)
      invariant Linked(s, true) && Strings(s)
      decreases |s.kids| - |copies|
    {
      SourceChild(s, |copies|);
      var newchild; ghost var d;
      newchild, d := DuplicateChild(child, newitem, last, heap, s.kids, copies);
      if newchild == null {
        return false, copies;
      }
      copies := copies + [d];
      last := newchild;
      child := child.next;
    }
    ok := true;
  }

  /** One round of that loop. */
  method DuplicateChild(child: Node, newitem: Node, last: Node?, heap: Heap, ghost kids: seq<Shape>,
                        ghost copies: seq<Shape>)
    returns (newchild: Node?, ghost d: Shape)
    requires |copies| < |kids| && child == kids[|copies|].node && Linked(kids[|copies|], true) &&
      Strings(kids[|copies|])
    requires newitem !in NodesAll(kids) && newitem !in NodesAll(copies) && (last != null ==> last !in NodesAll(kids))
    requires last == (if copies == [] then null else copies[|copies| - 1].node)
    requires SoundAll(copies) && newitem.child == First(copies) && SameTrees(kids, copies)
    modifies heap, newitem`child, (if last == null then {} else {last})`next
    ensures heap.calls >= old(heap.calls)
    ensures newchild == null ==>
      && heap.live == old(heap.live) && heap.RefusedSince(old(heap.calls))
      && SoundAll(copies) && newitem.child == First(copies)
    ensures newchild != null ==>
      && newchild == d.node && newchild in Nodes(d) && SoundAll(copies + [d]) && newitem.child == First(copies + [d])
      && SameTrees(kids, copies + [d])
      && fresh(Owned(d)) && fresh(Nodes(d))
      && heap.live == old(heap.live) + Owned(d) && OwnedAll(copies + [d]) == OwnedAll(copies) + Owned(d)
      && NodesAll(copies + [d]) == NodesAll(copies) + Nodes(d)
    decreases kids
  {
    hide Owned, OwnedAll, Unique, UniqueAll, Linked, Strings, RefFree, SameTree, SameTrees, Sound, SoundAll, NodesAll,
      BlocksAll, Nodes, Blocks;
    assert allocated(NodesAll(copies)) && allocated(BlocksAll(copies)) && allocated(NodesAll(kids)) &&
      allocated(BlocksAll(kids));
    assert allocated(OwnedAll(copies));
    newchild, d := Duplicate(child, true, heap, kids[|copies|]);
    if newchild == null {
      return;
    }
    SoundNode(d);
    assert allocated(Nodes(d)) && allocated(Blocks(d));
    AttachChild(newitem, last, newchild, copies, d);
    SameTreesExtended(kids, copies, d);
    AppendShape(copies, d);
  }

  lemma SoundNode(d: Shape)
    requires Sound(d)
    ensures Unique(d) && Strings(d) && !d.isReference && !d.node.isReference && d.node.keyIsConst == d.keyIsConst
    ensures d.node.text == d.text && d.node.key == d.key && d.node.child == First(d.kids)
    ensures d.node in Owned(d) && d.node in Nodes(d) && forall n :: n in Nodes(d) ==> n in Owned(d)
  {
    NodesOwned(d);
  }

  /** `cJSON_Duplicate`: a fresh, separate, equal tree (or the node alone), or NULL and no block left over. */
  method Duplicate(item: Node?, recurse: bool, heap: Heap, ghost s: Shape) returns (newitem: Node?, ghost c: Shape)
    requires item != null ==> item == s.node && Linked(s, true) && Strings(s)
    modifies heap
    ensures heap.calls >= old(heap.calls)
    ensures newitem == null ==> heap.live == old(heap.live) && (item != null ==> heap.RefusedSince(old(heap.calls)))
    ensures newitem != null ==>
      && item != null && newitem == c.node && Sound(c) && newitem.next == null && newitem.prev == null
      && fresh(Owned(c)) && heap.live == old(heap.live) + Owned(c)
      && (if recurse then SameTree(s, c) else SameNode(s, c) && c.kids == [])
    decreases s, 1
  {
    hide Owned, OwnedAll, Inside, OwnKey, Unique, UniqueAll, Strings, RefFree, SameTree, SameNode, SoundAll, Sound,
      BlocksAll, Blocks,
      Linked, NodesAll, Terminated;
    c := s;
    if item == null {
      return null, s;
    }
    assert allocated(Blocks(s)) && allocated(Nodes(s)) && allocated(NodesAll(s.kids));
    SourceNode(s);
    newitem, c := CopyNode(item, heap, s);
    if newitem == null || !recurse {
      return;
    }
    ghost var leaf := c;
    SoundNode(leaf);
    LeafShape(leaf);
    assert allocated(Blocks(leaf)) && allocated(Owned(leaf));
    var ok; ghost var copies;
    ok, copies := DuplicateChildren(item, newitem, heap, s);
    c := leaf.(kids := copies);
    ParentSound(leaf, copies);
    if ok {
      SameTreeBuilt(s, leaf, copies);
    } else {
      Discard(newitem, heap, c);
      newitem := null;
    }
  }

  /** Equal trees stand for equal JSON values. */
  lemma {:induction false} SameTreeSameValue(s: Shape, c: Shape)
    requires SameTree(s, c)
    ensures Val(s) == Val(c)
    decreases s, 1
  {
    SameParts(s, c);
    hide SameTree, ElemsFrom, MembersFrom, StringOf;
    SameTreesSameValues(s.kids, c.kids, 0);
  }

  lemma SameParts(s: Shape, c: Shape)
    requires SameTree(s, c)
    ensures SameNode(s, c) && |s.kids| == |c.kids| && forall i :: 0 <= i < |s.kids| ==> SameTree(s.kids[i], c.kids[i])
  {}

  lemma {:induction false} SameTreesSameValues(kids: seq<Shape>, copies: seq<Shape>, i: nat)
    requires i <= |kids| == |copies| && forall j :: 0 <= j < |kids| ==> SameTree(kids[j], copies[j])
    ensures ElemsFrom(kids, i) == ElemsFrom(copies, i) && MembersFrom(kids, i) == MembersFrom(copies, i)
    decreases kids, 0, |kids| - i
  {
    hide SameTree, Val, StringOf;
    if i < |kids| {
      SameKeyText(kids[i], copies[i]);
      SameTreeSameValue(kids[i], copies[i]);
      SameTreesSameValues(kids, copies, i + 1);
    }
  }

  lemma SameKeyText(s: Shape, c: Shape)
    requires SameTree(s, c)
    ensures StringOf(s.key) == StringOf(c.key)
  {}

  /** Deleting a duplicate gives back exactly what making it took. */
  method DuplicateAndDelete(item: Node, heap: Heap, ghost s: Shape)
    requires item == s.node && Linked(s, true) && Strings(s)
    modifies heap
    ensures heap.live == old(heap.live)
  {
    var copy; ghost var c;
    copy, c := Duplicate(item, true, heap, s);
    if copy != null {
      Discard(copy, heap, c);
    }
  }
}
