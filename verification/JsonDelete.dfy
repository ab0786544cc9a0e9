/** cJSON_Delete: every block a tree owns is given back, each once. */
module JsonDelete {
  import opened JsonTree

  /** One round of the loop of `cJSON_Delete`: the children, then the strings, then the node itself. */
  method DeleteItem(item: Node, heap: Heap, ghost s: Shape)
    requires item == s.node && Linked(s, false) && Unique(s) && Owned(s) <= heap.live
    modifies heap`live, Owned(s)
    ensures heap.live == old(heap.live) - Owned(s)
    decreases s, 0
  {
    if !item.isReference && item.child != null {
      Delete(item.child, heap, s.kids);
    }
    if !item.isReference && item.text != null {
      heap.ReleaseBlock(item.text);
    }
    if !item.keyIsConst && item.key != null {
      heap.ReleaseBlock(item.key);
    }
    heap.ReleaseNode(item);
  }

  /**
    Frees the chain that starts at `item` and everything below it. Only live blocks can be given back, so
    the exact change of `live` says that each owned block is freed exactly once and nothing else is.
    */
  method Delete(item: Node?, heap: Heap, ghost kids: seq<Shape>)
    requires item == First(kids) && Chain(kids) && LinkedAll(kids, false) && UniqueAll(kids)
    requires OwnedAll(kids) <= heap.live
    modifies heap`live, OwnedAll(kids)
    ensures heap.live == old(heap.live) - OwnedAll(kids)
    decreases kids, 1
  {
    hide Owned, Inside, OwnKey, Unique, UniqueAll, Linked;
    var it := item;
    ghost var i := 0;
    while it != null
      invariant i <= |kids| && it == (if i < |kids| then kids[i].node else null)
      invariant heap.live == old(heap.live) - OwnedAll(kids[..i])
      invariant forall j :: i <= j < |kids| ==>
        Linked(kids[j], false) && kids[j].node.next == (if j + 1 < |kids| then kids[j + 1].node else null)
      decreases |kids| - i
    {
      var next := it.next;
      UniqueAllMember(kids, i);
      OwnedAllMember(kids, i);
      OwnedAllPrefix(kids, i);
      OwnedAllApart(kids, i, Owned(kids[i]));
      forall j | i < j < |kids|
        ensures kids[j].node !in Owned(kids[i]) && forall n :: n in NodesAll(kids[j].kids) ==> n !in Owned(kids[i])
      {
        NodesOwned(kids[j]);
      }
      assert forall j :: i < j < |kids| ==> allocated(kids[j].node) && allocated(NodesAll(kids[j].kids));
      label before:
      DeleteItem(it, heap, kids[i]);
      forall j | i < j < |kids| ensures Linked(kids[j], false) {
        forall n | n in NodesAll(kids[j].kids) ensures old@before(allocated(n)) && unchanged@before(n) {}
        assert old@before(Linked(kids[j], false));
      }
      it := next;
      i := i + 1;
    }
    assert kids[..i] == kids;
  }

  lemma {:induction false} OwnedByOne(kids: seq<Shape>, o: object)
    ensures o in OwnedAll(kids) <==> exists i :: 0 <= i < |kids| && o in Owned(kids[i])
    decreases |kids|
  {
    hide Owned;
    var n := |kids| - 1;
    if n >= 0 {
      OwnedByOne(kids[..n], o);
      assert forall i :: 0 <= i < n ==> kids[..n][i] == kids[i];
    }
  }

  /**
    What deleting a node gives back: the node, its key unless that is constant, and, unless the node is a reference, its
    text and what its children own.
    */
  lemma OwnedExactly(s: Shape, o: object)
    ensures o in Owned(s) <==>
            || o == s.node || (o == s.key && !s.keyIsConst)
            || (!s.isReference && (o == s.text || exists i :: 0 <= i < |s.kids| && o in Owned(s.kids[i])))
  {
    OwnedByOne(s.kids, o);
  }
}
