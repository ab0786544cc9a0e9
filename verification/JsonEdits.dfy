/** Editing the children of an array: each operation on the linked siblings is one edit of their sequence. */
module JsonEdits {
  import opened Sequences
  import opened JsonTree
  import opened JsonDelete
  import opened JsonDuplicate

  /** The children of `parent`, in order: no node twice, linked both ways, open at both ends. */
  ghost predicate Siblings(parent: Node, kids: seq<Node>)
    reads parent`child, kids`next, kids`prev
  {
    && parent.child == (if kids == [] then null else kids[0])
    && (forall i, j :: 0 <= i < j < |kids| ==> kids[i] != kids[j])
    && (forall i {:trigger kids[i].next} :: 0 <= i < |kids| ==>
       kids[i].next == if i + 1 < |kids| then kids[i + 1] else null)
    && (forall i {:trigger kids[i].prev} :: 0 <= i < |kids| ==> kids[i].prev == if i > 0 then kids[i - 1] else null)
  }

  /** A node that hangs nowhere. */
  predicate Loose(item: Node)
    reads item`next, item`prev
  {
    item.next == null && item.prev == null
  }

  /** `get_array_item` */
  method GetArrayItem(list: Node?, index: nat, ghost kids: seq<Node>) returns (item: Node?)
    requires list != null ==> Siblings(list, kids)
    ensures item == if list != null && index < |kids| then kids[index] else null
  {
    if list == null {
      return null;
    }
    item := list.child;
    var left := index;
    while item != null && left > 0
      invariant 0 <= left <= index
      invariant item == if index - left < |kids| then kids[index - left] else null
    {
      left := left - 1;
      item := item.next;
    }
  }

  /** `add_item_to_array` */
  method AddItemToArray(list: Node?, item: Node?, ghost kids: seq<Node>) returns (added: bool)
    requires list != null ==> Siblings(list, kids)
    requires item != null ==> item !in kids && Loose(item)
    modifies (if list == null || item == null then {} else {list})`child
    modifies (if list == null || item == null then [] else kids)`next
    modifies (if list == null || item == null then {} else {item})`prev
    ensures added <==> list != null && item != null
    ensures added ==> Siblings(list, kids + [item])
    ensures added ==> forall n :: n in kids && n != kids[|kids| - 1] ==> n.next == old(n.next)
  {
    if item == null || list == null {
      return false;
    }
    var child := list.child;
    if child == null {
      list.child := item;
    } else {
      ghost var i := 0;
      while child.next != null
        invariant 0 <= i < |kids| && child == kids[i]
        decreases |kids| - i
      {
        child := child.next;
        i := i + 1;
      }
      SuffixObject(child, item);
    }
    added := true;
  }

  /** `cJSON_DetachItemViaPointer`: takes the i-th child out and leaves it loose. */
  method DetachItemViaPointer(parent: Node?, item: Node?, ghost kids: seq<Node>, ghost i: nat) returns (detached: Node?)
    requires parent != null && item != null ==> Siblings(parent, kids) && i < |kids| && item == kids[i]
    modifies (if parent == null || item == null then {} else {parent})`child
    modifies (if parent == null || item == null then [] else kids)`next,
      (if parent == null || item == null then [] else kids)`prev
    ensures detached == if parent == null || item == null then null else item
    ensures detached != null ==> Siblings(parent, RemoveAt(kids, i)) && Loose(detached)
  {
    if parent == null || item == null {
      return null;
    }
    if item.prev != null {
      item.prev.next := item.next;
    }
    if item.next != null {
      item.next.prev := item.prev;
    }
    if item == parent.child {
      parent.child := item.next;
    }
    item.prev := null;
    item.next := null;
    detached := item;
  }

  /** `cJSON_DetachItemFromArray` */
  method DetachItemFromArray(list: Node?, which: int, ghost kids: seq<Node>) returns (detached: Node?)
    requires list != null ==> Siblings(list, kids)
    modifies (if list == null then {} else {list})`child
    modifies (if list == null then [] else kids)`next, (if list == null then [] else kids)`prev
    ensures detached == if list != null && 0 <= which < |kids| then kids[which] else null
    ensures detached != null ==> Siblings(list, RemoveAt(kids, which)) && Loose(detached)
    ensures detached == null && list != null ==> Siblings(list, kids)
  {
    if which < 0 {
      return null;
    }
    var item := GetArrayItem(list, which, kids);
    detached := DetachItemViaPointer(list, item, kids, which);
  }

  /** `cJSON_InsertItemInArray`: before the which-th child, or at the end when there is none. */
  method InsertItemInArray(list: Node?, which: int, newitem: Node, ghost kids: seq<Node>)
    requires list != null ==> Siblings(list, kids)
    requires newitem !in kids && Loose(newitem)
    modifies (if list == null then {} else {list})`child, newitem`next, newitem`prev
    modifies (if list == null then [] else kids)`next, (if list == null then [] else kids)`prev
    ensures list != null && which >= 0 ==> Siblings(list,
      InsertAt(kids, if which < |kids| then which else |kids|, newitem))
    ensures list != null && which < 0 ==> Siblings(list, kids) && Loose(newitem)
    ensures list == null ==> Loose(newitem)
  {
    if which < 0 {
      return;
    }
    var afterInserted := GetArrayItem(list, which, kids);
    if afterInserted == null {
      var _ := AddItemToArray(list, newitem, kids);
      assert kids + [newitem] == InsertAt(kids, |kids|, newitem);
      return;
    }
    LinkBefore(list, which, afterInserted, newitem, kids);
  }

  method LinkBefore(list: Node, which: nat, afterInserted: Node, newitem: Node, ghost kids: seq<Node>)
    requires Siblings(list, kids) && which < |kids| && afterInserted == kids[which] && newitem !in kids
    modifies list`child, newitem`next, newitem`prev, kids`next, kids`prev
    ensures Siblings(list, InsertAt(kids, which, newitem))
  {
    newitem.next := afterInserted;
    newitem.prev := afterInserted.prev;
    afterInserted.prev := newitem;
    if afterInserted == list.child {
      list.child := newitem;
    } else {
      newitem.prev.next := newitem;
    }
    hide InsertAt;
  }

  /** The i-th child heads a tree of its own, clear of its parent and its siblings. */
  ghost predicate Separate(list: Node, kids: seq<Node>, i: nat, d: Shape, heap: Heap)
    reads heap`live, d.node, NodesAll(d.kids)
  {
    && i < |kids| && kids[i] == d.node && Linked(d, false) && Unique(d) && Owned(d) <= heap.live && list !in Owned(d)
    && forall n :: n in kids && n != d.node ==> n !in Owned(d)
  }

  lemma SeparateTree(list: Node, kids: seq<Node>, i: nat, d: Shape, heap: Heap)
    requires Siblings(list, kids) && Separate(list, kids, i, d, heap)
    ensures i < |kids| && kids[i] == d.node && Linked(d, false) && Unique(d) && Owned(d) <= heap.live &&
      list !in Owned(d)
    ensures list != d.node && list !in NodesAll(d.kids) && forall n :: n in kids ==> n !in NodesAll(d.kids)
    ensures forall n :: n in RemoveAt(kids, i) ==> n !in Owned(d)
    ensures forall n :: n in NodesAll(d.kids) ==> n in Owned(d)
  {
    ItemApart(kids, i, list, d);
  }

  /** `cJSON_ReplaceItemViaPointer`: the replacement takes the place of the i-th child, which is then freed. */
  method ReplaceItemViaPointer(parent: Node?, item: Node?, replacement: Node?, heap: Heap, ghost kids: seq<Node>,
                               ghost i: nat, ghost d: Shape)
    returns (replaced: bool)
    requires parent != null && item != null ==> Siblings(parent, kids) && i < |kids| && item == kids[i]
    requires parent != null && item != null && replacement != null && replacement != item ==>
      Separate(parent, kids, i, d, heap) && replacement !in kids && replacement !in Owned(d)
    modifies (if parent == null || item == null || replacement == null then {} else {parent})`child
    modifies (if parent == null || item == null || replacement == null then [] else kids)`next
    modifies (if parent == null || item == null || replacement == null then [] else kids)`prev
    modifies (if parent == null || item == null || replacement == null then {} else {replacement})`next
    modifies (if parent == null || item == null || replacement == null then {} else {replacement})`prev
    modifies (if parent == null || item == null || replacement == null || item == replacement then {} else Owned(d)),
      heap`live
    ensures replaced <==> parent != null && item != null && replacement != null
    ensures replaced ==> Siblings(parent, kids[i := replacement])
    ensures heap.live == if replaced && replacement != item then old(heap.live) - Owned(d) else old(heap.live)
  {
    if parent == null || replacement == null || item == null {
      return false;
    }
    if replacement == item {
      assert kids[i := replacement] == kids;
      return true;
    }
    TakeOver(parent, item, replacement, heap, kids, i, d);
    replaced := true;
  }

  method TakeOver(parent: Node, item: Node, replacement: Node, heap: Heap, ghost kids: seq<Node>, ghost i: nat,
                  ghost d: Shape)
    requires Siblings(parent, kids) && Separate(parent, kids, i, d, heap) && item == kids[i]
    requires replacement !in kids && replacement !in Owned(d)
    modifies parent`child, kids`next, kids`prev, replacement`next, replacement`prev, Owned(d), heap`live
    ensures Siblings(parent, kids[i := replacement])
    ensures heap.live == old(heap.live) - Owned(d)
  {
    hide Linked, Owned, OwnedAll, Unique, UniqueAll, Separate, Siblings, Inside, OwnKey, RemoveAt, NodesAll;
    SeparateTree(parent, kids, i, d, heap);
    ghost var all := kids[i := replacement];
    ReplacedOutside(kids, i, replacement, Owned(d));
    assert allocated(NodesAll(d.kids)) && allocated(all);
    Relink(parent, item, replacement, kids, i);
    FreeItem(item, heap, d);
  }

  lemma ReplacedOutside(kids: seq<Node>, i: nat, replacement: Node, blocks: set<object>)
    requires i < |kids| && replacement !in blocks && forall n :: n in RemoveAt(kids, i) ==> n !in blocks
    ensures forall n :: n in kids[i := replacement] ==> n !in blocks
  {
    var r := RemoveAt(kids, i);
    forall k | 0 <= k < |kids| && k != i ensures kids[k] !in blocks {
      assert kids[k] == r[if k < i then k else k - 1];
    }
  }

  /** The other children lie outside a child's own tree, and that tree below the child has no sibling in it. */
  lemma ItemApart(kids: seq<Node>, i: nat, parent: Node, d: Shape)
    requires i < |kids| && kids[i] == d.node && Linked(d, false) && Unique(d) && parent !in Owned(d)
    requires forall n :: n in kids && n != d.node ==> n !in Owned(d)
    ensures parent !in NodesAll(d.kids) && parent != d.node
    ensures forall n :: n in kids ==> n !in NodesAll(d.kids)
    ensures forall n :: n in NodesAll(d.kids) ==> n in Owned(d)
  {
    NodesOwned(d);
  }

  /** `cJSON_Delete` on an item that hangs nowhere. */
  method FreeItem(item: Node?, heap: Heap, ghost d: Shape)
    requires item != null ==> item == d.node && Loose(item) && Linked(d, false) && Unique(d) && Owned(d) <= heap.live
    modifies (if item == null then {} else Owned(d)), heap`live
    ensures heap.live == if item == null then old(heap.live) else old(heap.live) - Owned(d)
  {
    hide Linked, Owned, Unique;
    SingleShape(d);
    Delete(item, heap, if item == null then [] else [d]);
  }

  /** The links of a replacement, before the old item is given back. */
  method Relink(parent: Node, item: Node, replacement: Node, ghost kids: seq<Node>, ghost i: nat)
    requires Siblings(parent, kids) && i < |kids| && item == kids[i] && replacement !in kids
    modifies parent`child, kids`next, kids`prev, replacement`next, replacement`prev
    ensures Siblings(parent, kids[i := replacement]) && Loose(item)
  {
    replacement.next := item.next;
    replacement.prev := item.prev;
    if replacement.next != null {
      replacement.next.prev := replacement;
    }
    if replacement.prev != null {
      replacement.prev.next := replacement;
    }
    if parent.child == item {
      parent.child := replacement;
    }
    item.next := null;
    item.prev := null;
  }

  /** `cJSON_DeleteItemFromArray`: one child fewer, and exactly its blocks given back. */
  method DeleteItemFromArray(list: Node?, which: int, heap: Heap, ghost kids: seq<Node>, ghost d: Shape)
    requires list != null ==> Siblings(list, kids)
    requires list != null && 0 <= which < |kids| ==> Separate(list, kids, which, d, heap)
    modifies (if list == null then {} else {list})`child
    modifies (if list == null then [] else kids)`next, (if list == null then [] else kids)`prev
    modifies (if list != null && 0 <= which < |kids| then Owned(d) else {}), heap`live
    ensures list != null && !(0 <= which < |kids|) ==> Siblings(list, kids)
    ensures list != null && 0 <= which < |kids| ==> Siblings(list, RemoveAt(kids, which))
    ensures heap.live == if list != null && 0 <= which < |kids| then old(heap.live) - Owned(d) else old(heap.live)
  {
    hide Linked, Owned, Unique, OwnedAll, UniqueAll, Siblings, RemoveAt, Separate, Inside, OwnKey, NodesAll;
    if list != null && 0 <= which < |kids| {
      SeparateTree(list, kids, which, d, heap);
    }
    assert allocated(NodesAll(d.kids)) && allocated(kids);
    var item := DetachItemFromArray(list, which, kids);
    if item != null {
      assert allocated(RemoveAt(kids, which));
    }
    FreeItem(item, heap, d);
  }

  /** Detaching a child and inserting it at the same index leads back to the same children. */
  method DetachAndInsert(list: Node, which: nat, ghost kids: seq<Node>)
    requires Siblings(list, kids) && which < |kids|
    modifies list`child, kids`next, kids`prev
    ensures Siblings(list, kids)
    ensures list.child == old(list.child) && forall n :: n in kids ==> n.next == old(n.next) && n.prev == old(n.prev)
  {
    var item := DetachItemFromArray(list, which, kids);
    InsertItemInArray(list, which, item, RemoveAt(kids, which));
    InsertRemoved(kids, which);
  }
}
