/** The circular lists of test/list.h: each piece of pointer surgery is one edit of the sequence of entries. */
module KernelList {
  import opened Sequences

  /** `struct list_head` */
  class ListHead {
    var next: ListHead?
    var prev: ListHead?

    constructor ()
      ensures next == null && prev == null
    {
      next, prev := null, null;
    }
  }

  predicate Distinct(xs: seq<ListHead>) {
    forall i, j :: 0 <= i < j < |xs| ==> xs[i] != xs[j]
  }

  /**
    One ring of `head` and the entries, in order: no node twice, `next` and `prev` inverse to each other.
    The links of all nodes are determined by the sequence.
    */
  ghost predicate Ring(head: ListHead, xs: seq<ListHead>)
    reads head, xs
  {
    && head !in xs && Distinct(xs)
    && head.next == (if xs == [] then head else xs[0])
    && head.prev == (if xs == [] then head else xs[|xs| - 1])
    && (forall i {:trigger xs[i].next} :: 0 <= i < |xs| ==> xs[i].next == if i + 1 < |xs| then xs[i + 1] else head)
    && (forall i {:trigger xs[i].prev} :: 0 <= i < |xs| ==> xs[i].prev == if i > 0 then xs[i - 1] else head)
  }

  /** No node in common. */
  predicate Apart(h: ListHead, xs: seq<ListHead>, k: ListHead, ys: seq<ListHead>) {
    h != k && h !in ys && k !in xs && forall n :: n in xs ==> n !in ys
  }

  /** Any node of a ring can be taken as its head. */
  lemma Rotate(head: ListHead, a: seq<ListHead>, n: ListHead, b: seq<ListHead>)
    requires Ring(head, a + [n] + b)
    ensures Ring(n, b + [head] + a)
  {
    var xs, ys := a + [n] + b, b + [head] + a;
    assert xs[|a|] == n;
    forall i | 0 <= i < |ys|
      ensures ys[i] != n
      ensures ys[i].next == if i + 1 < |ys| then ys[i + 1] else n
      ensures ys[i].prev == if i > 0 then ys[i - 1] else n
    {
      if i < |b| {
        assert ys[i] == xs[|a| + 1 + i];
      } else if i > |b| {
        assert ys[i] == xs[i - |b| - 1];
      }
    }
    forall i, j | 0 <= i < j < |ys| ensures ys[i] != ys[j] {
      assert i < |b| ==> ys[i] == xs[|a| + 1 + i];
      assert i > |b| ==> ys[i] == xs[i - |b| - 1];
      assert j < |b| ==> ys[j] == xs[|a| + 1 + j];
      assert j > |b| ==> ys[j] == xs[j - |b| - 1];
    }
    assert b != [] ==> ys[0] == xs[|a| + 1];
    assert a != [] ==> ys[|ys| - 1] == xs[|a| - 1];
  }

  /** `INIT_LIST_HEAD` */
  method InitListHead(list: ListHead)
    modifies list
    ensures Ring(list, [])
  {
    list.next := list;
    list.prev := list;
  }

  /** `__list_add` behind the entry before place `i` */
  method ListAddBetween(entry: ListHead, prev: ListHead, next: ListHead, ghost head: ListHead, ghost xs: seq<ListHead>,
                        ghost i: nat)
    requires Ring(head, xs) && i <= |xs| && entry != head && entry !in xs
    requires prev == (if i == 0 then head else xs[i - 1]) && next == (if i == |xs| then head else xs[i])
    modifies head, xs, entry
    ensures Ring(head, InsertAt(xs, i, entry))
  {
    next.prev := entry;
    entry.next := next;
    entry.prev := prev;
    prev.next := entry;
    hide InsertAt;
  }

  /** `list_add` */
  method ListAdd(entry: ListHead, head: ListHead, ghost xs: seq<ListHead>)
    requires Ring(head, xs) && entry != head && entry !in xs
    modifies head, xs, entry
    ensures Ring(head, [entry] + xs)
  {
    ListAddBetween(entry, head, head.next, head, xs, 0);
    assert InsertAt(xs, 0, entry) == [entry] + xs;
  }

  /** `list_add_tail` */
  method ListAddTail(entry: ListHead, head: ListHead, ghost xs: seq<ListHead>)
    requires Ring(head, xs) && entry != head && entry !in xs
    modifies head, xs, entry
    ensures Ring(head, xs + [entry])
  {
    ListAddBetween(entry, head.prev, head, head, xs, |xs|);
    assert InsertAt(xs, |xs|, entry) == xs + [entry];
  }

  /** `__list_del_entry`: the entry keeps its own links. */
  method ListDelEntry(entry: ListHead, ghost head: ListHead, ghost xs: seq<ListHead>, ghost i: nat)
    requires Ring(head, xs) && i < |xs| && entry == xs[i]
    modifies head, xs
    ensures Ring(head, RemoveAt(xs, i)) && entry.next == old(entry.next) && entry.prev == old(entry.prev)
  {
    var prev, next := entry.prev, entry.next;
    next.prev := prev;
    prev.next := next;
    hide RemoveAt;
  }

  /** `list_del` */
  method ListDel(entry: ListHead, ghost head: ListHead, ghost xs: seq<ListHead>, ghost i: nat)
    requires Ring(head, xs) && i < |xs| && entry == xs[i]
    modifies head, xs
    ensures Ring(head, RemoveAt(xs, i)) && entry.next == null && entry.prev == null
  {
    ListDelEntry(entry, head, xs, i);
    assert entry !in RemoveAt(xs, i);
    entry.next := null;
    entry.prev := null;
  }

  /**
    `list_replace`: the new node takes the old one's place, here that of the head, and a ring without entries becomes
    one of the new node alone. By rotation this covers every entry. The old node's `next` still leads into the ring.
    */
  method ListReplace(old_: ListHead, new_: ListHead, ghost xs: seq<ListHead>)
    requires Ring(old_, xs) && new_ != old_ && new_ !in xs
    modifies old_, xs, new_
    ensures Ring(new_, xs) && old_.next == old(old_.next)
  {
    new_.next := old_.next;
    new_.next.prev := new_;
    new_.prev := old_.prev;
    new_.prev.next := new_;
  }

  /** `list_replace` of the entry at place `i` */
  method ReplaceEntry(old_: ListHead, new_: ListHead, ghost head: ListHead, ghost xs: seq<ListHead>, ghost i: nat)
    requires Ring(head, xs) && i < |xs| && old_ == xs[i] && new_ != head && new_ !in xs
    modifies head, xs, new_
    ensures Ring(head, xs[i := new_])
  {
    ghost var a, b := xs[..i], xs[i + 1..];
    assert xs == a + [old_] + b;
    Rotate(head, a, old_, b);
    ListReplace(old_, new_, b + [head] + a);
    Rotate(new_, b, head, a);
    assert xs[i := new_] == a + [new_] + b;
  }

  /** `list_bulk_move_tail`: the entries from `first` to `last` go to the end. */
  method ListBulkMoveTail(head: ListHead, first: ListHead, last: ListHead, ghost a: seq<ListHead>,
                          ghost s: seq<ListHead>, ghost b: seq<ListHead>)
    requires Ring(head, a + s + b) && s != [] && first == s[0] && last == s[|s| - 1]
    modifies head, a, s, b
    ensures Ring(head, a + b + s)
  {
    ghost var xs, ys := a + s + b, a + b + s;
    assert xs[|a|] == first && xs[|a| + |s| - 1] == last;
    MovedSegment(a, s, b);
    first.prev.next := last.next;
    last.next.prev := first.prev;
    head.prev.next := first;
    first.prev := head.prev;
    last.next := head;
    head.prev := last;
    forall k | 0 <= k < |ys|
      ensures ys[k].next == if k + 1 < |ys| then ys[k + 1] else head
      ensures ys[k].prev == if k > 0 then ys[k - 1] else head
    {
      MovedPlace(a, s, b, k);
      if k + 1 < |ys| {
        MovedPlace(a, s, b, k + 1);
      }
      if k > 0 {
        MovedPlace(a, s, b, k - 1);
      }
    }
  }

  lemma MovedPlace(a: seq<ListHead>, s: seq<ListHead>, b: seq<ListHead>, k: nat)
    requires k < |a| + |b| + |s|
    ensures (a + b + s)[k] == (a + s + b)[if k < |a| then k else if k < |a| + |b| then k + |s| else k - |b|]
  {}

  lemma MovedSegment(a: seq<ListHead>, s: seq<ListHead>, b: seq<ListHead>)
    requires Distinct(a + s + b)
    ensures Distinct(a + b + s) && forall n :: n in a + b + s <==> n in a + s + b
  {
    var xs, ys := a + s + b, a + b + s;
    forall i, j | 0 <= i < j < |ys| ensures ys[i] != ys[j] {
      assert ys[i] == xs[if i < |a| then i else if i < |a| + |b| then i + |s| else i - |b|];
      assert ys[j] == xs[if j < |a| then j else if j < |a| + |b| then j + |s| else j - |b|];
    }
  }

  /** `list_empty` */
  predicate ListEmpty(head: ListHead)
    reads head
  {
    head.next == head
  }

  /** `list_is_singular` */
  predicate ListIsSingular(head: ListHead)
    reads head
  {
    !ListEmpty(head) && head.next == head.prev
  }

  /** `list_cut_position`, up to and with the entry at place `i`; a list without entries leaves `list` as it was. */
  method ListCutPosition(list: ListHead, head: ListHead, entry: ListHead, ghost xs: seq<ListHead>, ghost i: nat)
    requires Ring(head, xs) && list != head && list !in xs
    requires entry == head || (i < |xs| && entry == xs[i])
    modifies list, head, xs
    ensures xs == [] ==> Ring(head, []) && list.next == old(list.next) && list.prev == old(list.prev)
    ensures xs != [] && entry == head ==> Ring(list, []) && Ring(head, xs)
    ensures xs != [] && entry != head ==> Ring(list, xs[..i + 1]) && Ring(head, xs[i + 1..])
  {
    if ListEmpty(head) {
      return;
    }
    if ListIsSingular(head) && head.next != entry && head != entry {
      return;
    }
    if entry == head {
      InitListHead(list);
    } else {
      CutPosition(list, head, entry, xs, i);
    }
  }

  /** `__list_cut_position` */
  method CutPosition(list: ListHead, head: ListHead, entry: ListHead, ghost xs: seq<ListHead>, ghost i: nat)
    requires Ring(head, xs) && list != head && list !in xs && i < |xs| && entry == xs[i]
    modifies list, head, xs
    ensures Ring(list, xs[..i + 1]) && Ring(head, xs[i + 1..])
  {
    var newFirst := entry.next;
    list.next := head.next;
    list.next.prev := list;
    list.prev := entry;
    entry.next := list;
    head.next := newFirst;
    newFirst.prev := head;
  }

  /** `list_cut_before`: the entries in front of place `i`, all of them when `entry` is the head. */
  method ListCutBefore(list: ListHead, head: ListHead, entry: ListHead, ghost xs: seq<ListHead>, ghost i: nat)
    requires Ring(head, xs) && list != head && list !in xs && i <= |xs|
    requires entry == if i < |xs| then xs[i] else head
    modifies list, head, xs
    ensures Ring(list, xs[..i]) && Ring(head, xs[i..])
  {
    if head.next == entry {
      assert i == 0;
      InitListHead(list);
      return;
    }
    list.next := head.next;
    list.next.prev := list;
    list.prev := entry.prev;
    list.prev.next := list;
    head.next := entry;
    entry.prev := head;
  }

  /** `__list_splice`: the entries of one ring go into another, between place `i - 1` and place `i`. */
  method Splice(list: ListHead, prev: ListHead, next: ListHead, ghost ys: seq<ListHead>, ghost head: ListHead,
                ghost xs: seq<ListHead>, ghost i: nat)
    requires Ring(list, ys) && Ring(head, xs) && Apart(list, ys, head, xs) && ys != [] && i <= |xs|
    requires prev == (if i == 0 then head else xs[i - 1]) && next == (if i == |xs| then head else xs[i])
    modifies ys, head, xs
    ensures Ring(head, xs[..i] + ys + xs[i..]) && list.next == old(list.next) && list.prev == old(list.prev)
  {
    ghost var all := xs[..i] + ys + xs[i..];
    Spliced(xs, ys, i);
    NothingShared(xs, ys);
    var first, last := list.next, list.prev;
    first.prev := prev;
    prev.next := first;
    last.next := next;
    next.prev := last;
    forall k | 0 <= k < |all|
      ensures all[k].next == if k + 1 < |all| then all[k + 1] else head
      ensures all[k].prev == if k > 0 then all[k - 1] else head
    {
      SplicedAt(xs, ys, i, k);
      if k + 1 < |all| {
        SplicedAt(xs, ys, i, k + 1);
      }
      if k > 0 {
        SplicedAt(xs, ys, i, k - 1);
      }
    }
    assert all[0] == if i > 0 then xs[0] else ys[0];
    assert all[|all| - 1] == if i < |xs| then xs[|xs| - 1] else ys[|ys| - 1];
  }

  lemma NothingShared(xs: seq<ListHead>, ys: seq<ListHead>)
    requires forall n :: n in xs ==> n !in ys
    ensures forall p, q :: 0 <= p < |xs| && 0 <= q < |ys| ==> xs[p] != ys[q]
  {
    forall p, q | 0 <= p < |xs| && 0 <= q < |ys| ensures xs[p] != ys[q] {
      assert xs[p] in xs && ys[q] in ys;
    }
  }

  lemma SplicedAt(xs: seq<ListHead>, ys: seq<ListHead>, i: nat, k: nat)
    requires i <= |xs| && k < |xs| + |ys|
    ensures (xs[..i] + ys + xs[i..])[k] == if k < i then xs[k] else if k < i + |ys| then ys[k - i] else xs[k - |ys|]
  {}

  lemma Spliced(xs: seq<ListHead>, ys: seq<ListHead>, i: nat)
    requires i <= |xs| && Distinct(xs) && Distinct(ys) && forall n :: n in xs ==> n !in ys
    ensures var all := xs[..i] + ys + xs[i..]; Distinct(all) && forall n :: n in all <==> n in xs || n in ys
  {
    var all := xs[..i] + ys + xs[i..];
    assert xs == xs[..i] + xs[i..];
    NothingShared(xs, ys);
    forall k, m | 0 <= k < m < |all| ensures all[k] != all[m] {
      SplicedAt(xs, ys, i, k);
      SplicedAt(xs, ys, i, m);
    }
  }

  /** `list_splice`: in front; the emptied head keeps its stale links. */
  method ListSplice(list: ListHead, head: ListHead, ghost ys: seq<ListHead>, ghost xs: seq<ListHead>)
    requires Ring(list, ys) && Ring(head, xs) && Apart(list, ys, head, xs)
    modifies ys, head, xs
    ensures Ring(head, ys + xs) && list.next == old(list.next) && list.prev == old(list.prev)
  {
    if !ListEmpty(list) {
      Splice(list, head, head.next, ys, head, xs, 0);
    }
    assert xs[..0] + ys + xs[0..] == ys + xs;
  }

  /** `list_splice_tail_init`: at the end; the emptied head becomes a ring of its own. */
  method ListSpliceTailInit(list: ListHead, head: ListHead, ghost ys: seq<ListHead>, ghost xs: seq<ListHead>)
    requires Ring(list, ys) && Ring(head, xs) && Apart(list, ys, head, xs)
    modifies list, ys, head, xs
    ensures Ring(head, xs + ys) && Ring(list, [])
  {
    assert xs[..|xs|] + ys + xs[|xs|..] == xs + ys;
    if !ListEmpty(list) {
      Splice(list, head.prev, head, ys, head, xs, |xs|);
      InitListHead(list);
    }
  }

  /** Cutting a list in two and splicing the front part back restores it: every node's links are as before. */
  method CutAndSplice(list: ListHead, head: ListHead, entry: ListHead, ghost xs: seq<ListHead>, ghost i: nat)
    requires Ring(head, xs) && list != head && list !in xs && i < |xs| && entry == xs[i]
    modifies list, head, xs
    ensures Ring(head, xs)
    ensures head.next == old(head.next) && head.prev == old(head.prev)
    ensures forall n :: n in xs ==> n.next == old(n.next) && n.prev == old(n.prev)
  {
    ListCutPosition(list, head, entry, xs, i);
    ListSplice(list, head, xs[..i + 1], xs[i + 1..]);
    assert xs[..i + 1] + xs[i + 1..] == xs;
  }

  /**
    `list_swap` of two entries: of one ring, neighbours in either order or not, or of two rings without common nodes.
    */
  method ListSwap(entry1: ListHead, entry2: ListHead,
                  ghost h1: ListHead, ghost xs: seq<ListHead>, ghost i: nat, ghost h2: ListHead,
                    ghost ys: seq<ListHead>, ghost j: nat)
    requires Ring(h1, xs) && i < |xs| && entry1 == xs[i] && Ring(h2, ys) && j < |ys| && entry2 == ys[j]
    requires if h1 == h2 then xs == ys && i != j else Apart(h1, xs, h2, ys)
    modifies h1, xs, h2, ys
    ensures h1 == h2 ==> Ring(h1, xs[i := entry2][j := entry1])
    ensures h1 != h2 ==> Ring(h1, xs[i := entry2]) && Ring(h2, ys[j := entry1])
  {
    hide Ring;
    ghost var rest := RemoveAt(ys, j);
    ghost var first, k := if h1 == h2 then rest else xs, if h1 == h2 && j < i then i - 1 else i;
    SwapReady(h1, xs, i, h2, ys, j);
    SwapAgain(h1, xs, i, h2, ys, j);
    var pos := entry2.prev;
    assert allocated(xs) && allocated(ys) && allocated(rest);
    ListDel(entry2, h2, ys, j);
    assert h1 != h2 ==> Ring(h1, xs);
    ReplaceEntry(entry1, entry2, h1, first, k);
    assert h1 != h2 ==> Ring(h2, rest);
    if pos == entry1 {
      pos := entry2;
    }
    ghost var second := if h1 == h2 then rest[k := entry2] else rest;
    assert h1 != h2 ==> Ring(h1, xs[i := entry2]);
    NextOf(h2, second, j, pos);
    ListAddBetween(entry1, pos, pos.next, h2, second, j);
    if h1 == h2 {
      Swapped(xs, i, j, entry1, entry2);
    } else {
      Reinserted(ys, j, entry1);
    }
  }

  /** What the swap needs to know before the surgery. */
  lemma SwapReady(h1: ListHead, xs: seq<ListHead>, i: nat, h2: ListHead, ys: seq<ListHead>, j: nat)
    requires Ring(h1, xs) && i < |xs| && Ring(h2, ys) && j < |ys|
    requires if h1 == h2 then xs == ys && i != j else Apart(h1, xs, h2, ys)
    ensures ys[j].prev == (if j > 0 then ys[j - 1] else h2)
    ensures ys[j] != h2 && ys[j] !in RemoveAt(ys, j) && xs[i] != ys[j] && xs[i] != h2
    ensures j > 0 ==> (ys[j - 1] == xs[i] <==> h1 == h2 && i == j - 1)
    ensures h1 != xs[i] && (h1 != h2 ==> h1 !in ys && h1 !in RemoveAt(ys, j))
    ensures h1 != h2 ==> forall m :: 0 <= m < |xs| ==> xs[m] !in ys && xs[m] != h2
    ensures h1 != h2 ==> forall m :: 0 <= m < |RemoveAt(ys, j)| ==>
      RemoveAt(ys, j)[m] !in xs && RemoveAt(ys, j)[m] != h1
  {
    RemovedMembers(ys, j);
    var rest := RemoveAt(ys, j);
    forall m | 0 <= m < |rest| ensures rest[m] != ys[j] {
      assert rest[m] == ys[if m < j then m else m + 1];
    }
    forall m | 0 <= m < |rest| && h1 != h2 ensures rest[m] !in xs && rest[m] != h1 {
      assert rest[m] in ys;
    }
    assert xs[i] in xs && ys[j] in ys;
    assert j > 0 ==> ys[j - 1] in ys;
  }

  /** None of the entries is touched when `entry` is linked into the ring of `head` and `ys`. */
  predicate Clear(zs: seq<ListHead>, ys: seq<ListHead>, entry: ListHead, head: ListHead) {
    forall m :: 0 <= m < |zs| ==> zs[m] !in ys && zs[m] != entry && zs[m] != head
  }

  /** What it needs to know before the first entry is linked again. */
  lemma SwapAgain(h1: ListHead, xs: seq<ListHead>, i: nat, h2: ListHead, ys: seq<ListHead>, j: nat)
    requires Ring(h1, xs) && i < |xs| && Ring(h2, ys) && j < |ys|
    requires if h1 == h2 then xs == ys && i != j else Apart(h1, xs, h2, ys)
    ensures h1 == h2 ==> xs[i] !in RemoveAt(ys, j)[if j < i then i - 1 else i := ys[j]]
    ensures h1 != h2 ==> xs[i] !in RemoveAt(ys, j) && Clear(xs[i := ys[j]], RemoveAt(ys, j), xs[i], h2)
  {
    RemovedMembers(ys, j);
    var rest := RemoveAt(ys, j);
    var zs := xs[i := ys[j]];
    forall m | 0 <= m < |zs| && h1 != h2 ensures zs[m] !in rest && zs[m] != xs[i] && zs[m] != h2 {
      SwapReady(h1, xs, i, h2, ys, j);
      if m != i {
        assert zs[m] == xs[m] && xs[m] in xs;
      }
    }
    forall m | 0 <= m < |rest| ensures rest[m] != ys[j] && rest[m] in ys &&
      (rest[m] == xs[i] ==> h1 == h2 && m == if j < i then i - 1 else i) {
      assert rest[m] == ys[if m < j then m else m + 1];
      assert h1 != h2 ==> xs[i] in xs;
    }
  }

  /** The neighbour behind the node before place `j`. */
  lemma NextOf(head: ListHead, xs: seq<ListHead>, j: nat, pos: ListHead)
    requires Ring(head, xs) && j <= |xs| && pos == if j == 0 then head else xs[j - 1]
    ensures pos.next == if j == |xs| then head else xs[j]
  {}

  lemma Reinserted(ys: seq<ListHead>, j: nat, entry: ListHead)
    requires j < |ys|
    ensures InsertAt(RemoveAt(ys, j), j, entry) == ys[j := entry]
  {}

  lemma Swapped(xs: seq<ListHead>, i: nat, j: nat, entry1: ListHead, entry2: ListHead)
    requires i < |xs| && j < |xs| && i != j
    ensures var k := if i < j then i else i - 1;
            InsertAt(RemoveAt(xs, j)[k := entry2], j, entry1) == xs[i := entry2][j := entry1]
  {
    var k := if i < j then i else i - 1;
    var zs := RemoveAt(xs, j)[k := entry2];
    var all, goal := InsertAt(zs, j, entry1), xs[i := entry2][j := entry1];
    forall m | 0 <= m < |goal| ensures all[m] == goal[m] {
      if m < j {
        assert all[m] == zs[m];
      } else if m > j {
        assert all[m] == zs[m - 1];
      }
    }
  }

  /** `list_move_tail`: to the end of the entry's own list or of another one without common nodes. */
  method ListMoveTail(entry: ListHead, head: ListHead,
                      ghost h1: ListHead, ghost xs: seq<ListHead>, ghost i: nat, ghost ys: seq<ListHead>)
    requires Ring(h1, xs) && i < |xs| && entry == xs[i] && Ring(head, ys)
    requires if h1 == head then xs == ys else Apart(h1, xs, head, ys)
    modifies h1, xs, head, ys
    ensures h1 == head ==> Ring(head, RemoveAt(xs, i) + [entry])
    ensures h1 != head ==> Ring(h1, RemoveAt(xs, i)) && Ring(head, ys + [entry])
  {
    MoveReady(h1, xs, i, head, ys);
    hide Ring;
    assert allocated(xs) && allocated(ys) && allocated(RemoveAt(xs, i));
    ListDelEntry(entry, h1, xs, i);
    assert h1 != head ==> Ring(head, ys);
    ListAddTail(entry, head, if h1 == head then RemoveAt(xs, i) else ys);
  }

  /** What the move needs to know before the surgery. */
  lemma MoveReady(h1: ListHead, xs: seq<ListHead>, i: nat, head: ListHead, ys: seq<ListHead>)
    requires Ring(h1, xs) && i < |xs|
    requires if h1 == head then xs == ys else Apart(h1, xs, head, ys)
    ensures xs[i] != head && xs[i] !in RemoveAt(xs, i) && (h1 != head ==> xs[i] !in ys && h1 !in ys && h1 != xs[i])
    ensures h1 != head ==> forall m :: 0 <= m < |ys| ==> ys[m] !in xs && ys[m] != h1
    ensures h1 != head ==> Clear(RemoveAt(xs, i), ys, xs[i], head)
  {
    RemovedMembers(xs, i);
    var rest := RemoveAt(xs, i);
    assert xs[i] in xs;
    forall m | 0 <= m < |rest| ensures rest[m] != xs[i] && (h1 != head ==> rest[m] !in ys && rest[m] != head) {
      assert rest[m] == xs[if m < i then m else m + 1];
      assert rest[m] in xs;
    }
    assert forall m :: 0 <= m < |ys| ==> ys[m] in ys;
  }

  /**
    `list_rotate_to_front`: moves the head in front of the entry, so that the entry comes first and the order stays.
    */
  method ListRotateToFront(list: ListHead, head: ListHead, ghost xs: seq<ListHead>, ghost i: nat)
    requires Ring(head, xs) && i < |xs| && list == xs[i]
    modifies head, xs
    ensures Ring(head, xs[i..] + xs[..i])
  {
    ghost var a, b := xs[..i], xs[i + 1..];
    assert xs == a + [list] + b;
    Rotate(head, a, list, b);
    ListMoveTail(head, list, list, b + [head] + a, |b|, b + [head] + a);
    assert RemoveAt(b + [head] + a, |b|) + [head] == (b + a) + [head] + [];
    Rotate(list, b + a, head, []);
    assert [] + [list] + (b + a) == xs[i..] + xs[..i];
  }
}
