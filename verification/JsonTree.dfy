/**
  cJSON's mutable trees: nodes with next/prev/child links, the allocation hooks they come from,
  and the ghost outline by which contracts speak about a whole tree.
  */
module JsonTree {
  import opened Bytes
  import J = JsonValues

  datatype Kind =
    | InvalidKind | FalseKind | TrueKind | NullKind
    | NumberKind | StringKind | ArrayKind | ObjectKind | RawKind

  /** `struct cJSON`. The flag bits of `type` are separate fields; `text` is `valuestring` and `key` is `string`. */
  class Node {
    var next: Node?
    var prev: Node?
    var child: Node?
    var kind: Kind
    var isReference: bool
    var keyIsConst: bool
    var number: real
    var text: array?<byte>
    var key: array?<byte>

    /** What `memset` leaves after `cJSON_New_Item`. */
    constructor ()
      ensures Blank() && next == null && prev == null && key == null && kind == InvalidKind
    {
      next, prev, child := null, null, null;
      kind, isReference, keyIsConst, number := InvalidKind, false, false, 0.0;
      text, key := null, null;
    }

    /** Nothing hangs below the node and no flag is set. */
    predicate Blank()
      reads this
    {
      child == null && text == null && !isReference && !keyIsConst
    }
  }

  /**
    The allocation hooks. `refuses` is an arbitrary pattern of failures: the n-th request is turned down
    when `refuses(n)` holds. `live` is the set of blocks handed out and not yet given back.
    */
  class Heap {
    const refuses: nat -> bool
    /** Whether `realloc` may be used: only when neither `malloc` nor `free` has been replaced. */
    const reallocates: bool
    var calls: nat
    ghost var live: set<object>

    constructor (refuses: nat -> bool, reallocates: bool)
      ensures live == {} && calls == 0 && this.refuses == refuses && this.reallocates == reallocates
    {
      this.refuses, this.reallocates := refuses, reallocates;
      calls, live := 0, {};
    }

    /** Some request since the `start`-th one was turned down. */
    ghost predicate RefusedSince(start: nat)
      reads this
    {
      exists n :: start <= n < calls && refuses(n)
    }

    method NewItem() returns (n: Node?)
      modifies this
      ensures calls == old(calls) + 1 && (n == null <==> refuses(old(calls)))
      ensures n == null ==> live == old(live) && RefusedSince(old(calls))
      ensures n != null ==> fresh(n) && live == old(live) + {n}
      ensures n != null ==> n.Blank() && n.next == null && n.prev == null && n.key == null && n.kind == InvalidKind
    {
      calls := calls + 1;
      if refuses(calls - 1) {
        return null;
      }
      n := new Node();
      live := live + {n};
    }

    method NewBlock(size: nat) returns (b: array?<byte>)
      modifies this
      ensures calls == old(calls) + 1 && (b == null <==> refuses(old(calls)))
      ensures b == null ==> live == old(live) && RefusedSince(old(calls))
      ensures b != null ==> fresh(b) && b.Length == size && live == old(live) + {b}
    {
      calls := calls + 1;
      if refuses(calls - 1) {
        return null;
      }
      b := new byte[size];
      live := live + {b};
    }

    /** `realloc`: a refused request leaves the old block alone. */
    method Resize(b: array<byte>, size: nat) returns (r: array?<byte>)
      requires b in live
      modifies this, b
      ensures calls == old(calls) + 1 && (r == null <==> refuses(old(calls)))
      ensures r == null ==> live == old(live) && RefusedSince(old(calls)) && b[..] == old(b[..])
      ensures r != null ==> fresh(r) && r.Length == size && live == old(live) - {b} + {r}
      ensures r != null ==> forall i :: 0 <= i < size && i < b.Length ==> r[i] == old(b[i])
    {
      r := NewBlock(size);
      if r != null {
        forall i | 0 <= i < size && i < b.Length {
          r[i] := b[i];
        }
        ReleaseBlock(b);
      }
    }

    /** A block can be given back only while it is live, and nothing is known of a node once it has been. */
    method ReleaseNode(n: Node)
      requires n in live
      modifies this`live, n
      ensures live == old(live) - {n}
    {
      live := live - {n};
    }

    method ReleaseBlock(b: array<byte>)
      requires b in live
      modifies this`live, b
      ensures live == old(live) - {b}
    {
      live := live - {b};
    }
  }

  /** A ghost outline of the tree below a node. */
  datatype Shape = Shape(node: Node, text: array?<byte>, key: array?<byte>, isReference: bool, keyIsConst: bool,
                         kids: seq<Shape>)

  ghost function BlockSet(b: array?<byte>): set<object> {
    if b == null then {} else {b}
  }

  /** The blocks hanging below a node: its text and everything its children own. */
  ghost function Inside(s: Shape): (r: set<object>)
    ensures forall o :: o in r ==> o is Node || o is array<byte>
    decreases s, 0
  {
    if s.isReference then {} else BlockSet(s.text) + OwnedAll(s.kids)
  }

  ghost function OwnKey(s: Shape): set<object> {
    if s.keyIsConst then {} else BlockSet(s.key)
  }

  /** What `cJSON_Delete` has to free: not what is only referred to, and no constant key. */
  ghost function Owned(s: Shape): (r: set<object>)
    ensures forall o :: o in r ==> o is Node || o is array<byte>
    decreases s, 1
  {
    {s.node} + OwnKey(s) + Inside(s)
  }

  ghost function OwnedAll(kids: seq<Shape>): (r: set<object>)
    ensures forall o :: o in r ==> o is Node || o is array<byte>
    decreases kids
  {
    if kids == [] then {} else OwnedAll(kids[..|kids| - 1]) + Owned(kids[|kids| - 1])
  }

  /** No block is owned twice. */
  ghost predicate Unique(s: Shape)
    decreases s
  {
    && s.node !in Inside(s)
    && OwnKey(s) !! Inside(s)
    && (!s.isReference ==> BlockSet(s.text) !! OwnedAll(s.kids) && UniqueAll(s.kids))
  }

  ghost predicate UniqueAll(kids: seq<Shape>)
    decreases kids
  {
    kids == [] ||
    (var n := |kids| - 1; UniqueAll(kids[..n]) && Unique(kids[n]) && OwnedAll(kids[..n]) !! Owned(kids[n]))
  }

  function First(kids: seq<Shape>): Node? {
    if kids == [] then null else kids[0].node
  }

  ghost function Nodes(s: Shape): set<Node>
    decreases s, 1
  {
    {s.node} + NodesAll(s.kids)
  }

  ghost function NodesAll(kids: seq<Shape>): (r: set<Node>)
    ensures forall i :: 0 <= i < |kids| ==> Nodes(kids[i]) <= r
    decreases kids
  {
    if kids == [] then {} else NodesAll(kids[..|kids| - 1]) + Nodes(kids[|kids| - 1])
  }

  /** The nodes form one chain, in order, linked both ways. */
  ghost predicate Chain(kids: seq<Shape>)
    reads NodesAll(kids)`next, NodesAll(kids)`prev
  {
    && (forall i {:trigger kids[i].node.next} :: 0 <= i < |kids| - 1 ==> kids[i].node.next == kids[i + 1].node)
    && (forall i {:trigger kids[i].node.prev} :: 1 <= i < |kids| ==> kids[i].node.prev == kids[i - 1].node)
    && (kids != [] ==> kids[0].node.prev == null && kids[|kids| - 1].node.next == null)
  }

  /**
    The node and everything below it is linked as the outline says. When `through` is false, what a reference
    node refers to is left open: it belongs to another tree.
    */
  ghost predicate Linked(s: Shape, through: bool)
    reads s.node`child, s.node`text, s.node`key, s.node`isReference, s.node`keyIsConst, NodesAll(s.kids)
    decreases s
  {
    && s.node.isReference == s.isReference && s.node.keyIsConst == s.keyIsConst && s.node.key == s.key
    && (if s.isReference && !through then s.kids == [] && s.text == null
        else s.node.text == s.text && s.node.child == First(s.kids) && Chain(s.kids) && LinkedAll(s.kids, through))
  }

  ghost predicate LinkedAll(kids: seq<Shape>, through: bool)
    reads NodesAll(kids)
    decreases kids
  {
    forall i :: 0 <= i < |kids| ==> Linked(kids[i], through)
  }

  /** All blocks the outline names. */
  ghost function Blocks(s: Shape): set<array<byte>>
    decreases s, 1
  {
    (if s.text == null then {} else {s.text}) + (if s.key == null then {} else {s.key}) + BlocksAll(s.kids)
  }

  ghost function BlocksAll(kids: seq<Shape>): (r: set<array<byte>>)
    ensures forall i :: 0 <= i < |kids| ==> Blocks(kids[i]) <= r
    decreases kids
  {
    if kids == [] then {} else BlocksAll(kids[..|kids| - 1]) + Blocks(kids[|kids| - 1])
  }

  /** Every text and key is a C string. */
  ghost predicate Strings(s: Shape)
    reads Blocks(s)
    decreases s
  {
    Terminated(s.text) && Terminated(s.key) && forall i :: 0 <= i < |s.kids| ==> Strings(s.kids[i])
  }

  /** The JSON value a tree stands for. */
  ghost function Val(s: Shape): J.Json
    reads Nodes(s)`kind, Nodes(s)`number, Blocks(s)
    decreases s, 1
  {
    match s.node.kind
    case InvalidKind => J.Invalid
    case FalseKind => J.False
    case TrueKind => J.True
    case NullKind => J.Null
    case NumberKind => J.Number(s.node.number)
    case StringKind => J.String(StringOf(s.text))
    case RawKind => if s.text == null then J.Invalid else J.Raw(StringOf(s.text))
    case ArrayKind => J.Array(ElemsFrom(s.kids, 0))
    case ObjectKind => J.Object(MembersFrom(s.kids, 0))
  }

  ghost function ElemsFrom(kids: seq<Shape>, i: nat): J.Elems
    requires i <= |kids|
    reads NodesAll(kids)`kind, NodesAll(kids)`number, BlocksAll(kids)
    decreases kids, 0, |kids| - i
  {
    if i == |kids| then J.NoElems else J.Elem(Val(kids[i]), ElemsFrom(kids, i + 1))
  }

  ghost function MembersFrom(kids: seq<Shape>, i: nat): J.Members
    requires i <= |kids|
    reads NodesAll(kids)`kind, NodesAll(kids)`number, BlocksAll(kids)
    decreases kids, 0, |kids| - i
  {
    if i == |kids| then J.NoMembers else J.Member(StringOf(kids[i].key), Val(kids[i]), MembersFrom(kids, i + 1))
  }

  // ----- facts about outlines -----

  lemma OwnedAllPrefix(kids: seq<Shape>, i: nat)
    requires i < |kids|
    ensures OwnedAll(kids[..i + 1]) == OwnedAll(kids[..i]) + Owned(kids[i])
  {
    assert kids[..i + 1][..i] == kids[..i];
  }

  lemma {:induction false} OwnedAllMember(kids: seq<Shape>, i: nat)
    requires i < |kids|
    ensures Owned(kids[i]) <= OwnedAll(kids)
    decreases |kids|
  {
    var n := |kids| - 1;
    if i < n {
      OwnedAllMember(kids[..n], i);
    }
  }

  lemma {:induction false} OwnedAllApart(kids: seq<Shape>, i: nat, blocks: set<object>)
    requires i <= |kids| && forall j :: 0 <= j < i ==> blocks !! Owned(kids[j])
    ensures blocks !! OwnedAll(kids[..i])
    decreases i
  {
    if i > 0 {
      OwnedAllApart(kids, i - 1, blocks);
      OwnedAllPrefix(kids, i - 1);
    }
  }

  /** Different members of a unique forest own different blocks. */
  lemma {:induction false} UniqueAllMember(kids: seq<Shape>, i: nat)
    requires UniqueAll(kids) && i < |kids|
    ensures Unique(kids[i])
    ensures forall j :: 0 <= j < |kids| && j != i ==> Owned(kids[i]) !! Owned(kids[j])
    decreases |kids|
  {
    var n := |kids| - 1;
    var front := kids[..n];
    if i < n {
      UniqueAllMember(front, i);
      OwnedAllMember(front, i);
    }
    forall j | 0 <= j < n && j != i ensures Owned(kids[i]) !! Owned(kids[j]) {
      assert kids[j] == front[j];
      OwnedAllMember(front, j);
    }
  }

  /** A forest and one more tree, with no block in common. */
  lemma AppendShape(kids: seq<Shape>, d: Shape)
    ensures (kids + [d])[..|kids|] == kids
    ensures OwnedAll(kids + [d]) == OwnedAll(kids) + Owned(d)
    ensures UniqueAll(kids + [d]) <==> UniqueAll(kids) && Unique(d) && OwnedAll(kids) !! Owned(d)
    ensures NodesAll(kids + [d]) == NodesAll(kids) + Nodes(d)
    ensures BlocksAll(kids + [d]) == BlocksAll(kids) + Blocks(d)
  {
    assert (kids + [d])[..|kids|] == kids;
  }

  lemma LeafShape(c: Shape)
    requires c.kids == []
    ensures OwnedAll(c.kids) == {} && UniqueAll(c.kids) && NodesAll(c.kids) == {} && BlocksAll(c.kids) == {}
    ensures Inside(c) == if c.isReference then {} else BlockSet(c.text)
    ensures Unique(c) <==> OwnKey(c) !! Inside(c)
  {}

  /** A tree owns all nodes it is made of. */
  lemma {:induction false} NodesOwned(s: Shape)
    requires Linked(s, false)
    ensures forall n :: n in NodesAll(s.kids) ==> n in Inside(s)
    ensures forall n :: n in Nodes(s) ==> n in Owned(s)
    decreases s, 1
  {
    if s.kids != [] {
      NodesOwnedAll(s.kids);
    }
  }

  lemma {:induction false} NodesOwnedAll(kids: seq<Shape>)
    requires LinkedAll(kids, false)
    ensures forall n :: n in NodesAll(kids) ==> n in OwnedAll(kids)
    decreases kids, 0
  {
    if kids != [] {
      var n := |kids| - 1;
      assert forall i :: 0 <= i < n ==> kids[..n][i] == kids[i];
      NodesOwnedAll(kids[..n]);
      NodesOwned(kids[n]);
    }
  }

  /** No node of the tree is a reference, so it owns everything it shows. */
  predicate RefFree(s: Shape)
    decreases s
  {
    !s.isReference && RefFreeAll(s.kids)
  }

  predicate RefFreeAll(kids: seq<Shape>)
    decreases kids
  {
    forall i :: 0 <= i < |kids| ==> RefFree(kids[i])
  }

  lemma {:induction false} LinkedThrough(s: Shape)
    requires RefFree(s)
    ensures Linked(s, true) == Linked(s, false)
    decreases s
  {
    forall i | 0 <= i < |s.kids| ensures Linked(s.kids[i], true) == Linked(s.kids[i], false) {
      LinkedThrough(s.kids[i]);
    }
  }

  /** The members of a unique forest are different nodes, and none of them lies below a member. */
  lemma NodesApart(kids: seq<Shape>)
    requires UniqueAll(kids) && LinkedAll(kids, false)
    ensures forall i, j :: 0 <= i < |kids| && 0 <= j < |kids| ==> kids[j].node !in NodesAll(kids[i].kids)
    ensures forall i, j :: 0 <= i < j < |kids| ==> kids[i].node != kids[j].node
  {
    forall i, j | 0 <= i < |kids| && 0 <= j < |kids|
      ensures kids[j].node !in NodesAll(kids[i].kids)
      ensures i != j ==> kids[i].node != kids[j].node
    {
      UniqueAllMember(kids, i);
      NodesOwned(kids[i]);
      assert kids[j].node in Owned(kids[j]);
    }
  }

  /** `suffix_object`. */
  method SuffixObject(prev: Node, item: Node)
    modifies prev`next, item`prev
    ensures prev.next == item && item.prev == prev
  {
    prev.next := item;
    item.prev := prev;
  }

  /** A chain whose last link now leads to one more node, which leads back. */
  lemma ChainExtended(kids: seq<Shape>, d: Shape)
    requires kids != []
    requires forall i {:trigger kids[i].node.next} :: 0 <= i < |kids| - 1 ==> kids[i].node.next == kids[i + 1].node
    requires forall i {:trigger kids[i].node.prev} :: 1 <= i < |kids| ==> kids[i].node.prev == kids[i - 1].node
    requires kids[0].node.prev == null
    requires kids[|kids| - 1].node.next == d.node && d.node.prev == kids[|kids| - 1].node && d.node.next == null
    ensures Chain(kids + [d])
  {
  }

  /** `suffix_object` on the last of some siblings and a tree of its own extends the chain and leaves all else alone. */
  method Append(prev: Node, item: Node, ghost kids: seq<Shape>, ghost d: Shape)
    requires kids != [] && prev == kids[|kids| - 1].node && item == d.node
    requires Chain(kids) && LinkedAll(kids, false) && Linked(d, false) && UniqueAll(kids + [d])
    requires item.next == null
    modifies prev`next, item`prev
    ensures Chain(kids + [d]) && LinkedAll(kids + [d], false)
  {
    hide Owned, Inside, OwnKey, OwnedAll, Unique, UniqueAll, Linked;
    ghost var all := kids + [d];
    NodesApart(all) by {
      assert LinkedAll(all, false);
    }
    assert all[|kids|] == d && forall i :: 0 <= i < |kids| ==> all[i] == kids[i];
    assert forall i :: 0 <= i < |all| ==> allocated(NodesAll(all[i].kids));
    label before:
    SuffixObject(prev, item);
    assert Chain(all) by {
      ChainExtended(kids, d);
    }
    forall i | 0 <= i < |all| ensures Linked(all[i], false) {
      forall n | n in NodesAll(all[i].kids) ensures old@before(allocated(n)) && unchanged@before(n) {}
      assert old@before(Linked(all[i], false));
    }
  }
}
