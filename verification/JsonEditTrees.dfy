/**
  Editing whole trees: inserting or detaching a subtree keeps every invariant of the tree and edits its value in one
  place.
  */
module JsonEditTrees {
  import opened Bytes
  import opened Sequences
  import J = JsonValues
  import opened JsonTree
  import opened JsonDuplicate
  import opened JsonEdits

  /** The nodes of some siblings. */
  ghost function Heads(kids: seq<Shape>): (nodes: seq<Node>)
    ensures |nodes| == |kids| && forall i :: 0 <= i < |kids| ==> nodes[i] == kids[i].node
  {
    seq(|kids|, i requires 0 <= i < |kids| => kids[i].node)
  }

  /** The elements of an array value in order. */
  function Listed(es: J.Elems): seq<J.Json> {
    if es.NoElems? then [] else [es.head] + Listed(es.tail)
  }

  ghost function Values(kids: seq<Shape>): (vs: seq<J.Json>)
    reads NodesAll(kids)`kind, NodesAll(kids)`number, BlocksAll(kids)
    ensures |vs| == |kids| && forall i :: 0 <= i < |kids| ==> vs[i] == Val(kids[i])
  {
    if kids == [] then [] else Values(kids[..|kids| - 1]) + [Val(kids[|kids| - 1])]
  }

  lemma {:induction false} ListedValues(kids: seq<Shape>, i: nat)
    requires i <= |kids|
    ensures Listed(ElemsFrom(kids, i)) == Values(kids)[i..]
    decreases |kids| - i
  {
    if i < |kids| {
      ListedValues(kids, i + 1);
      assert Values(kids)[i..] == [Val(kids[i])] + Values(kids)[i + 1..];
    }
  }

  lemma InsertedValues(kids: seq<Shape>, k: nat, d: Shape)
    requires k <= |kids|
    ensures Values(InsertAt(kids, k, d)) == InsertAt(Values(kids), k, Val(d))
  {
    hide Val, InsertAt;
  }

  lemma RemovedValues(kids: seq<Shape>, k: nat)
    requires k < |kids|
    ensures Values(RemoveAt(kids, k)) == RemoveAt(Values(kids), k)
  {
    hide Val, RemoveAt;
  }

  /** The value of an array node lists the values of its children. */
  lemma ArrayLists(s: Shape)
    requires s.node.kind == ArrayKind
    ensures Val(s).Array? && Listed(Val(s).elems) == Values(s.kids)
  {
    ListedValues(s.kids, 0);
    assert Values(s.kids)[0..] == Values(s.kids);
  }

  /** The members of an object value in order. */
  function Pairs(ms: J.Members): seq<(bytes, J.Json)> {
    if ms.NoMembers? then [] else [(ms.key, ms.value)] + Pairs(ms.rest)
  }

  /** Key and value of a child. */
  ghost function NamedValue(c: Shape): (bytes, J.Json)
    reads Nodes(c)`kind, Nodes(c)`number, Blocks(c)
  {
    (StringOf(c.key), Val(c))
  }

  ghost function Named(kids: seq<Shape>): (ms: seq<(bytes, J.Json)>)
    reads NodesAll(kids)`kind, NodesAll(kids)`number, BlocksAll(kids)
    ensures |ms| == |kids| && forall i :: 0 <= i < |kids| ==> ms[i] == NamedValue(kids[i])
  {
    if kids == [] then [] else Named(kids[..|kids| - 1]) + [NamedValue(kids[|kids| - 1])]
  }

  lemma {:induction false} PairsNamed(kids: seq<Shape>, i: nat)
    requires i <= |kids|
    ensures Pairs(MembersFrom(kids, i)) == Named(kids)[i..]
    decreases |kids| - i
  {
    if i < |kids| {
      hide Val, StringOf, Named;
      PairsNamed(kids, i + 1);
      assert Named(kids)[i..] == [NamedValue(kids[i])] + Named(kids)[i + 1..];
    }
  }

  /** The value of an object node lists the keys and values of its children. */
  lemma ObjectLists(s: Shape)
    requires s.node.kind == ObjectKind
    ensures Val(s).Object? && Pairs(Val(s).members) == Named(s.kids)
  {
    PairsNamed(s.kids, 0);
    assert Named(s.kids)[0..] == Named(s.kids);
  }

  lemma InsertedNamed(kids: seq<Shape>, k: nat, d: Shape)
    requires k <= |kids|
    ensures Named(InsertAt(kids, k, d)) == InsertAt(Named(kids), k, NamedValue(d))
  {
    hide NamedValue, InsertAt, Named;
  }

  lemma RemovedNamed(kids: seq<Shape>, k: nat)
    requires k < |kids|
    ensures Named(RemoveAt(kids, k)) == RemoveAt(Named(kids), k)
  {
    hide NamedValue, RemoveAt, Named;
  }

  lemma ReplacedNamed(kids: seq<Shape>, k: nat, d: Shape)
    requires k < |kids|
    ensures Named(kids[k := d]) == Named(kids)[k := NamedValue(d)]
  {
    hide NamedValue, Named;
  }

  // ----- unique forests, whatever the order -----

  ghost predicate Disjoint(kids: seq<Shape>) {
    forall i, j :: 0 <= i < j < |kids| ==> Owned(kids[i]) !! Owned(kids[j])
  }

  lemma {:induction false} UniqueForest(kids: seq<Shape>)
    requires Disjoint(kids) && forall i :: 0 <= i < |kids| ==> Unique(kids[i])
    ensures UniqueAll(kids)
    decreases |kids|
  {
    hide Unique, Owned;
    if kids != [] {
      var n := |kids| - 1;
      assert forall i :: 0 <= i < n ==> kids[..n][i] == kids[i];
      UniqueForest(kids[..n]);
      OwnedAllApart(kids, n, Owned(kids[n]));
    }
  }

  lemma {:induction false} OwnedTogether(kids: seq<Shape>, o: object)
    ensures o in OwnedAll(kids) <==> exists i :: 0 <= i < |kids| && o in Owned(kids[i])
    decreases |kids|
  {
    hide Owned;
    if kids != [] {
      var n := |kids| - 1;
      OwnedTogether(kids[..n], o);
      assert forall i :: 0 <= i < n ==> kids[..n][i] == kids[i];
      if i :| 0 <= i < |kids| && o in Owned(kids[i]) {
        assert i < n ==> o in Owned(kids[..n][i]);
      }
    }
  }

  lemma InsertedOwns(kids: seq<Shape>, k: nat, d: Shape, o: object)
    requires k <= |kids|
    ensures o in OwnedAll(InsertAt(kids, k, d)) <==> o in OwnedAll(kids) || o in Owned(d)
  {
    hide Owned, OwnedAll, InsertAt;
    var all := InsertAt(kids, k, d);
    OwnedTogether(all, o);
    OwnedTogether(kids, o);
    if o in OwnedAll(all) {
      var i :| 0 <= i < |all| && o in Owned(all[i]);
      assert i != k ==> all[i] == kids[if i < k then i else i - 1];
    }
    if o in OwnedAll(kids) {
      var i :| 0 <= i < |kids| && o in Owned(kids[i]);
      assert all[if i < k then i else i + 1] == kids[i];
    }
    assert all[k] == d;
  }

  lemma InsertedOwned(kids: seq<Shape>, k: nat, d: Shape)
    requires k <= |kids|
    ensures OwnedAll(InsertAt(kids, k, d)) == OwnedAll(kids) + Owned(d)
  {
    hide Owned, OwnedAll, InsertAt;
    var all := OwnedAll(InsertAt(kids, k, d));
    forall o | o in all + OwnedAll(kids) + Owned(d) ensures o in all <==> o in OwnedAll(kids) + Owned(d) {
      InsertedOwns(kids, k, d, o);
    }
  }

  lemma InsertedForest(kids: seq<Shape>, k: nat, d: Shape)
    requires k <= |kids| && UniqueAll(kids) && Unique(d) && OwnedAll(kids) !! Owned(d)
    ensures UniqueAll(InsertAt(kids, k, d))
  {
    hide Unique, Owned, UniqueAll, OwnedAll, InsertAt;
    var all := InsertAt(kids, k, d);
    forall i | 0 <= i < |kids| ensures Unique(kids[i]) && Owned(kids[i]) <= OwnedAll(kids) {
      UniqueAllMember(kids, i);
      OwnedAllMember(kids, i);
    }
    forall i, j | 0 <= i < j < |all| ensures Owned(all[i]) !! Owned(all[j]) {
      if i != k {
        UniqueAllMember(kids, if i < k then i else i - 1);
      }
    }
    UniqueForest(all);
  }

  lemma RemovedForest(kids: seq<Shape>, k: nat)
    requires k < |kids| && UniqueAll(kids)
    ensures var rest := RemoveAt(kids, k);
            UniqueAll(rest) && Unique(kids[k]) && OwnedAll(rest) !! Owned(kids[k]) &&
              OwnedAll(kids) == OwnedAll(rest) + Owned(kids[k])
  {
    hide Unique, Owned, UniqueAll, OwnedAll;
    var rest := RemoveAt(kids, k);
    UniqueAllMember(kids, k);
    forall i | 0 <= i < |rest| ensures Unique(rest[i]) && Owned(rest[i]) !! Owned(kids[k]) {
      UniqueAllMember(kids, if i < k then i else i + 1);
    }
    forall i, j | 0 <= i < j < |rest| ensures Owned(rest[i]) !! Owned(rest[j]) {
      UniqueAllMember(kids, if i < k then i else i + 1);
    }
    UniqueForest(rest);
    assert rest[..|rest|] == rest;
    OwnedAllApart(rest, |rest|, Owned(kids[k]));
    InsertedOwned(rest, k, kids[k]);
    InsertRemoved(kids, k);
  }

  // ----- links and siblings -----

  lemma SiblingsOf(s: Shape)
    requires Linked(s, false) && Unique(s) && !s.isReference
    ensures Siblings(s.node, Heads(s.kids))
  {
    NodesApart(s.kids);
  }

  /** Siblings of linked trees make a linked tree. */
  lemma LinkedSiblings(s: Shape)
    requires Siblings(s.node, Heads(s.kids)) && LinkedAll(s.kids, false) && !s.isReference
    requires !s.node.isReference && s.node.keyIsConst == s.keyIsConst && s.node.key == s.key && s.node.text == s.text
    ensures Linked(s, false)
  {
    var kids, heads := s.kids, Heads(s.kids);
    forall i | 0 <= i < |kids|
      ensures kids[i].node.next == (if i + 1 < |kids| then kids[i + 1].node else null)
      ensures kids[i].node.prev == (if i > 0 then kids[i - 1].node else null)
    {
      assert heads[i].next == if i + 1 < |heads| then heads[i + 1] else null;
      assert heads[i].prev == if i > 0 then heads[i - 1] else null;
    }
  }

  /** A tree that may be edited: sound, with children of its own. */
  ghost predicate Editable(list: Node, s: Shape)
    reads s.node, NodesAll(s.kids), Blocks(s)
  {
    list == s.node && Sound(s) && Terminated(s.text) && Terminated(s.key)
  }

  lemma EditableParts(list: Node, s: Shape)
    requires Editable(list, s)
    ensures list == s.node && !s.isReference && !list.isReference && list.text == s.text &&
      list.keyIsConst == s.keyIsConst && list.key == s.key
    ensures Terminated(s.text) && Terminated(s.key) && Unique(s) && UniqueAll(s.kids) && LinkedAll(s.kids, false)
    ensures forall i :: 0 <= i < |s.kids| ==> Linked(s.kids[i], false) && RefFree(s.kids[i]) && Strings(s.kids[i])
    ensures Siblings(list, Heads(s.kids))
  {
    SiblingsOf(s);
    assert RefFreeAll(s.kids);
  }

  /** The node of a tree is no part of what hangs below it. */
  lemma RootApart(list: Node, s: Shape)
    requires Editable(list, s)
    ensures list !in NodesAll(s.kids)
  {
    NodesOwned(s);
  }

  /** The subtree below a child has neither the parent, nor a sibling, nor the new item in it. */
  ghost predicate Clear(c: Shape, list: Node, newitem: Node, heads: seq<Node>) {
    && c.node != list && list !in NodesAll(c.kids) && newitem !in NodesAll(c.kids)
    && forall n :: n in heads ==> n !in NodesAll(c.kids)
  }

  lemma ClearKid(list: Node, newitem: Node, s: Shape, i: nat, foreign: set<object>)
    requires Editable(list, s) && i < |s.kids| && newitem in foreign && Owned(s) !! foreign
    ensures Clear(s.kids[i], list, newitem, Heads(s.kids))
  {
    EditableParts(list, s);
    RootApart(list, s);
    NodesApart(s.kids);
    NodesOwned(s);
    hide Owned, Linked, Unique, Strings, RefFree, UniqueAll;
    assert Nodes(s.kids[i]) <= NodesAll(s.kids);
  }

  lemma ClearNew(list: Node, newitem: Node, s: Shape, d: Shape)
    requires Editable(list, s) && Editable(newitem, d) && Owned(s) !! Owned(d)
    ensures Clear(d, list, newitem, Heads(s.kids)) && newitem !in Heads(s.kids) && newitem != list
  {
    NodesOwned(s);
    NodesOwned(d);
    hide Linked, Strings, RefFree;
    assert list in Owned(s) && newitem in Owned(d);
    forall n | n in Heads(s.kids) ensures n in Owned(s) && n !in Owned(d) {
      var i :| 0 <= i < |s.kids| && Heads(s.kids)[i] == n;
      assert n in Nodes(s.kids[i]) && Nodes(s.kids[i]) <= NodesAll(s.kids);
    }
  }

  /** What a tree with children of its own owns, and when it owns nothing twice. */
  lemma OwnParts(s: Shape)
    requires !s.isReference
    ensures Owned(s) == {s.node} + OwnKey(s) + (BlockSet(s.text) + OwnedAll(s.kids))
    ensures Unique(s) <==>
      && s.node !in BlockSet(s.text) + OwnedAll(s.kids) && OwnKey(s) !! BlockSet(s.text) + OwnedAll(s.kids)
      && BlockSet(s.text) !! OwnedAll(s.kids) && UniqueAll(s.kids)
  {}

  lemma InsertedUnique(s: Shape, d: Shape, k: nat)
    requires !s.isReference && Unique(s) && Unique(d) && Owned(s) !! Owned(d) && k <= |s.kids|
    ensures var r := s.(kids := InsertAt(s.kids, k, d)); Unique(r) && Owned(r) == Owned(s) + Owned(d)
  {
    var r := s.(kids := InsertAt(s.kids, k, d));
    OwnParts(s);
    OwnParts(r);
    hide Owned, OwnedAll, Unique, UniqueAll, InsertAt, BlockSet, OwnKey, Inside;
    assert OwnKey(r) == OwnKey(s) by {
      KeyKept(s, r.kids);
    }
    InsertedForest(s.kids, k, d);
    InsertedOwned(s.kids, k, d);
  }

  lemma KeyKept(s: Shape, kids: seq<Shape>)
    ensures OwnKey(s.(kids := kids)) == OwnKey(s)
  {}

  lemma InsertedHeads(kids: seq<Shape>, k: nat, d: Shape)
    requires k <= |kids|
    ensures Heads(InsertAt(kids, k, d)) == InsertAt(Heads(kids), k, d.node)
  {
    hide InsertAt;
  }

  /** Inserting a node among others changes nothing below any of them. */
  method InsertNode(list: Node, which: nat, newitem: Node, ghost heads: seq<Node>, ghost kids: seq<Shape>)
    requires Siblings(list, heads) && newitem !in heads && Loose(newitem)
    requires forall i :: 0 <= i < |kids| ==>
      Linked(kids[i], false) && Strings(kids[i]) && Clear(kids[i], list, newitem, heads)
    modifies list`child, newitem`next, newitem`prev, heads`next, heads`prev
    ensures Siblings(list, InsertAt(heads, if which < |heads| then which else |heads|, newitem))
    ensures forall i :: 0 <= i < |kids| ==> Linked(kids[i], false) && Strings(kids[i])
  {
    hide Linked, Strings, Siblings, InsertAt, NodesAll, Blocks;
    assert forall i :: 0 <= i < |kids| ==> allocated(NodesAll(kids[i].kids)) && allocated(Blocks(kids[i]));
    InsertItemInArray(list, which, newitem, heads);
  }

  /** Everything an insertion needs to know of the two trees. */
  lemma InsertReady(list: Node, newitem: Node, s: Shape, d: Shape, k: nat)
    requires Editable(list, s) && Editable(newitem, d) && Owned(s) !! Owned(d) && k <= |s.kids|
    ensures var r := s.(kids := InsertAt(s.kids, k, d));
            && Unique(r) && Owned(r) == Owned(s) + Owned(d) && Heads(r.kids) == InsertAt(Heads(s.kids), k, newitem)
            && forall i :: 0 <= i < |r.kids| ==>
                 Linked(r.kids[i], false) && Strings(r.kids[i]) && RefFree(r.kids[i]) &&
                   Clear(r.kids[i], list, newitem, Heads(s.kids))
    ensures newitem !in Heads(s.kids)
  {
    var r := s.(kids := InsertAt(s.kids, k, d));
    EditableParts(list, s);
    EditableSound(newitem, d);
    ClearNew(list, newitem, s, d);
    InsertedUnique(s, d, k);
    InsertedHeads(s.kids, k, d);
    hide Unique, Siblings, InsertAt, Clear, Linked, RefFree, Strings, Editable, Owned;
    forall i | 0 <= i < |r.kids|
      ensures Linked(r.kids[i], false) && Strings(r.kids[i]) && RefFree(r.kids[i]) &&
        Clear(r.kids[i], list, newitem, Heads(s.kids))
    {
      if i != k {
        ClearKid(list, newitem, s, if i < k then i else i - 1, Owned(d));
      }
    }
  }

  /** The links of an insertion. */
  method InsertSubtree(list: Node, which: nat, newitem: Node, ghost s: Shape, ghost d: Shape) returns (ghost r: Shape)
    requires Editable(list, s) && Editable(newitem, d) && Loose(newitem) && Owned(s) !! Owned(d)
    modifies list`child, newitem`next, newitem`prev, Heads(s.kids)`next, Heads(s.kids)`prev
    ensures r == s.(kids := InsertAt(s.kids, if which < |s.kids| then which else |s.kids|, d))
    ensures Editable(list, r) && Owned(r) == Owned(s) + Owned(d)
  {
    hide Unique, Siblings, InsertAt, Clear, Linked, RefFree, Strings, Editable, Owned, Loose, Nodes, NodesAll, Blocks,
      BlocksAll;
    ghost var k := if which < |s.kids| then which else |s.kids|;
    r := s.(kids := InsertAt(s.kids, k, d));
    EditableParts(list, s);
    InsertReady(list, newitem, s, d, k);
    assert allocated(s.text) && allocated(s.key) && allocated(NodesAll(r.kids)) && allocated(BlocksAll(r.kids));
    InsertNode(list, which, newitem, Heads(s.kids), r.kids);
    EditableMade(list, r);
  }

  /** `cJSON_InsertItemInArray` on whole trees: the new subtree stands at its place, and nothing is owned twice. */
  method InsertTree(list: Node, which: nat, newitem: Node, ghost s: Shape, ghost d: Shape) returns (ghost r: Shape)
    requires Editable(list, s) && Editable(newitem, d) && Loose(newitem) && Owned(s) !! Owned(d)
    modifies list`child, newitem`next, newitem`prev, Heads(s.kids)`next, Heads(s.kids)`prev
    ensures r == s.(kids := InsertAt(s.kids, if which < |s.kids| then which else |s.kids|, d))
    ensures Editable(list, r) && Owned(r) == Owned(s) + Owned(d)
    ensures Values(r.kids) == InsertAt(old(Values(s.kids)), if which < |s.kids| then which else |s.kids|, old(Val(d)))
    ensures Named(r.kids) ==
      InsertAt(old(Named(s.kids)), if which < |s.kids| then which else |s.kids|, old(NamedValue(d)))
  {
    hide InsertAt, Editable, Owned, Loose, Val, Nodes, NodesAll, Blocks, BlocksAll, Values, Named, NamedValue;
    ghost var k := if which < |s.kids| then which else |s.kids|;
    InsertedValues(s.kids, k, d);
    InsertedNamed(s.kids, k, d);
    ghost var all := InsertAt(s.kids, k, d);
    assert allocated(NodesAll(all)) && allocated(BlocksAll(all));
    r := InsertSubtree(list, which, newitem, s, d);
  }

  lemma EditableSound(item: Node, d: Shape)
    requires Editable(item, d)
    ensures item == d.node && Linked(d, false) && Strings(d) && RefFree(d) && Unique(d)
  {}

  /** The invariants of a tree from those of its parts. */
  lemma EditableMade(list: Node, r: Shape)
    requires list == r.node && Siblings(list, Heads(r.kids)) && Unique(r) && !r.isReference
    requires !list.isReference && list.keyIsConst == r.keyIsConst && list.key == r.key && list.text == r.text
    requires Terminated(r.text) && Terminated(r.key)
    requires forall i :: 0 <= i < |r.kids| ==> Linked(r.kids[i], false) && Strings(r.kids[i]) && RefFree(r.kids[i])
    ensures Editable(list, r)
  {
    hide Unique;
    LinkedSiblings(r);
    assert Strings(r);
    assert RefFreeAll(r.kids);
    assert RefFree(r);
  }

  // ----- detaching -----

  /** Everything a removal needs to know of the tree. */
  lemma DetachReady(list: Node, s: Shape, k: nat)
    requires Editable(list, s) && k < |s.kids|
    ensures var r := s.(kids := RemoveAt(s.kids, k));
            && Unique(r) && Unique(s.kids[k]) && Owned(r) !! Owned(s.kids[k]) && Owned(s) == Owned(r) + Owned(s.kids[k])
            && Heads(r.kids) == RemoveAt(Heads(s.kids), k)
    ensures forall i :: 0 <= i < |s.kids| ==>
              Linked(s.kids[i], false) && Strings(s.kids[i]) && RefFree(s.kids[i]) &&
                Clear(s.kids[i], list, list, Heads(s.kids))
  {
    var r := s.(kids := RemoveAt(s.kids, k));
    EditableParts(list, s);
    forall i | 0 <= i < |s.kids| ensures Clear(s.kids[i], list, list, Heads(s.kids)) {
      ClearSelf(list, s, i);
    }
    DetachedUnique(s, k);
    hide *;
    assert Heads(r.kids) == RemoveAt(Heads(s.kids), k);
  }

  lemma ClearSelf(list: Node, s: Shape, i: nat)
    requires Editable(list, s) && i < |s.kids|
    ensures Clear(s.kids[i], list, list, Heads(s.kids))
  {
    EditableParts(list, s);
    RootApart(list, s);
    NodesApart(s.kids);
    hide Owned, Linked, Unique, Strings, RefFree, UniqueAll;
    assert Nodes(s.kids[i]) <= NodesAll(s.kids);
  }

  lemma DetachedUnique(s: Shape, k: nat)
    requires !s.isReference && Unique(s) && k < |s.kids|
    ensures var r := s.(kids := RemoveAt(s.kids, k));
            Unique(r) && Unique(s.kids[k]) && Owned(r) !! Owned(s.kids[k]) && Owned(s) == Owned(r) + Owned(s.kids[k])
  {
    var r := s.(kids := RemoveAt(s.kids, k));
    OwnParts(s);
    OwnParts(r);
    RemovedForest(s.kids, k);
    hide Owned, OwnedAll, Unique, UniqueAll, RemoveAt, BlockSet, OwnKey, Inside;
    KeyKept(s, r.kids);
  }

  /** Taking a node out of its siblings changes nothing below any of them. */
  method DetachNode(list: Node, which: nat, ghost heads: seq<Node>, ghost kids: seq<Shape>) returns (item: Node)
    requires Siblings(list, heads) && which < |heads|
    requires forall i :: 0 <= i < |kids| ==>
      Linked(kids[i], false) && Strings(kids[i]) && Clear(kids[i], list, list, heads)
    modifies list`child, heads`next, heads`prev
    ensures item == heads[which] && Loose(item) && Siblings(list, RemoveAt(heads, which))
    ensures forall i :: 0 <= i < |kids| ==> Linked(kids[i], false) && Strings(kids[i])
  {
    hide Linked, Strings, Siblings, RemoveAt, NodesAll, Blocks;
    assert forall i :: 0 <= i < |kids| ==> allocated(NodesAll(kids[i].kids)) && allocated(Blocks(kids[i]));
    item := DetachItemFromArray(list, which, heads);
  }

  /** The links of a removal. */
  method DetachSubtree(list: Node, which: nat, ghost s: Shape) returns (item: Node, ghost r: Shape)
    requires Editable(list, s) && which < |s.kids|
    modifies list`child, Heads(s.kids)`next, Heads(s.kids)`prev
    ensures r == s.(kids := RemoveAt(s.kids, which)) && Loose(item)
    ensures Editable(list, r) && Editable(item, s.kids[which])
    ensures Owned(r) !! Owned(s.kids[which]) && Owned(s) == Owned(r) + Owned(s.kids[which])
  {
    hide Unique, Siblings, RemoveAt, Clear, Linked, RefFree, Strings, Editable, Owned, Loose, Nodes, NodesAll, Blocks,
      BlocksAll;
    r := s.(kids := RemoveAt(s.kids, which));
    EditableParts(list, s);
    DetachReady(list, s, which);
    assert allocated(s.text) && allocated(s.key) && allocated(NodesAll(s.kids)) && allocated(BlocksAll(s.kids));
    assert allocated(NodesAll(r.kids)) && allocated(BlocksAll(r.kids)) && allocated(Nodes(s.kids[which])) &&
      allocated(Blocks(s.kids[which]));
    item := DetachNode(list, which, Heads(s.kids), s.kids);
    EditableMade(list, r);
    EditableKid(item, s.kids[which]);
  }

  /** `cJSON_DetachItemFromArray` on whole trees: two trees that share nothing and together own what the one owned. */
  method DetachTree(list: Node, which: nat, ghost s: Shape) returns (item: Node, ghost r: Shape)
    requires Editable(list, s) && which < |s.kids|
    modifies list`child, Heads(s.kids)`next, Heads(s.kids)`prev
    ensures r == s.(kids := RemoveAt(s.kids, which)) && Loose(item)
    ensures Editable(list, r) && Editable(item, s.kids[which])
    ensures Owned(r) !! Owned(s.kids[which]) && Owned(s) == Owned(r) + Owned(s.kids[which])
    ensures Values(r.kids) == RemoveAt(old(Values(s.kids)), which) && Val(s.kids[which]) == old(Values(s.kids))[which]
    ensures Named(r.kids) == RemoveAt(old(Named(s.kids)), which) &&
      NamedValue(s.kids[which]) == old(Named(s.kids))[which]
  {
    hide RemoveAt, Editable, Owned, Loose, Val, Nodes, NodesAll, Blocks, BlocksAll, Values, Named, NamedValue;
    RemovedValues(s.kids, which);
    RemovedNamed(s.kids, which);
    ghost var rest, kid := RemoveAt(s.kids, which), s.kids[which];
    assert allocated(NodesAll(rest)) && allocated(BlocksAll(rest)) && allocated(Nodes(kid)) && allocated(Blocks(kid));
    item, r := DetachSubtree(list, which, s);
  }

  lemma EditableKid(item: Node, d: Shape)
    requires item == d.node && Linked(d, false) && Unique(d) && RefFree(d) && Strings(d)
    ensures Editable(item, d)
  {}

  // ----- replacing -----

  /** Linking a node in the place of another changes nothing below any of them. */
  method RelinkNode(list: Node, which: nat, newitem: Node, ghost heads: seq<Node>, ghost kids: seq<Shape>,
                    ghost gone: Shape)
    returns (item: Node)
    requires Siblings(list, heads) && which < |heads| && newitem !in heads
    requires forall i :: 0 <= i < |kids| ==>
      Linked(kids[i], false) && Strings(kids[i]) && Clear(kids[i], list, newitem, heads)
    requires Linked(gone, false) && Strings(gone) && Clear(gone, list, newitem, heads)
    modifies list`child, newitem`next, newitem`prev, heads`next, heads`prev
    ensures item == heads[which] && Loose(item) && Siblings(list, heads[which := newitem])
    ensures forall i :: 0 <= i < |kids| ==> Linked(kids[i], false) && Strings(kids[i])
    ensures Linked(gone, false) && Strings(gone)
  {
    hide Linked, Strings, Siblings, NodesAll, Blocks;
    assert forall i :: 0 <= i < |kids| ==> allocated(NodesAll(kids[i].kids)) && allocated(Blocks(kids[i]));
    assert allocated(heads) && allocated(NodesAll(gone.kids)) && allocated(Blocks(gone));
    item := GetArrayItem(list, which, heads);
    Relink(list, item, newitem, heads, which);
  }

  lemma ReplacedIsInserted(kids: seq<Shape>, k: nat, d: Shape)
    requires k < |kids|
    ensures kids[k := d] == InsertAt(RemoveAt(kids, k), k, d)
  {}

  /** Who owns what after a replacement. */
  lemma ReplacedUnique(s: Shape, d: Shape, k: nat)
    requires !s.isReference && Unique(s) && Unique(d) && Owned(s) !! Owned(d) && k < |s.kids|
    ensures var r := s.(kids := s.kids[k := d]);
            Unique(r) && Owned(r) == Owned(s) - Owned(s.kids[k]) + Owned(d) && Owned(r) !! Owned(s.kids[k])
  {
    var rest := s.(kids := RemoveAt(s.kids, k));
    DetachedUnique(s, k);
    ReplacedIsInserted(s.kids, k, d);
    hide Unique, Owned, RemoveAt, InsertAt;
    InsertedUnique(rest, d, k);
  }

  /** Everything a replacement needs to know of the trees. */
  lemma ReplaceReady(list: Node, newitem: Node, s: Shape, d: Shape, k: nat)
    requires Editable(list, s) && Editable(newitem, d) && Owned(s) !! Owned(d) && k < |s.kids|
    ensures var kids := s.kids[k := d];
            forall i :: 0 <= i < |kids| ==>
              Linked(kids[i], false) && Strings(kids[i]) && RefFree(kids[i]) &&
                Clear(kids[i], list, newitem, Heads(s.kids))
  {
    EditableParts(list, s);
    EditableSound(newitem, d);
    ClearNew(list, newitem, s, d);
    NodeOwned(d);
    hide Unique, Siblings, Clear, Linked, RefFree, Strings, Editable, Owned;
    forall i | 0 <= i < |s.kids| && i != k ensures Clear(s.kids[i], list, newitem, Heads(s.kids)) {
      ClearKid(list, newitem, s, i, Owned(d));
    }
  }

  lemma ReplaceGone(list: Node, newitem: Node, s: Shape, d: Shape, k: nat)
    requires Editable(list, s) && Editable(newitem, d) && Owned(s) !! Owned(d) && k < |s.kids|
    ensures var c := s.kids[k];
            Linked(c, false) && Strings(c) && RefFree(c) && Unique(c) && Clear(c, list, newitem, Heads(s.kids))
    ensures newitem !in Heads(s.kids) && Heads(s.kids[k := d]) == Heads(s.kids)[k := newitem]
  {
    EditableParts(list, s);
    EditableSound(newitem, d);
    ClearNew(list, newitem, s, d);
    NodeOwned(d);
    ClearKid(list, newitem, s, k, Owned(d));
    UniqueAllMember(s.kids, k);
  }

  lemma NodeOwned(d: Shape)
    ensures d.node in Owned(d)
  {}

  /** What stays lies outside the blocks that go. */
  lemma StaysApart(r: Shape, gone: Shape)
    requires LinkedAll(r.kids, false) && Owned(r) !! Owned(gone) && Blocks(r) !! Owned(gone) && !r.isReference
    ensures NodesAll(r.kids) !! Owned(gone) && BlocksAll(r.kids) !! Owned(gone)
    ensures r.text != null ==> r.text !in Owned(gone)
    ensures r.key != null ==> r.key !in Owned(gone)
    ensures r.node !in Owned(gone)
  {
    NodesOwnedAll(r.kids);
    OwnParts(r);
  }

  /** The links of a replacement; the old subtree hangs nowhere. */
  method ReplaceSubtree(list: Node, which: nat, newitem: Node, ghost s: Shape, ghost d: Shape)
    returns (item: Node, ghost r: Shape)
    requires Editable(list, s) && Editable(newitem, d) && Loose(newitem) && Owned(s) !! Owned(d) && which < |s.kids|
    modifies list`child, newitem`next, newitem`prev, Heads(s.kids)`next, Heads(s.kids)`prev
    ensures r == s.(kids := s.kids[which := d]) && Editable(list, r) && Editable(item, s.kids[which]) && Loose(item)
  {
    hide Unique, UniqueAll, Siblings, Clear, Linked, LinkedAll, RefFree, Strings, Editable, Owned, OwnedAll, Inside,
      Loose,
      Nodes, NodesAll, Blocks, BlocksAll, Terminated;
    r := s.(kids := s.kids[which := d]);
    EditableParts(list, s);
    EditableSound(newitem, d);
    ReplaceReady(list, newitem, s, d, which);
    ReplaceGone(list, newitem, s, d, which);
    ReplacedUnique(s, d, which);
    assert allocated(s.text) && allocated(s.key);
    item := RelinkNode(list, which, newitem, Heads(s.kids), r.kids, s.kids[which]);
    EditableMade(list, r);
    EditableKid(item, s.kids[which]);
  }

  /**
    `cJSON_ReplaceItemInArray` on whole trees: the new subtree stands in the place of the old one, whose blocks, and no
    others, are given back. What stays, constant keys included, must not lie in the blocks that go.
    */
  method ReplaceTree(list: Node, which: nat, newitem: Node, heap: Heap, ghost s: Shape, ghost d: Shape)
    returns (ghost r: Shape)
    requires Editable(list, s) && Editable(newitem, d) && Loose(newitem) && Owned(s) !! Owned(d) && which < |s.kids|
    requires Owned(s.kids[which]) <= heap.live && Blocks(s.(kids := s.kids[which := d])) !! Owned(s.kids[which])
    modifies list`child, newitem`next, newitem`prev, Heads(s.kids)`next, Heads(s.kids)`prev, Owned(s.kids[which]),
      heap`live
    ensures r == s.(kids := s.kids[which := d])
    ensures Editable(list, r) && Owned(r) == Owned(s) - Owned(s.kids[which]) + Owned(d)
    ensures heap.live == old(heap.live) - Owned(s.kids[which])
    ensures Named(r.kids) == old(Named(s.kids))[which := old(NamedValue(d))]
  {
    hide Editable, Owned, OwnedAll, Inside, Loose, Nodes, NodesAll, Blocks, BlocksAll, Named, NamedValue, Siblings,
      Unique, UniqueAll,
      Linked, RefFree, Strings;
    ReplaceApart(list, newitem, s, d, which);
    ReplacedNamed(s.kids, which, d);
    ghost var kid := s.kids[which];
    ghost var all := s.kids[which := d];
    assert allocated(NodesAll(all)) && allocated(BlocksAll(all)) && allocated(Blocks(s.(kids := all)));
    var item;
    item, r := ReplaceSubtree(list, which, newitem, s, d);
    EditableSound(item, kid);
    assert Editable(list, r) && allocated(list) && allocated(NodesAll(r.kids)) && allocated(Blocks(r));
    assert forall n :: n in NodesAll(r.kids) ==> n !in Owned(kid);
    assert forall b :: b in Blocks(r) ==> b !in Owned(kid);
    EditableParts(list, r);
    FreeItem(item, heap, kid);
  }

  /** What owns what, and what is not touched. */
  lemma ReplaceApart(list: Node, newitem: Node, s: Shape, d: Shape, k: nat)
    requires Editable(list, s) && Editable(newitem, d) && Owned(s) !! Owned(d) && k < |s.kids|
    requires Blocks(s.(kids := s.kids[k := d])) !! Owned(s.kids[k])
    ensures var r := s.(kids := s.kids[k := d]);
            && Owned(r) == Owned(s) - Owned(s.kids[k]) + Owned(d)
            && NodesAll(r.kids) !! Owned(s.kids[k]) && BlocksAll(r.kids) !! Owned(s.kids[k]) &&
               Blocks(r) !! Owned(s.kids[k])
            && list !in Owned(s.kids[k])
  {
    var r := s.(kids := s.kids[k := d]);
    EditableParts(list, s);
    EditableSound(newitem, d);
    ReplacedUnique(s, d, k);
    hide Unique, Owned, Linked, Strings, RefFree, Editable, Siblings;
    StaysApart(r, s.kids[k]);
  }
}
