/** cJSON_Compare and the member lookup it relies on, as loops over linked nodes. */
module JsonCompareNodes {
  import opened Bytes
  import J = JsonValues
  import C = JsonCompare
  import opened JsonTree
  import opened JsonDuplicate

  /** The block holds the C string `s`. */
  ghost predicate Spells(b: array?<byte>, s: bytes)
    reads b
  {
    b != null && Terminated(b) && StringOf(b) == s
  }

  predicate SameByte(x: byte, y: byte, caseSensitive: bool) {
    if caseSensitive then x == y else C.ToLower(x) == C.ToLower(y)
  }

  lemma FoldEqual(s: bytes, t: bytes, caseSensitive: bool)
    ensures C.Fold(s, caseSensitive) == C.Fold(t, caseSensitive)
       <==> |s| == |t| && forall k :: 0 <= k < |s| ==> SameByte(s[k], t[k], caseSensitive)
  {
    var f, g := C.Fold(s, caseSensitive), C.Fold(t, caseSensitive);
    if f == g {
      forall k | 0 <= k < |s| ensures SameByte(s[k], t[k], caseSensitive) {
        assert f[k] == g[k];
      }
    }
  }

  /** `strcmp`, or the comparison of lower-case forms, up to the first difference or the end of both strings. */
  method SameString(a: array<byte>, b: array<byte>, caseSensitive: bool, ghost s: bytes, ghost t: bytes)
    returns (same: bool)
    requires Spells(a, s) && Spells(b, t)
    ensures same <==> C.Fold(s, caseSensitive) == C.Fold(t, caseSensitive)
  {
    hide StringOf, Terminated, C.Fold;
    if a == b {
      return true;
    }
    FoldEqual(s, t, caseSensitive);
    var i := 0;
    StringIndex(a, 0);
    StringIndex(b, 0);
    while SameByte(a[i], b[i], caseSensitive)
      invariant i <= |s| && i <= |t| && i < a.Length && i < b.Length
      invariant (a[i] != NUL <==> i < |s|) && (i < |s| ==> s[i] == a[i])
      invariant (b[i] != NUL <==> i < |t|) && (i < |t| ==> t[i] == b[i])
      invariant forall k :: 0 <= k < i ==> SameByte(s[k], t[k], caseSensitive)
      decreases |s| - i
    {
      if a[i] == NUL {
        return true;
      }
      StringIndex(a, i + 1);
      StringIndex(b, i + 1);
      i := i + 1;
    }
    same := false;
  }

  // ----- what the comparison sees of a tree -----

  /** All have a key. */
  ghost predicate Keyed(kids: seq<Shape>) {
    forall i :: 0 <= i < |kids| ==> kids[i].key != null
  }

  /** The value of a tree, where a string without text and an object with a keyless member are as good as nothing. */
  ghost function Seen(s: Shape): J.Json
    reads Nodes(s)`kind, Nodes(s)`number, Blocks(s)
    decreases s, 1
  {
    match s.node.kind
    case InvalidKind => J.Invalid
    case FalseKind => J.False
    case TrueKind => J.True
    case NullKind => J.Null
    case NumberKind => J.Number(s.node.number)
    case StringKind => if s.text == null then J.Invalid else J.String(StringOf(s.text))
    case RawKind => if s.text == null then J.Invalid else J.Raw(StringOf(s.text))
    case ArrayKind => J.Array(ElemsSeen(s.kids, 0))
    case ObjectKind => if Keyed(s.kids) then J.Object(MembersSeen(s.kids, 0)) else J.Invalid
  }

  ghost function ElemsSeen(kids: seq<Shape>, i: nat): J.Elems
    requires i <= |kids|
    reads NodesAll(kids)`kind, NodesAll(kids)`number, BlocksAll(kids)
    decreases kids, 0, |kids| - i
  {
    if i == |kids| then J.NoElems else J.Elem(Seen(kids[i]), ElemsSeen(kids, i + 1))
  }

  ghost function MembersSeen(kids: seq<Shape>, i: nat): J.Members
    requires i <= |kids|
    reads NodesAll(kids)`kind, NodesAll(kids)`number, BlocksAll(kids)
    decreases kids, 0, |kids| - i
  {
    if i == |kids| then J.NoMembers else J.Member(StringOf(kids[i].key), Seen(kids[i]), MembersSeen(kids, i + 1))
  }

  /** Strings have their text and members of objects their key. */
  ghost predicate Complete(s: Shape)
    reads Nodes(s)`kind
    decreases s
  {
    && (s.node.kind == StringKind ==> s.text != null)
    && (s.node.kind == ObjectKind ==> Keyed(s.kids))
    && forall i :: 0 <= i < |s.kids| ==> Complete(s.kids[i])
  }

  /** Of a complete tree, the comparison sees the value. */
  lemma {:induction false} CompleteSeen(s: Shape)
    requires Complete(s)
    ensures Seen(s) == Val(s)
    decreases s, 1
  {
    ElemsSeenAre(s.kids, 0);
    MembersSeenAre(s.kids, 0);
  }

  lemma {:induction false} ElemsSeenAre(kids: seq<Shape>, i: nat)
    requires i <= |kids| && forall j :: 0 <= j < |kids| ==> Complete(kids[j])
    ensures ElemsSeen(kids, i) == ElemsFrom(kids, i)
    decreases kids, 0, |kids| - i
  {
    if i < |kids| {
      hide Seen, Val, Complete;
      CompleteSeen(kids[i]);
      ElemsSeenAre(kids, i + 1);
    }
  }

  lemma {:induction false} MembersSeenAre(kids: seq<Shape>, i: nat)
    requires i <= |kids| && forall j :: 0 <= j < |kids| ==> Complete(kids[j])
    ensures MembersSeen(kids, i) == MembersFrom(kids, i)
    decreases kids, 0, |kids| - i
  {
    if i < |kids| {
      hide Seen, Val, Complete, StringOf;
      CompleteSeen(kids[i]);
      MembersSeenAre(kids, i + 1);
    }
  }

  /** A well-formed tree, read through its references, and what is seen of it. */
  ghost predicate Shows(s: Shape, v: J.Json)
    reads s.node, NodesAll(s.kids), Blocks(s)
  {
    Linked(s, true) && Strings(s) && Seen(s) == v
  }

  function DropElems(es: J.Elems, i: nat): (r: J.Elems)
    ensures i == 0 ==> r == es
  {
    if i == 0 || es.NoElems? then es else DropElems(es.tail, i - 1)
  }

  function DropMembers(ms: J.Members, i: nat): (r: J.Members)
    ensures i == 0 ==> r == ms
  {
    if i == 0 || ms.NoMembers? then ms else DropMembers(ms.rest, i - 1)
  }

  lemma {:induction false} ElemsDropped(kids: seq<Shape>, i: nat, n: nat)
    requires i + n <= |kids|
    ensures DropElems(ElemsSeen(kids, i), n) == ElemsSeen(kids, i + n)
    decreases n
  {
    if n > 0 {
      ElemsDropped(kids, i + 1, n - 1);
    }
  }

  lemma {:induction false} MembersDropped(kids: seq<Shape>, i: nat, n: nat)
    requires i + n <= |kids|
    ensures DropMembers(MembersSeen(kids, i), n) == MembersSeen(kids, i + n)
    decreases n
  {
    if n > 0 {
      MembersDropped(kids, i + 1, n - 1);
    }
  }

  ghost function Weight(s: Shape): nat
    decreases s, 1
  {
    1 + WeightAll(s.kids)
  }

  ghost function WeightAll(kids: seq<Shape>): (w: nat)
    ensures forall i :: 0 <= i < |kids| ==> Weight(kids[i]) <= w
    decreases kids, 0
  {
    if kids == [] then 0 else WeightAll(kids[..|kids| - 1]) + Weight(kids[|kids| - 1])
  }

  /** The node behind a value. */
  lemma ShownNode(s: Shape, v: J.Json)
    requires Shows(s, v)
    ensures s.node.child == First(s.kids)
    ensures s.node.kind == InvalidKind ==> v.Invalid?
    ensures s.node.kind == FalseKind <==> v.False?
    ensures s.node.kind == TrueKind <==> v.True?
    ensures s.node.kind == NullKind <==> v.Null?
    ensures s.node.kind == NumberKind <==> v.Number?
    ensures v.Number? ==> v.num == s.node.number
    ensures v.String? ==> s.node.kind == StringKind
    ensures v.Raw? ==> s.node.kind == RawKind
    ensures s.node.kind == StringKind || s.node.kind == RawKind ==>
      (v.Invalid? || (if s.node.kind == StringKind then v.String? else v.Raw?)) && (s.node.text == null <==> v.Invalid?)
    ensures v.String? || v.Raw? ==> Spells(s.node.text, v.text)
    ensures s.node.kind == ArrayKind <==> v.Array?
    ensures v.Object? ==> s.node.kind == ObjectKind
    ensures s.node.kind == ObjectKind ==> if Keyed(s.kids) then v.Object? else v.Invalid?
  {
    hide StringOf, ElemsSeen, MembersSeen, Keyed;
    SourceNode(s);
  }

  /** What hangs below an array node. */
  lemma ShownElem(s: Shape, v: J.Json, i: nat)
    requires Shows(s, v) && v.Array? && i <= |s.kids|
    ensures DropElems(v.elems, i).Elem? <==> i < |s.kids|
    ensures i < |s.kids| ==>
      var es := DropElems(v.elems, i);
      ChildOf(s, i) && Shows(s.kids[i], es.head) && es.tail == DropElems(v.elems, i + 1)
  {
    hide StringOf, Linked, Strings, Weight, Nodes, NodesAll;
    ElemsDropped(s.kids, 0, i);
    if i < |s.kids| {
      ShownKid(s, v, i);
      ElemsDropped(s.kids, 0, i + 1);
    }
  }

  /** What hangs below an object node. */
  lemma ShownMember(s: Shape, v: J.Json, i: nat)
    requires Shows(s, v) && v.Object? && i <= |s.kids|
    ensures DropMembers(v.members, i).Member? <==> i < |s.kids|
    ensures i < |s.kids| ==>
      var ms := DropMembers(v.members, i);
      && ChildOf(s, i) && Shows(s.kids[i], ms.value) && ms.rest == DropMembers(v.members, i + 1)
      && s.kids[i].node.key != null && Spells(s.kids[i].node.key, ms.key)
  {
    hide StringOf, Linked, Strings, Weight, Nodes, NodesAll;
    MembersDropped(s.kids, 0, i);
    if i < |s.kids| {
      ShownKid(s, v, i);
      MembersDropped(s.kids, 0, i + 1);
    }
  }

  /** The i-th child lies inside the tree and is lighter, and its `next` leads to the following one. */
  ghost predicate ChildOf(s: Shape, i: nat)
    requires i < |s.kids|
    reads s.kids[i].node`next
  {
    var c := s.kids[i];
    && c.node in Nodes(c) && Nodes(c) <= Nodes(s) && Weight(c) < Weight(s)
    && c.node.next == (if i + 1 < |s.kids| then s.kids[i + 1].node else null)
  }

  lemma ShownKid(s: Shape, v: J.Json, i: nat)
    requires Shows(s, v) && i < |s.kids|
    ensures ChildOf(s, i) && Shows(s.kids[i], Seen(s.kids[i]))
    ensures Terminated(s.kids[i].key) && s.kids[i].node.key == s.kids[i].key
    ensures v.Object? ==> s.kids[i].key != null
  {
    hide MembersSeen, ElemsSeen;
    SourceChild(s, i);
    SourceNode(s.kids[i]);
  }

  /** The place of the first member with the key, or the number of members. */
  function Place(ms: J.Members, key: bytes, caseSensitive: bool): (k: nat)
    ensures DropMembers(ms, k).Member? <==> C.Find(ms, key, caseSensitive).Some?
    ensures DropMembers(ms, k).Member? ==> C.Find(ms, key, caseSensitive) == Some(DropMembers(ms, k).value)
  {
    if ms.NoMembers? || C.Fold(ms.key, caseSensitive) == C.Fold(key, caseSensitive) then 0
    else 1 + Place(ms.rest, key, caseSensitive)
  }

  // ----- looking a member up -----

  ghost function KeyOf(s: Shape): Option<bytes>
    reads Blocks(s)
  {
    if s.key == null then None else Some(StringOf(s.key))
  }

  ghost function KeysFrom(kids: seq<Shape>, i: nat): (r: seq<Option<bytes>>)
    requires i <= |kids|
    reads BlocksAll(kids)
    ensures |r| == |kids| - i
    decreases |kids| - i
  {
    if i == |kids| then [] else [KeyOf(kids[i])] + KeysFrom(kids, i + 1)
  }

  /**
    The place of the first member with the key, or the number of members. A member without a key ends a case-sensitive
    search and is passed over by the other one.
    */
  function KeyPlace(keys: seq<Option<bytes>>, key: bytes, caseSensitive: bool): (k: nat)
    ensures k <= |keys|
    ensures k < |keys| ==> keys[k].Some? && C.Fold(keys[k].value, caseSensitive) == C.Fold(key, caseSensitive)
    ensures forall j :: 0 <= j < k && k < |keys| && keys[j].None? ==> !caseSensitive
    ensures forall j :: 0 <= j < k && keys[j].Some? && (forall n :: 0 <= n < j ==> keys[n].Some?) ==>
                          C.Fold(keys[j].value, caseSensitive) != C.Fold(key, caseSensitive)
  {
    if keys == [] then 0
    else if keys[0].Some? && C.Fold(keys[0].value, caseSensitive) == C.Fold(key, caseSensitive) then 0
    else if keys[0].None? && caseSensitive then |keys|
    else 1 + KeyPlace(keys[1..], key, caseSensitive)
  }

  /** One more member looked at. */
  lemma KeyPlaceStep(kids: seq<Shape>, i: nat, key: bytes, caseSensitive: bool)
    requires i < |kids|
    ensures var k := KeyPlace(KeysFrom(kids, i), key, caseSensitive);
            var found := kids[i].key != null && C.Fold(StringOf(kids[i].key), caseSensitive) ==
              C.Fold(key, caseSensitive);
            if found then k == 0 else if kids[i].key == null && caseSensitive then k == |kids| - i
            else k == 1 + KeyPlace(KeysFrom(kids, i + 1), key, caseSensitive)
  {
    hide C.Fold, StringOf;
    assert KeysFrom(kids, i)[1..] == KeysFrom(kids, i + 1);
  }

  /** Among members that all have a key it is the place of the value that is looked up. */
  lemma {:induction false} KeyPlaceIsPlace(kids: seq<Shape>, i: nat, key: bytes, caseSensitive: bool)
    requires Keyed(kids) && i <= |kids|
    ensures KeyPlace(KeysFrom(kids, i), key, caseSensitive) == Place(MembersSeen(kids, i), key, caseSensitive)
    decreases |kids| - i
  {
    if i < |kids| {
      hide C.Fold, C.Find, StringOf, Seen, KeyPlace, KeysFrom, DropMembers;
      KeyPlaceIsPlace(kids, i + 1, key, caseSensitive);
      KeyPlaceStep(kids, i, key, caseSensitive);
    }
  }

  /** Tree and key to look up. */
  ghost predicate Searchable(s: Shape)
    reads s.node, NodesAll(s.kids), Blocks(s)
  {
    Linked(s, true) && Strings(s)
  }

  lemma SearchableKid(s: Shape, i: nat)
    requires Searchable(s) && i < |s.kids|
    ensures s.kids[i].node.next == (if i + 1 < |s.kids| then s.kids[i + 1].node else null)
    ensures s.kids[i].node.key == s.kids[i].key && Terminated(s.kids[i].key)
  {
    SourceChild(s, i);
    SourceNode(s.kids[i]);
  }

  /** `get_object_item`: the first member with the key, if the search gets there. */
  method GetObjectItem(parent: Node?, name: array?<byte>, caseSensitive: bool, ghost s: Shape) returns (item: Node?)
    requires parent != null ==> parent == s.node && Searchable(s)
    requires Terminated(name)
    ensures parent == null || name == null ==> item == null
    ensures parent != null && name != null ==>
      var k := KeyPlace(KeysFrom(s.kids, 0), StringOf(name), caseSensitive);
      item == if k < |s.kids| then s.kids[k].node else null
  {
    hide Searchable, C.Fold, StringOf, KeysFrom, KeyPlace, Terminated, Nodes, NodesAll, Blocks, BlocksAll;
    item := null;
    if parent == null || name == null {
      return;
    }
    ghost var key, at := StringOf(name), 0;
    SourceNode(s) by {
      SearchableSource(s);
    }
    var current := parent.child;
    assert allocated(NodesAll(s.kids)) && allocated(Blocks(s)) && allocated(BlocksAll(s.kids));
    while current != null
      invariant Searchable(s) && Terminated(name) && StringOf(name) == key
      invariant at <= |s.kids| && current == (if at < |s.kids| then s.kids[at].node else null)
      invariant KeyPlace(KeysFrom(s.kids, 0), key, caseSensitive) ==
        at + KeyPlace(KeysFrom(s.kids, at), key, caseSensitive)
      decreases |s.kids| - at
    {
      SearchableKid(s, at);
      KeyPlaceStep(s.kids, at, key, caseSensitive);
      if current.key == null {
        if caseSensitive {
          return;
        }
      } else {
        var same := SameString(name, current.key, caseSensitive, key, StringOf(current.key));
        if same {
          return current;
        }
      }
      current := current.next;
      at := at + 1;
    }
  }

  lemma SearchableSource(s: Shape)
    requires Searchable(s)
    ensures Linked(s, true) && Strings(s)
  {}

  /** `cJSON_Compare`: on separate trees it computes the comparison of their values. */
  method CompareNodes(a: Node?, b: Node?, caseSensitive: bool, ghost sa: Shape, ghost sb: Shape, ghost va: J.Json,
                      ghost vb: J.Json)
    returns (same: bool)
    requires a != null ==> a == sa.node && Shows(sa, va)
    requires b != null ==> b == sb.node && Shows(sb, vb)
    requires a != null && b != null && a != b ==> Nodes(sa) !! Nodes(sb)
    ensures a == null || b == null ==> !same
    ensures a != null && a == b ==> (same <==> a.kind != InvalidKind)
    ensures a != null && b != null && a != b ==> (same <==> C.Compare(va, vb, caseSensitive))
    decreases (if a == null || b == null then 0 else 1 + Weight(sa) + Weight(sb)), 2
  {
    hide Shows, Spells, Weight;
    if a != null {
      ShownNode(sa, va);
    }
    if b != null {
      ShownNode(sb, vb);
    }
    if a == null || b == null || a.kind != b.kind || a.kind == InvalidKind {
      return false;
    }
    if a == b {
      return true;
    }
    match a.kind {
      case FalseKind => same := true;
      case TrueKind => same := true;
      case NullKind => same := true;
      case NumberKind => same := a.number == b.number;
      case ArrayKind => same := CompareArrays(a, b, caseSensitive, sa, sb, va, vb);
      case ObjectKind => same := CompareObjects(a, b, caseSensitive, sa, sb, va, vb);
      case StringKind => same := CompareTexts(a, b, va, vb);
      case RawKind => same := CompareTexts(a, b, va, vb);
    }
  }

  method CompareTexts(a: Node, b: Node, ghost va: J.Json, ghost vb: J.Json) returns (same: bool)
    requires va.String? || va.Raw? || va.Invalid?
    requires vb.String? || vb.Raw? || vb.Invalid?
    requires !(va.String? && vb.Raw?) && !(va.Raw? && vb.String?)
    requires a.text == null <==> va.Invalid?
    requires b.text == null <==> vb.Invalid?
    requires va.String? || va.Raw? ==> Spells(a.text, va.text)
    requires vb.String? || vb.Raw? ==> Spells(b.text, vb.text)
    ensures same <==> C.Compare(va, vb, true)
  {
    hide Spells;
    if a.text == null || b.text == null {
      return false;
    }
    same := SameString(a.text, b.text, true, va.text, vb.text);
  }

  method CompareArrays(a: Node, b: Node, caseSensitive: bool, ghost sa: Shape, ghost sb: Shape, ghost va: J.Json,
                       ghost vb: J.Json)
    returns (same: bool)
    requires a == sa.node && Shows(sa, va) && b == sb.node && Shows(sb, vb) && Nodes(sa) !! Nodes(sb)
    requires va.Array? && vb.Array?
    ensures same <==> C.CompareElems(va.elems, vb.elems, caseSensitive)
    decreases 1 + Weight(sa) + Weight(sb), 0
  {
    hide Shows, Weight, C.Compare, C.CompareElems, DropElems, Nodes, Blocks, NodesAll;
    ShownNode(sa, va);
    ShownNode(sb, vb);
    var x, y := a.child, b.child;
    ghost var i := 0;
    assert allocated(NodesAll(sa.kids)) && allocated(Blocks(sa)) && allocated(NodesAll(sb.kids)) &&
      allocated(Blocks(sb));
    while x != null && y != null
      invariant Shows(sa, va) && Shows(sb, vb)
      invariant i <= |sa.kids| && x == (if i < |sa.kids| then sa.kids[i].node else null)
      invariant i <= |sb.kids| && y == (if i < |sb.kids| then sb.kids[i].node else null)
      invariant C.CompareElems(va.elems, vb.elems, caseSensitive)
           <==> C.CompareElems(DropElems(va.elems, i), DropElems(vb.elems, i), caseSensitive)
      decreases |sa.kids| - i
    {
      var equal := ComparePair(x, y, caseSensitive, sa, sb, va, vb, i);
      if !equal {
        return false;
      }
      x := x.next;
      y := y.next;
      i := i + 1;
    }
    same := x == y;
    EndsTogether(sa, sb, va, vb, i, caseSensitive);
  }

  /** The elements at place `i`. */
  method ComparePair(x: Node, y: Node, caseSensitive: bool, ghost sa: Shape, ghost sb: Shape, ghost va: J.Json,
                     ghost vb: J.Json, ghost i: nat)
    returns (equal: bool)
    requires Shows(sa, va) && Shows(sb, vb) && Nodes(sa) !! Nodes(sb) && va.Array? && vb.Array?
    requires i < |sa.kids| && x == sa.kids[i].node && i < |sb.kids| && y == sb.kids[i].node
    ensures Shows(sa, va) && Shows(sb, vb)
    ensures x.next == (if i + 1 < |sa.kids| then sa.kids[i + 1].node else null)
    ensures y.next == (if i + 1 < |sb.kids| then sb.kids[i + 1].node else null)
    ensures C.CompareElems(DropElems(va.elems, i), DropElems(vb.elems, i), caseSensitive)
       <==> equal && C.CompareElems(DropElems(va.elems, i + 1), DropElems(vb.elems, i + 1), caseSensitive)
    decreases Weight(sa) + Weight(sb), 3
  {
    hide Shows, Weight, C.Compare, DropElems, Nodes, Blocks, NodesAll;
    assert allocated(NodesAll(sa.kids)) && allocated(Blocks(sa)) && allocated(NodesAll(sb.kids)) &&
      allocated(Blocks(sb));
    ShownElem(sa, va, i);
    ShownElem(sb, vb, i);
    equal := CompareNodes(x, y, caseSensitive, sa.kids[i], sb.kids[i], DropElems(va.elems, i).head,
      DropElems(vb.elems, i).head);
    ShownElem(sa, va, i);
    ShownElem(sb, vb, i);
  }

  /** When one array ends, the comparison asks whether the other one ends there too. */
  lemma EndsTogether(sa: Shape, sb: Shape, va: J.Json, vb: J.Json, i: nat, caseSensitive: bool)
    requires Shows(sa, va) && Shows(sb, vb) && Nodes(sa) !! Nodes(sb) && va.Array? && vb.Array?
    requires i <= |sa.kids| && i <= |sb.kids| && (i == |sa.kids| || i == |sb.kids|)
    ensures C.CompareElems(DropElems(va.elems, i), DropElems(vb.elems, i), caseSensitive)
       <==> (if i < |sa.kids| then sa.kids[i].node else null) == (if i < |sb.kids| then sb.kids[i].node else null)
  {
    hide Shows, DropElems, C.Compare;
    ShownElem(sa, va, i);
    ShownElem(sb, vb, i);
  }

  /** Both loops over members: from `a` into `b`, and from `b` into `a`. */
  method CompareObjects(a: Node, b: Node, caseSensitive: bool, ghost sa: Shape, ghost sb: Shape, ghost va: J.Json,
                        ghost vb: J.Json)
    returns (same: bool)
    requires a == sa.node && Shows(sa, va) && b == sb.node && Shows(sb, vb) && Nodes(sa) !! Nodes(sb)
    requires a.kind == ObjectKind && b.kind == ObjectKind
    ensures same <==> C.Compare(va, vb, caseSensitive)
    decreases 1 + Weight(sa) + Weight(sb), 1
  {
    hide Shows, Weight, C.AllIn;
    assert allocated(NodesAll(sa.kids)) && allocated(Blocks(sa)) && allocated(NodesAll(sb.kids)) &&
      allocated(Blocks(sb));
    ShownNode(sa, va);
    ShownNode(sb, vb);
    same := MembersIn(a, b, caseSensitive, sa, sb, va, vb);
    if same {
      same := MembersIn(b, a, caseSensitive, sb, sa, vb, va);
    }
  }

  /** One of the two loops: each member of `a` has a key and equals its namesake in `b`. */
  method MembersIn(a: Node, b: Node, caseSensitive: bool, ghost sa: Shape, ghost sb: Shape, ghost va: J.Json,
                   ghost vb: J.Json)
    returns (all: bool)
    requires a == sa.node && Shows(sa, va) && b == sb.node && Shows(sb, vb) && Nodes(sa) !! Nodes(sb)
    requires a.kind == ObjectKind && b.kind == ObjectKind
    ensures va.Object? && vb.Object? ==> (all <==> C.AllIn(va.members, vb.members, caseSensitive))
    ensures all ==> va.Object?
    decreases 1 + Weight(sa) + Weight(sb), 0
  {
    hide Shows, Weight, C.Compare, C.AllIn, DropMembers, Nodes, Blocks, NodesAll, Keyed;
    ShownNode(sa, va);
    KeyedNone(sa.kids);
    var x := a.child;
    ghost var i := 0;
    assert allocated(NodesAll(sa.kids)) && allocated(Blocks(sa)) && allocated(NodesAll(sb.kids)) &&
      allocated(Blocks(sb));
    while x != null
      invariant Shows(sa, va) && Shows(sb, vb)
      invariant i <= |sa.kids| && x == (if i < |sa.kids| then sa.kids[i].node else null)
      invariant KeyedTo(sa.kids, i)
      invariant AllFrom(va, vb, 0, caseSensitive) == AllFrom(va, vb, i, caseSensitive)
      decreases |sa.kids| - i
    {
      var equal := MemberIn(x, b, caseSensitive, sa, sb, va, vb, i);
      if !equal {
        return false;
      }
      x := x.next;
      i := i + 1;
    }
    MembersDone(sa, va, vb, caseSensitive);
    all := true;
  }

  /** What one member decides. */
  lemma MemberStep(sa: Shape, sb: Shape, va: J.Json, vb: J.Json, i: nat, caseSensitive: bool)
    requires Shows(sa, va) && Shows(sb, vb) && va.Object? && vb.Object? && i < |sa.kids|
    ensures sa.kids[i].key != null
    ensures var at := KeyPlace(KeysFrom(sb.kids, 0), StringOf(sa.kids[i].key), caseSensitive);
            AllFrom(va, vb, i, caseSensitive) <==>
            at < |sb.kids| && C.Compare(Seen(sa.kids[i]), Seen(sb.kids[at]), caseSensitive) &&
              AllFrom(va, vb, i + 1, caseSensitive)
  {
    hide StringOf, Linked, Strings, Seen, Nodes, NodesAll, C.Compare, C.Find, KeyPlace, KeysFrom, Place, DropMembers,
      C.Fold;
    ShownMember(sa, va, i);
    ShownKid(sa, va, i);
    var key := StringOf(sa.kids[i].key);
    MembersOf(sb, vb);
    KeyPlaceIsPlace(sb.kids, 0, key, caseSensitive);
    ShownMember(sb, vb, Place(vb.members, key, caseSensitive));
  }

  lemma MembersOf(s: Shape, v: J.Json)
    requires Shows(s, v) && v.Object?
    ensures Keyed(s.kids) && v.members == MembersSeen(s.kids, 0)
  {
    hide MembersSeen, ElemsSeen;
  }

  lemma SeenSearchable(s: Shape, v: J.Json)
    requires Shows(s, v)
    ensures Searchable(s)
  {}

  /** The member of `b` that is named like the i-th member of `a`. */
  method Namesake(x: Node, b: Node, caseSensitive: bool, ghost sa: Shape, ghost sb: Shape, ghost va: J.Json,
                  ghost vb: J.Json, ghost i: nat)
    returns (y: Node?, ghost at: nat)
    requires Shows(sa, va) && b == sb.node && Shows(sb, vb) && i < |sa.kids| && x == sa.kids[i].node
    ensures Shows(sa, va) && Shows(sb, vb)
    ensures y == null && va.Object? && vb.Object? ==> !AllFrom(va, vb, i, caseSensitive)
    ensures y != null ==> sa.kids[i].key != null && at < |sb.kids| && y == sb.kids[at].node
    ensures y != null && va.Object? && vb.Object? ==>
      (AllFrom(va, vb, i, caseSensitive) <==>
       C.Compare(Seen(sa.kids[i]), Seen(sb.kids[at]), caseSensitive) && AllFrom(va, vb, i + 1, caseSensitive))
  {
    hide Shows, Weight, AllFrom, KeyPlace, KeysFrom, Nodes, Blocks, NodesAll, Seen, StringOf, Terminated, Searchable,
      ChildOf;
    assert allocated(NodesAll(sa.kids)) && allocated(Blocks(sa)) && allocated(NodesAll(sb.kids)) &&
      allocated(Blocks(sb));
    SeenSearchable(sb, vb);
    ShownKid(sa, va, i);
    y := GetObjectItem(b, x.key, caseSensitive, sb);
    ShownKid(sa, va, i);
    if va.Object? && vb.Object? {
      MemberStep(sa, sb, va, vb, i, caseSensitive);
    }
    at := if x.key == null then 0 else KeyPlace(KeysFrom(sb.kids, 0), StringOf(x.key), caseSensitive);
  }

  lemma ShownNext(s: Shape, v: J.Json, i: nat)
    requires Shows(s, v) && i < |s.kids|
    ensures s.kids[i].node.next == if i + 1 < |s.kids| then s.kids[i + 1].node else null
  {
    ShownKid(s, v, i);
  }

  /** Two children to be compared. */
  lemma ShownPair(sa: Shape, va: J.Json, i: nat, sb: Shape, vb: J.Json, j: nat)
    requires Shows(sa, va) && i < |sa.kids| && Shows(sb, vb) && j < |sb.kids| && Nodes(sa) !! Nodes(sb)
    ensures Shows(sa.kids[i], Seen(sa.kids[i])) && Shows(sb.kids[j], Seen(sb.kids[j]))
    ensures Nodes(sa.kids[i]) !! Nodes(sb.kids[j]) && sa.kids[i].node != sb.kids[j].node
    ensures Weight(sa.kids[i]) < Weight(sa) && Weight(sb.kids[j]) < Weight(sb)
  {
    hide Shows, Weight, Nodes, Seen;
    ShownKid(sa, va, i);
    ShownKid(sb, vb, j);
  }

  /** One round of that loop. */
  method MemberIn(x: Node, b: Node, caseSensitive: bool, ghost sa: Shape, ghost sb: Shape, ghost va: J.Json,
                  ghost vb: J.Json, ghost i: nat)
    returns (equal: bool)
    requires Shows(sa, va) && b == sb.node && Shows(sb, vb) && Nodes(sa) !! Nodes(sb)
    requires i < |sa.kids| && x == sa.kids[i].node && KeyedTo(sa.kids, i)
    ensures Shows(sa, va) && Shows(sb, vb)
    ensures x.next == (if i + 1 < |sa.kids| then sa.kids[i + 1].node else null)
    ensures equal ==> KeyedTo(sa.kids, i + 1)
    ensures va.Object? && vb.Object? ==> (AllFrom(va, vb, i, caseSensitive) <==>
      equal && AllFrom(va, vb, i + 1, caseSensitive))
    decreases Weight(sa) + Weight(sb), 3
  {
    hide Shows, Weight, AllFrom, Nodes, Blocks, NodesAll, BlocksAll, Keyed, KeyedTo, Seen, C.Compare;
    assert allocated(NodesAll(sa.kids)) && allocated(Blocks(sa)) && allocated(NodesAll(sb.kids)) &&
      allocated(Blocks(sb));
    var y;
    ghost var at;
    y, at := Namesake(x, b, caseSensitive, sa, sb, va, vb, i);
    ShownNext(sa, va, i);
    if y == null {
      return false;
    }
    KeyedStep(sa.kids, i);
    ShownPair(sa, va, i, sb, vb, at);
    equal := CompareNodes(x, y, caseSensitive, sa.kids[i], sb.kids[at], Seen(sa.kids[i]), Seen(sb.kids[at]));
    ShownNext(sa, va, i);
  }

  ghost predicate KeyedTo(kids: seq<Shape>, n: nat) {
    n <= |kids| && Keyed(kids[..n])
  }

  lemma KeyedNone(kids: seq<Shape>)
    ensures KeyedTo(kids, 0)
  {}

  lemma KeyedStep(kids: seq<Shape>, n: nat)
    requires n < |kids| && KeyedTo(kids, n) && kids[n].key != null
    ensures KeyedTo(kids, n + 1)
  {
    assert forall i :: 0 <= i < n ==> kids[..n][i] == kids[i];
  }

  /** The members of `a` from place `i` on have their equals in `b`; true as well when keys are missing. */
  predicate AllFrom(va: J.Json, vb: J.Json, i: nat, caseSensitive: bool) {
    va.Object? && vb.Object? ==> C.AllIn(DropMembers(va.members, i), vb.members, caseSensitive)
  }

  lemma MembersDone(sa: Shape, va: J.Json, vb: J.Json, caseSensitive: bool)
    requires Shows(sa, va) && sa.node.kind == ObjectKind && KeyedTo(sa.kids, |sa.kids|)
    ensures va.Object? && AllFrom(va, vb, |sa.kids|, caseSensitive)
  {
    hide Shows, MembersSeen, C.Find;
    assert sa.kids[..|sa.kids|] == sa.kids;
    ShownNode(sa, va);
    ShownMember(sa, va, |sa.kids|);
  }
}
