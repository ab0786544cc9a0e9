/**
  cJSON_Compare as a function of two values, and what it decides: both trees are free of contradictory
  duplicate keys and stand for the same nested map.
  */
module JsonCompare {
  import opened Bytes
  import opened JsonValues

  /** `tolower` in the C locale. */
  function ToLower(b: byte): byte {
    if 65 <= b <= 90 then b + 32 else b
  }

  /** The form in which keys are compared. */
  function Fold(key: bytes, caseSensitive: bool): (f: bytes)
    ensures |f| == |key|
    ensures caseSensitive ==> f == key
    ensures !caseSensitive ==> forall i :: 0 <= i < |key| ==> f[i] == ToLower(key[i])
  {
    if caseSensitive then key else seq(|key|, i requires 0 <= i < |key| => ToLower(key[i]))
  }

  /** The bytes are one and the same, or a capital of the alphabet and its small letter. */
  predicate SameLetter(x: byte, y: byte) {
    x == y || (65 <= x <= 90 && y == x + 32) || (65 <= y <= 90 && x == y + 32)
  }

  /** Keys are the same key exactly when they are equal, or when case is ignored and they differ in it alone. */
  lemma SameKeyExactly(a: bytes, b: bytes, caseSensitive: bool)
    ensures Fold(a, caseSensitive) == Fold(b, caseSensitive) <==>
            if caseSensitive then a == b
            else |a| == |b| && forall i :: 0 <= i < |a| ==> SameLetter(a[i], b[i])
  {
    var f, g := Fold(a, caseSensitive), Fold(b, caseSensitive);
    if f == g {
      forall i | 0 <= i < |a| ensures SameLetter(a[i], b[i]) {
        assert f[i] == g[i];
      }
    } else if !caseSensitive && |a| == |b| {
      var i :| 0 <= i < |a| && f[i] != g[i];
      assert !SameLetter(a[i], b[i]);
    }
  }

  // ----- the comparison -----

  function Size(v: Json): nat {
    match v
    case Array(es) => 1 + ElemsSize(es)
    case Object(ms) => 1 + MembersSize(ms)
    case _ => 1
  }

  function ElemsSize(es: Elems): nat {
    match es
    case NoElems => 0
    case Elem(v, rest) => 1 + Size(v) + ElemsSize(rest)
  }

  function MembersSize(ms: Members): nat {
    match ms
    case NoMembers => 0
    case Member(_, v, rest) => 1 + Size(v) + MembersSize(rest)
  }

  /** The value of the first member with the given key. */
  function Find(ms: Members, key: bytes, caseSensitive: bool): (r: Option<Json>)
    ensures r.Some? ==> Size(r.value) < MembersSize(ms)
  {
    match ms
    case NoMembers => None
    case Member(k, v, rest) =>
      if Fold(k, caseSensitive) == Fold(key, caseSensitive) then Some(v) else Find(rest, key, caseSensitive)
  }

  predicate Compare(a: Json, b: Json, caseSensitive: bool)
    decreases Size(a) + Size(b), 0
  {
    match (a, b)
    case (Null, Null) => true
    case (False, False) => true
    case (True, True) => true
    case (Number(x), Number(y)) => x == y
    case (String(s), String(t)) => s == t
    case (Raw(s), Raw(t)) => s == t
    case (Array(xs), Array(ys)) => CompareElems(xs, ys, caseSensitive)
    case (Object(xs), Object(ys)) => AllIn(xs, ys, caseSensitive) && AllIn(ys, xs, caseSensitive)
    case _ => false
  }

  predicate CompareElems(xs: Elems, ys: Elems, caseSensitive: bool)
    decreases ElemsSize(xs) + ElemsSize(ys), 1
  {
    match (xs, ys)
    case (NoElems, NoElems) => true
    case (Elem(x, xt), Elem(y, yt)) => Compare(x, y, caseSensitive) && CompareElems(xt, yt, caseSensitive)
    case _ => false
  }

  /** Every member of `xs` equals the first member of `ys` with its key. */
  predicate AllIn(xs: Members, ys: Members, caseSensitive: bool)
    decreases MembersSize(xs) + MembersSize(ys), 1
  {
    match xs
    case NoMembers => true
    case Member(k, v, rest) =>
      var found := Find(ys, k, caseSensitive);
      found.Some? && Compare(v, found.value, caseSensitive) && AllIn(rest, ys, caseSensitive)
  }

  // ----- what a tree means, whatever the order of its members -----

  datatype Canon =
    | CNothing
    | CNull
    | CFalse
    | CTrue
    | CNumber(num: real)
    | CString(text: bytes)
    | CRaw(text: bytes)
    | CArray(elems: seq<Canon>)
    | CObject(members: map<bytes, Canon>)

  /** Objects as maps from folded keys; the first of several members with one key counts. */
  function Meaning(v: Json, caseSensitive: bool): Canon {
    match v
    case Invalid => CNothing
    case Null => CNull
    case False => CFalse
    case True => CTrue
    case Number(x) => CNumber(x)
    case String(s) => CString(s)
    case Raw(s) => CRaw(s)
    case Array(es) => CArray(ElemsMeaning(es, caseSensitive))
    case Object(ms) => CObject(MembersMeaning(ms, caseSensitive))
  }

  function ElemsMeaning(es: Elems, caseSensitive: bool): seq<Canon> {
    match es
    case NoElems => []
    case Elem(v, rest) => [Meaning(v, caseSensitive)] + ElemsMeaning(rest, caseSensitive)
  }

  function MembersMeaning(ms: Members, caseSensitive: bool): map<bytes, Canon> {
    match ms
    case NoMembers => map[]
    case Member(k, v, rest) => MembersMeaning(rest, caseSensitive)[Fold(k, caseSensitive) := Meaning(v, caseSensitive)]
  }

  /** No invalid node, and members that share a key mean the same. */
  predicate Consistent(v: Json, caseSensitive: bool) {
    match v
    case Invalid => false
    case Array(es) => ConsistentElems(es, caseSensitive)
    case Object(ms) => ConsistentMembers(ms, caseSensitive)
    case _ => true
  }

  predicate ConsistentElems(es: Elems, caseSensitive: bool) {
    es.Elem? ==> Consistent(es.head, caseSensitive) && ConsistentElems(es.tail, caseSensitive)
  }

  predicate ConsistentMembers(ms: Members, caseSensitive: bool) {
    ms.Member? ==>
      && Consistent(ms.value, caseSensitive)
      && ConsistentMembers(ms.rest, caseSensitive)
      && (var f := Fold(ms.key, caseSensitive);
          var m := MembersMeaning(ms.rest, caseSensitive);
          f in m ==> m[f] == Meaning(ms.value, caseSensitive))
  }

  // ----- the comparison decides equality of meanings -----

  lemma {:induction false} FindMeaning(ms: Members, key: bytes, cs: bool)
    ensures var r := Find(ms, key, cs);
            var m := MembersMeaning(ms, cs);
            && (r.Some? <==> Fold(key, cs) in m)
            && (r.Some? ==> m[Fold(key, cs)] == Meaning(r.value, cs))
            && (r.Some? && ConsistentMembers(ms, cs) ==> Consistent(r.value, cs))
  {
    if ms.Member? {
      FindMeaning(ms.rest, key, cs);
    }
  }

  /** Every member of `xs` is consistent and agrees with the map. */
  predicate Agrees(xs: Members, m: map<bytes, Canon>, cs: bool) {
    xs.Member? ==>
      && (var f := Fold(xs.key, cs); f in m && m[f] == Meaning(xs.value, cs))
      && Consistent(xs.value, cs)
      && Agrees(xs.rest, m, cs)
  }

  predicate SubMap(m: map<bytes, Canon>, n: map<bytes, Canon>) {
    forall f :: f in m ==> f in n && m[f] == n[f]
  }

  lemma {:induction false} AgreeingIsConsistent(xs: Members, m: map<bytes, Canon>, cs: bool)
    requires Agrees(xs, m, cs)
    ensures ConsistentMembers(xs, cs) && SubMap(MembersMeaning(xs, cs), m)
  {
    if xs.Member? {
      AgreeingIsConsistent(xs.rest, m, cs);
    }
  }

  lemma {:induction false} AgreesWithMore(xs: Members, m: map<bytes, Canon>, n: map<bytes, Canon>, cs: bool)
    requires Agrees(xs, m, cs) && SubMap(m, n)
    ensures Agrees(xs, n, cs)
  {
    if xs.Member? {
      AgreesWithMore(xs.rest, m, n, cs);
    }
  }

  lemma {:induction false} ConsistentAgrees(xs: Members, cs: bool)
    requires ConsistentMembers(xs, cs)
    ensures Agrees(xs, MembersMeaning(xs, cs), cs)
  {
    if xs.Member? {
      ConsistentAgrees(xs.rest, cs);
      AgreesWithMore(xs.rest, MembersMeaning(xs.rest, cs), MembersMeaning(xs, cs), cs);
    }
  }

  /** The theorem: comparison succeeds exactly on consistent trees with the same meaning. */
  lemma {:induction false} CompareDecides(a: Json, b: Json, cs: bool)
    ensures Compare(a, b, cs) <==> Consistent(a, cs) && Consistent(b, cs) && Meaning(a, cs) == Meaning(b, cs)
    decreases Size(a) + Size(b), 0
  {
    match (a, b)
    case (Array(xs), Array(ys)) => ElemsDecide(xs, ys, cs);
    case (Object(xs), Object(ys)) => MembersDecide(xs, ys, cs);
    case _ =>
  }

  lemma {:induction false} ElemsDecide(xs: Elems, ys: Elems, cs: bool)
    ensures CompareElems(xs, ys, cs) <==>
            ConsistentElems(xs, cs) && ConsistentElems(ys, cs) && ElemsMeaning(xs, cs) == ElemsMeaning(ys, cs)
    decreases ElemsSize(xs) + ElemsSize(ys), 1
  {
    if xs.Elem? && ys.Elem? {
      CompareDecides(xs.head, ys.head, cs);
      ElemsDecide(xs.tail, ys.tail, cs);
      var m, n := ElemsMeaning(xs, cs), ElemsMeaning(ys, cs);
      assert m[0] == Meaning(xs.head, cs) && m[1..] == ElemsMeaning(xs.tail, cs);
      assert n[0] == Meaning(ys.head, cs) && n[1..] == ElemsMeaning(ys.tail, cs);
    } else if xs.Elem? {
      assert |ElemsMeaning(xs, cs)| > 0;
    } else if ys.Elem? {
      assert |ElemsMeaning(ys, cs)| > 0;
    }
  }

  lemma {:induction false} MembersDecide(xs: Members, ys: Members, cs: bool)
    ensures AllIn(xs, ys, cs) && AllIn(ys, xs, cs) <==>
            ConsistentMembers(xs, cs) && ConsistentMembers(ys, cs) && MembersMeaning(xs, cs) == MembersMeaning(ys, cs)
    decreases MembersSize(xs) + MembersSize(ys), 2
  {
    var m, n := MembersMeaning(xs, cs), MembersMeaning(ys, cs);
    AllInMeans(xs, ys, cs);
    AllInMeans(ys, xs, cs);
    if AllIn(xs, ys, cs) && AllIn(ys, xs, cs) {
      AgreeingIsConsistent(xs, n, cs);
      AgreeingIsConsistent(ys, m, cs);
      assert m.Keys == n.Keys;
    }
    if ConsistentMembers(xs, cs) && ConsistentMembers(ys, cs) && m == n {
      ConsistentAgrees(xs, cs);
      ConsistentAgrees(ys, cs);
    }
  }

  lemma {:induction false} AllInMeans(xs: Members, ys: Members, cs: bool)
    ensures AllIn(xs, ys, cs) ==> Agrees(xs, MembersMeaning(ys, cs), cs)
    ensures ConsistentMembers(ys, cs) && Agrees(xs, MembersMeaning(ys, cs), cs) ==> AllIn(xs, ys, cs)
    decreases MembersSize(xs) + MembersSize(ys), 1
  {
    if xs.Member? {
      FindMeaning(ys, xs.key, cs);
      var found := Find(ys, xs.key, cs);
      if found.Some? {
        CompareDecides(xs.value, found.value, cs);
      }
      AllInMeans(xs.rest, ys, cs);
    }
  }

  // ----- consequences -----

  lemma CompareSymmetric(a: Json, b: Json, cs: bool)
    ensures Compare(a, b, cs) == Compare(b, a, cs)
  {
    CompareDecides(a, b, cs);
    CompareDecides(b, a, cs);
  }

  lemma CompareTransitive(a: Json, b: Json, c: Json, cs: bool)
    requires Compare(a, b, cs) && Compare(b, c, cs)
    ensures Compare(a, c, cs)
  {
    CompareDecides(a, b, cs);
    CompareDecides(b, c, cs);
    CompareDecides(a, c, cs);
  }

  /** A tree equals its copies exactly when it is consistent. */
  lemma CompareReflexive(a: Json, cs: bool)
    ensures Compare(a, a, cs) <==> Consistent(a, cs)
  {
    CompareDecides(a, a, cs);
  }

  /** No invalid node, and no key occurs twice in an object. */
  predicate Distinct(v: Json, cs: bool) {
    match v
    case Invalid => false
    case Array(es) => DistinctElems(es, cs)
    case Object(ms) => DistinctMembers(ms, cs)
    case _ => true
  }

  predicate DistinctElems(es: Elems, cs: bool) {
    es.Elem? ==> Distinct(es.head, cs) && DistinctElems(es.tail, cs)
  }

  predicate DistinctMembers(ms: Members, cs: bool) {
    ms.Member? ==> Distinct(ms.value, cs) && DistinctMembers(ms.rest, cs) && Find(ms.rest, ms.key, cs).None?
  }

  lemma {:induction false} DistinctIsConsistent(v: Json, cs: bool)
    requires Distinct(v, cs)
    ensures Consistent(v, cs)
    decreases v, 1
  {
    match v
    case Array(es) => DistinctElemsConsistent(es, cs);
    case Object(ms) => DistinctMembersConsistent(ms, cs);
    case _ =>
  }

  lemma {:induction false} DistinctElemsConsistent(es: Elems, cs: bool)
    requires DistinctElems(es, cs)
    ensures ConsistentElems(es, cs)
    decreases es, 0
  {
    if es.Elem? {
      DistinctIsConsistent(es.head, cs);
      DistinctElemsConsistent(es.tail, cs);
    }
  }

  lemma {:induction false} DistinctMembersConsistent(ms: Members, cs: bool)
    requires DistinctMembers(ms, cs)
    ensures ConsistentMembers(ms, cs)
    decreases ms, 0
  {
    if ms.Member? {
      DistinctIsConsistent(ms.value, cs);
      DistinctMembersConsistent(ms.rest, cs);
      FindMeaning(ms.rest, ms.key, cs);
    }
  }

  /** With distinct keys the comparison is equality of nested maps. */
  lemma CompareDistinct(a: Json, b: Json, cs: bool)
    requires Distinct(a, cs) && Distinct(b, cs)
    ensures Compare(a, b, cs) <==> Meaning(a, cs) == Meaning(b, cs)
  {
    DistinctIsConsistent(a, cs);
    DistinctIsConsistent(b, cs);
    CompareDecides(a, b, cs);
  }

  /** A repeated key with two different values: such an object does not even equal its own copy. */
  lemma DuplicateKeysDiffer(key: bytes, cs: bool)
    ensures var v := Object(Member(key, True, Member(key, False, NoMembers))); !Compare(v, v, cs)
  {
    var ms := Member(key, True, Member(key, False, NoMembers));
    assert Find(ms, key, cs) == Some(True);
    assert !AllIn(ms.rest, ms, cs);
  }
}
