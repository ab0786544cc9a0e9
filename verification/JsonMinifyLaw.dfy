/** When cJSON_Minify turns a formatted print into the unformatted print of the same value: the exact condition. */
module JsonMinifyLaw {
  import opened Bytes
  import opened JsonStrings
  import opened JsonValues
  import opened JsonMinify
  import opened JsonRoundTrip

  predicate EndsInBackslash(s: bytes) {
    s != [] && s[|s| - 1] == BACKSLASH
  }

  /**
    No key and no string ends in a backslash, except perhaps the last one printed, and that one only when nothing but
    closing brackets follows it. `last` says whether nothing but closing brackets follows `v` itself.
    */
  predicate Safe(v: Json, last: bool) {
    match v
    case String(s) => last || !EndsInBackslash(s)
    case Array(es) => SafeElems(es, last)
    case Object(ms) => SafeMembers(ms)
    case _ => true
  }

  predicate SafeElems(es: Elems, last: bool) {
    es.Elem? ==> Safe(es.head, last && es.tail.NoElems?) && SafeElems(es.tail, last)
  }

  predicate SafeMembers(ms: Members) {
    ms.Member? ==> !EndsInBackslash(ms.key) && Safe(ms.value, false) && SafeMembers(ms.rest)
  }

  // ----- safe values -----

  /** In front of `rest`, the text `t` is minified to `u`. */
  predicate Carries(t: bytes, u: bytes, rest: bytes) {
    Minified(t + rest) == u + Minified(rest)
  }

  lemma CarriesBoth(t: bytes, u: bytes, t2: bytes, u2: bytes, rest: bytes)
    requires Carries(t, u, t2 + rest) && Carries(t2, u2, rest)
    ensures Carries(t + t2, u + u2, rest)
  {
    hide Minified;
    ConcatAssociates(t, t2, rest);
    ConcatAssociates(u, u2, Minified(rest));
  }

  lemma CarriesThree(t: bytes, u: bytes, t2: bytes, u2: bytes, t3: bytes, u3: bytes, rest: bytes)
    requires Carries(t, u, t2 + (t3 + rest)) && Carries(t2, u2, t3 + rest) && Carries(t3, u3, rest)
    ensures Carries(t + t2 + t3, u + u2 + u3, rest)
  {
    hide Carries;
    CarriesBoth(t, u, t2, u2, t3 + rest);
    CarriesBoth(t + t2, u + u2, t3, u3, rest);
  }

  /** A byte that stands for itself outside strings. */
  predicate Ordinary(b: byte) {
    !White(b) && b != SLASH && b != QUOTE
  }

  lemma {:induction false} OrdinaryCarries(t: bytes, rest: bytes)
    requires forall i :: 0 <= i < |t| ==> Ordinary(t[i])
    ensures Carries(t, t, rest)
    decreases |t|
  {
    var a := t + rest;
    if t == [] {
      assert a == rest;
    } else {
      assert a[1..] == t[1..] + rest && t == [t[0]] + t[1..];
      OrdinaryCarries(t[1..], rest);
    }
  }

  lemma {:induction false} WhiteCarries(t: bytes, rest: bytes)
    requires forall i :: 0 <= i < |t| ==> White(t[i])
    ensures Carries(t, [], rest)
    decreases |t|
  {
    var a := t + rest;
    if t == [] {
      assert a == rest;
    } else {
      assert a[1..] == t[1..] + rest;
      WhiteCarries(t[1..], rest);
    }
  }

  /** Neither a quote nor a backslash: inside a string such bytes are copied one by one. */
  predicate Inert(t: bytes) {
    forall i :: 0 <= i < |t| ==> t[i] != QUOTE && t[i] != BACKSLASH
  }

  lemma {:induction false} ScanInert(t: bytes, x: bytes)
    requires Inert(t)
    ensures StringLength(t + x) == |t| + StringLength(x)
    decreases |t|
  {
    var a := t + x;
    if t == [] {
      assert a == x;
    } else {
      assert a[1..] == t[1..] + x;
      ScanInert(t[1..], x);
    }
  }

  lemma ScanPair(b: byte, x: bytes)
    ensures b != QUOTE ==> StringLength([BACKSLASH, b] + x) == 1 + StringLength([b] + x)
    ensures StringLength([BACKSLASH, QUOTE] + x) == 2 + StringLength(x)
  {
    var a := [BACKSLASH, b] + x;
    assert a[1..] == [b] + x;
    var q := [BACKSLASH, QUOTE] + x;
    assert q[2..] == x;
  }

  lemma ScanSecondBackslash(x: bytes)
    requires x != [] && x[0] != QUOTE
    ensures StringLength([BACKSLASH] + x) == 1 + StringLength(x)
  {
    var a := [BACKSLASH] + x;
    assert a[1..] == x;
  }

  lemma ScanByte(b: byte, x: bytes)
    requires x != [] && (b == BACKSLASH ==> x[0] != QUOTE)
    ensures StringLength(EscapeByte(b) + x) == |EscapeByte(b)| + StringLength(x)
  {
    hide StringLength;
    var e := EscapeByte(b);
    if |e| == 1 {
      ScanInert(e, x);
    } else {
      var y := e[2..] + x;
      assert e + x == [BACKSLASH, e[1]] + y;
      ScanPair(e[1], y);
      if b == QUOTE {
        assert y == x;
      } else if b == BACKSLASH {
        assert y == x;
        ScanSecondBackslash(x);
      } else {
        assert [e[1]] + y == e[1..] + x;
        ScanInert(e[1..], x);
      }
    }
  }

  /**
    The string scan of `cJSON_Minify` on a printed string: it misses the closing quote exactly behind a final backslash.
    */
  lemma {:induction false} ScanEscaped(s: bytes, rest: bytes)
    ensures StringLength(Escaped(s) + [QUOTE] + rest) ==
            |Escaped(s)| + 1 + (if EndsInBackslash(s) then StringLength(rest) else 0)
    decreases |s|
  {
    hide StringLength;
    if s == [] {
      assert Escaped(s) + [QUOTE] + rest == [QUOTE] + rest;
      ScanQuote(rest);
    } else if s == [BACKSLASH] {
      assert s[1..] == [];
      assert Escaped(s) + [QUOTE] + rest == [BACKSLASH, BACKSLASH, QUOTE] + rest;
      ScanQuote(rest);
    } else {
      var x := Escaped(s[1..]) + [QUOTE] + rest;
      assert Escaped(s) + [QUOTE] + rest == EscapeByte(s[0]) + x;
      assert s[0] == BACKSLASH ==> x[0] == EscapeByte(s[1])[0];
      ScanByte(s[0], x);
      ScanEscaped(s[1..], rest);
    }
  }

  lemma ScanQuote(rest: bytes)
    ensures StringLength([QUOTE] + rest) == 1
    ensures StringLength([BACKSLASH, BACKSLASH, QUOTE] + rest) == 3 + StringLength(rest)
  {
    var a := [BACKSLASH, BACKSLASH, QUOTE] + rest;
    assert a[1..] == [BACKSLASH, QUOTE] + rest && a[1..][2..] == rest;
  }

  predicate Brackets(t: bytes) {
    forall i :: 0 <= i < |t| ==> t[i] == CLOSE_BRACKET
  }

  lemma QuotedCarries(s: bytes, rest: bytes)
    requires EndsInBackslash(s) ==> Brackets(rest)
    ensures Carries(Quoted(s), Quoted(s), rest)
  {
    QuotedMinified(s, rest);
    var n := if EndsInBackslash(s) then StringLength(rest) else 0;
    if EndsInBackslash(s) {
      ScanInert(rest, []);
      assert rest + [] == rest;
      OrdinaryCarries(rest, []);
    } else {
      assert rest[..n] == [] && rest[n..] == rest;
    }
  }

  lemma QuotedMinified(s: bytes, rest: bytes)
    ensures var n := if EndsInBackslash(s) then StringLength(rest) else 0;
            Minified(Quoted(s) + rest) == Quoted(s) + rest[..n] + Minified(rest[n..])
  {
    var n := if EndsInBackslash(s) then StringLength(rest) else 0;
    var a := Quoted(s) + rest;
    var e := Escaped(s) + [QUOTE] + rest;
    hide Escaped;
    assert a[1..] == e;
    ScanEscaped(s, rest);
    assert a[..1 + StringLength(e)] == Quoted(s) + rest[..n];
    assert a[1 + StringLength(e)..] == rest[n..];
  }

  function Formatted(k: Codec): Layout {
    Layout(true, k)
  }

  function Unformatted(k: Codec): Layout {
    Layout(false, k)
  }

  lemma {:induction false} ValueCarries(v: Json, k: Codec, depth: nat, last: bool, rest: bytes)
    requires Plain(v, k) && Safe(v, last) && (last ==> Brackets(rest))
    ensures Carries(Text(v, Formatted(k), depth), Text(v, Unformatted(k), depth), rest)
    decreases v, 1
  {
    hide Carries, Quoted;
    match v
    case String(s) => QuotedCarries(s, rest);
    case Array(es) =>
      var r := [CLOSE_BRACKET] + rest;
      var t, u := ElemsText(es, Formatted(k), depth + 1), ElemsText(es, Unformatted(k), depth + 1);
      ElemsCarry(es, k, depth + 1, last, r);
      OrdinaryCarries([CLOSE_BRACKET], rest);
      CarriesBoth(t, u, [CLOSE_BRACKET], [CLOSE_BRACKET], rest);
      OrdinaryCarries([OPEN_BRACKET], t + [CLOSE_BRACKET] + rest);
      CarriesBoth([OPEN_BRACKET], [OPEN_BRACKET], t + [CLOSE_BRACKET], u + [CLOSE_BRACKET], rest);
      ConcatAssociates([OPEN_BRACKET], t, [CLOSE_BRACKET]);
      ConcatAssociates([OPEN_BRACKET], u, [CLOSE_BRACKET]);
    case Object(ms) => ObjectCarries(ms, k, depth, rest);
    case _ => OrdinaryCarries(Text(v, Formatted(k), depth), rest);
  }

  lemma {:induction false} ElemsCarry(es: Elems, k: Codec, depth: nat, last: bool, rest: bytes)
    requires PlainElems(es, k) && SafeElems(es, last) && (last ==> Brackets(rest))
    ensures Carries(ElemsText(es, Formatted(k), depth), ElemsText(es, Unformatted(k), depth), rest)
    decreases es, 0
  {
    hide Carries, Text, AfterElem, Minified, Brackets, Safe, Plain;
    if es.NoElems? {
      WhiteCarries([], rest);
    } else {
      var f, u := Formatted(k), Unformatted(k);
      var bare := es.tail.NoElems?;
      var vf, vu := Text(es.head, f, depth), Text(es.head, u, depth);
      var af, au := AfterElem(f, bare), AfterElem(u, bare);
      var tf, tu := ElemsText(es.tail, f, depth), ElemsText(es.tail, u, depth);
      ElemsCarry(es.tail, k, depth, last, rest);
      AfterElemCarries(k, bare, tf + rest);
      NothingAfterLast(k, rest);
      ValueCarries(es.head, k, depth, last && bare, af + (tf + rest));
      CarriesThree(vf, vu, af, au, tf, tu, rest);
    }
  }

  lemma NothingAfterLast(k: Codec, rest: bytes)
    ensures AfterElem(Formatted(k), true) + ([] + rest) == rest
  {}

  lemma AfterElemCarries(k: Codec, last: bool, rest: bytes)
    ensures Carries(AfterElem(Formatted(k), last), AfterElem(Unformatted(k), last), rest)
  {
    if last {
      WhiteCarries([], rest);
    } else {
      OrdinaryCarries([COMMA], [SPACE] + rest);
      WhiteCarries([SPACE], rest);
      CarriesBoth([COMMA], [COMMA], [SPACE], [], rest);
    }
  }

  lemma AfterMemberCarries(k: Codec, last: bool, rest: bytes)
    ensures Carries(AfterMember(Formatted(k), last), AfterMember(Unformatted(k), last), rest)
  {
    var comma := if last then [] else [COMMA];
    OrdinaryCarries(comma, [NEWLINE] + rest);
    WhiteCarries([NEWLINE], rest);
    CarriesBoth(comma, comma, [NEWLINE], [], rest);
  }

  lemma KeyCarries(key: bytes, k: Codec, depth: nat, rest: bytes)
    requires !EndsInBackslash(key)
    ensures Carries(KeyText(key, Formatted(k), depth), KeyText(key, Unformatted(k), depth), rest)
  {
    hide Quoted, Carries;
    var tabs := Repeat(TAB, depth);
    var q, c := Quoted(key), [COLON];
    WhiteCarries([TAB], rest);
    OrdinaryCarries(c, [TAB] + rest);
    CarriesBoth(c, c, [TAB], [], rest);
    QuotedCarries(key, c + [TAB] + rest);
    CarriesBoth(q, q, c + [TAB], c + [], rest);
    WhiteCarries(tabs, q + (c + [TAB]) + rest);
    CarriesBoth(tabs, [], q + (c + [TAB]), q + (c + []), rest);
    ConcatAssociates(tabs, q, c + [TAB]);
    ConcatAssociates([], q, c + []);
  }

  lemma {:induction false} ObjectCarries(ms: Members, k: Codec, depth: nat, rest: bytes)
    requires PlainMembers(ms, k) && SafeMembers(ms)
    ensures Carries(Text(Object(ms), Formatted(k), depth), Text(Object(ms), Unformatted(k), depth), rest)
    decreases ms, 2
  {
    hide Carries;
    var f, u := Formatted(k), Unformatted(k);
    var open, nl, tabs, close := [OPEN_BRACE], [NEWLINE], Repeat(TAB, depth), [CLOSE_BRACE];
    var t, m := MembersText(ms, f, depth + 1), MembersText(ms, u, depth + 1);
    OrdinaryCarries(close, rest);
    WhiteCarries(tabs, close + rest);
    MembersCarry(ms, k, depth + 1, tabs + (close + rest));
    WhiteCarries(nl, t + (tabs + (close + rest)));
    OrdinaryCarries(open, nl + (t + (tabs + (close + rest))));
    CarriesBoth(open, open, nl, [], t + (tabs + (close + rest)));
    CarriesBoth(open + nl, open + [], t, m, tabs + (close + rest));
    CarriesBoth(open + nl + t, open + [] + m, tabs, [], close + rest);
    CarriesBoth(open + nl + t + tabs, open + [] + m + [], close, close, rest);
  }

  lemma {:induction false} MembersCarry(ms: Members, k: Codec, depth: nat, rest: bytes)
    requires PlainMembers(ms, k) && SafeMembers(ms)
    ensures Carries(MembersText(ms, Formatted(k), depth), MembersText(ms, Unformatted(k), depth), rest)
    decreases ms, 0
  {
    hide Carries, Text, KeyText, AfterMember, Minified;
    if ms.NoMembers? {
      WhiteCarries([], rest);
    } else {
      var f, u := Formatted(k), Unformatted(k);
      var kf, ku := KeyText(ms.key, f, depth), KeyText(ms.key, u, depth);
      var vf, vu := Text(ms.value, f, depth), Text(ms.value, u, depth);
      var af, au := AfterMember(f, ms.rest.NoMembers?), AfterMember(u, ms.rest.NoMembers?);
      var mf, mu := MembersText(ms.rest, f, depth), MembersText(ms.rest, u, depth);
      MembersCarry(ms.rest, k, depth, rest);
      AfterMemberCarries(k, ms.rest.NoMembers?, mf + rest);
      ValueCarries(ms.value, k, depth, false, af + (mf + rest));
      KeyCarries(ms.key, k, depth, vf + (af + (mf + rest)));
      CarriesBoth(kf, ku, vf, vu, af + (mf + rest));
      CarriesBoth(kf + vf, ku + vu, af, au, mf + rest);
      CarriesBoth(kf + vf + af, ku + vu + au, mf, mu, rest);
    }
  }

  // ----- unsafe values -----

  /** The texts differ at a position both have. */
  predicate Apart(x: bytes, y: bytes) {
    exists i :: 0 <= i < |x| && i < |y| && x[i] != y[i]
  }

  lemma ApartBehind(p: bytes, x: bytes, y: bytes)
    requires Apart(x, y)
    ensures Apart(p + x, p + y)
  {
    var i :| 0 <= i < |x| && i < |y| && x[i] != y[i];
    assert (p + x)[|p| + i] != (p + y)[|p| + i];
  }

  /** The texts share their first `n` bytes and differ in the next one, and a string scan runs over all these. */
  predicate Torn(x: bytes, y: bytes, n: nat) {
    n < |x| && n < |y| && x[..n] == y[..n] && x[n] != y[n] && Inert(x[..n + 1])
  }

  lemma TornBehind(p: bytes, x: bytes, y: bytes, n: nat)
    requires Torn(x, y, n) && Inert(p)
    ensures Torn(p + x, p + y, |p| + n)
  {
    assert (p + x)[..|p| + n + 1] == p + x[..n + 1];
    assert (p + x)[..|p| + n] == p + x[..n] && (p + y)[..|p| + n] == p + y[..n];
  }

  /** A printed string behind whose final backslash the scan runs on. */
  lemma QuotedDiverges(s: bytes, rest: bytes, rest2: bytes, n: nat)
    requires EndsInBackslash(s) && Torn(rest, rest2, n)
    ensures Apart(Minified(Quoted(s) + rest), Quoted(s) + rest2)
  {
    hide Quoted, Minified, StringLength;
    QuotedMinified(s, rest);
    ScanInert(rest[..n + 1], rest[n + 1..]);
    assert rest == rest[..n + 1] + rest[n + 1..];
    var m := StringLength(rest);
    assert Minified(Quoted(s) + rest)[|Quoted(s)| + n] == rest[n];
    assert (Quoted(s) + rest2)[|Quoted(s)| + n] == rest2[n];
  }

  lemma CarriedApart(t: bytes, u: bytes, rest: bytes, rest2: bytes)
    requires Carries(t, u, rest) && Apart(Minified(rest), rest2)
    ensures Apart(Minified(t + rest), u + rest2)
  {
    ApartBehind(u, Minified(rest), rest2);
  }

  lemma {:induction false} ValueDiverges(v: Json, k: Codec, depth: nat, last: bool, rest: bytes, rest2: bytes, n: nat)
    requires Plain(v, k) && !Safe(v, last) && (!last ==> Torn(rest, rest2, n))
    ensures Apart(Minified(Text(v, Formatted(k), depth) + rest), Text(v, Unformatted(k), depth) + rest2)
    decreases v, 1
  {
    hide Quoted, Minified, Apart, Torn;
    match v
    case String(s) => QuotedDiverges(s, rest, rest2, n);
    case Array(es) =>
      ArrayDiverges(es, k, depth, last, rest, rest2, n);
    case Object(ms) => ObjectDiverges(ms, k, depth, rest, rest2);
  }

  lemma {:induction false} ArrayDiverges(es: Elems, k: Codec, depth: nat, last: bool, rest: bytes, rest2: bytes, n: nat)
    requires PlainElems(es, k) && !SafeElems(es, last) && (!last ==> Torn(rest, rest2, n))
    ensures Apart(Minified(Text(Array(es), Formatted(k), depth) + rest), Text(Array(es), Unformatted(k), depth) + rest2)
    decreases es, 1
  {
    hide Minified, Apart, Torn, SafeElems, PlainElems, ElemsText;
    var open, close := [OPEN_BRACKET], [CLOSE_BRACKET];
    var t, u := ElemsText(es, Formatted(k), depth + 1), ElemsText(es, Unformatted(k), depth + 1);
    if !last {
      TornBehind(close, rest, rest2, n);
    }
    ElemsDiverge(es, k, depth + 1, last, close + rest, close + rest2, n + 1);
    OrdinaryCarries(open, t + (close + rest));
    CarriedApart(open, open, t + (close + rest), u + (close + rest2));
    assert open + (t + (close + rest)) == open + t + close + rest;
    assert open + (u + (close + rest2)) == open + u + close + rest2;
  }

  lemma {:induction false} ElemsDiverge(es: Elems, k: Codec, depth: nat, last: bool, rest: bytes, rest2: bytes, n: nat)
    requires PlainElems(es, k) && !SafeElems(es, last) && (!last ==> Torn(rest, rest2, n))
    ensures Apart(Minified(ElemsText(es, Formatted(k), depth) + rest), ElemsText(es, Unformatted(k), depth) + rest2)
    decreases es, 0
  {
    hide Text, Minified, Apart, Torn, Carries, AfterElem;
    var f, u := Formatted(k), Unformatted(k);
    var bare := es.tail.NoElems?;
    var vf, vu := Text(es.head, f, depth), Text(es.head, u, depth);
    var af, au := AfterElem(f, bare), AfterElem(u, bare);
    var tf, tu := ElemsText(es.tail, f, depth), ElemsText(es.tail, u, depth);
    if !Safe(es.head, last && bare) {
      var m := if bare then n else 1;
      ElemTorn(es, k, depth, rest, rest2);
      ValueDiverges(es.head, k, depth, last && bare, af + (tf + rest), au + (tu + rest2), m);
    } else {
      ElemsDiverge(es.tail, k, depth, last, rest, rest2, n);
      AfterElemCarries(k, false, tf + rest);
      CarriedApart(af, au, tf + rest, tu + rest2);
      ValueCarries(es.head, k, depth, false, af + (tf + rest));
      CarriedApart(vf, vu, af + (tf + rest), au + (tu + rest2));
    }
    ConcatFour(vf, af, tf, rest);
    ConcatFour(vu, au, tu, rest2);
  }

  lemma ConcatFour(a: bytes, b: bytes, c: bytes, d: bytes)
    ensures a + (b + (c + d)) == a + b + c + d
  {}

  /** Between two elements a space stands in one print and the next element in the other. */
  lemma ElemTorn(es: Elems, k: Codec, depth: nat, rest: bytes, rest2: bytes)
    requires es.Elem? && PlainElems(es, k)
    ensures var bare := es.tail.NoElems?;
            var x := AfterElem(Formatted(k), bare) + (ElemsText(es.tail, Formatted(k), depth) + rest);
            var y := AfterElem(Unformatted(k), bare) + (ElemsText(es.tail, Unformatted(k), depth) + rest2);
            if bare then x == rest && y == rest2 else Torn(x, y, 1)
  {
    if es.tail.Elem? {
      hide Text;
      TextStarts(es.tail.head, Unformatted(k), depth);
    }
  }

  lemma {:induction false} ObjectDiverges(ms: Members, k: Codec, depth: nat, rest: bytes, rest2: bytes)
    requires PlainMembers(ms, k) && !SafeMembers(ms)
    ensures Apart(Minified(Text(Object(ms), Formatted(k), depth) + rest),
      Text(Object(ms), Unformatted(k), depth) + rest2)
    decreases ms, 2
  {
    hide Carries, Minified, Apart, MembersText;
    var f, u := Formatted(k), Unformatted(k);
    var tabs := Repeat(TAB, depth);
    var t, m := MembersText(ms, f, depth + 1), MembersText(ms, u, depth + 1);
    var x, y := tabs + [CLOSE_BRACE] + rest, [] + [CLOSE_BRACE] + rest2;
    MembersDiverge(ms, k, depth + 1, x, y);
    WhiteCarries([NEWLINE], t + x);
    CarriedApart([NEWLINE], [], t + x, m + y);
    OrdinaryCarries([OPEN_BRACE], [NEWLINE] + (t + x));
    CarriedApart([OPEN_BRACE], [OPEN_BRACE], [NEWLINE] + (t + x), [] + (m + y));
    ConcatSix([OPEN_BRACE], [NEWLINE], t, tabs, [CLOSE_BRACE], rest);
    ConcatSix([OPEN_BRACE], [], m, [], [CLOSE_BRACE], rest2);
  }

  lemma ConcatSix(a: bytes, b: bytes, c: bytes, d: bytes, e: bytes, f: bytes)
    ensures a + (b + (c + (d + e + f))) == a + b + c + d + e + f
  {}

  lemma {:induction false} MembersDiverge(ms: Members, k: Codec, depth: nat, rest: bytes, rest2: bytes)
    requires PlainMembers(ms, k) && !SafeMembers(ms) && rest2 != [] && rest2[0] == CLOSE_BRACE
    ensures Apart(Minified(MembersText(ms, Formatted(k), depth) + rest), MembersText(ms, Unformatted(k), depth) + rest2)
    decreases ms, 0
  {
    hide Text, Minified, Apart, Torn, Carries, KeyText, AfterMember;
    var f, u := Formatted(k), Unformatted(k);
    var kf, ku := KeyText(ms.key, f, depth), KeyText(ms.key, u, depth);
    var vf, vu := Text(ms.value, f, depth), Text(ms.value, u, depth);
    var bare := ms.rest.NoMembers?;
    var af, au := AfterMember(f, bare), AfterMember(u, bare);
    var mf, mu := MembersText(ms.rest, f, depth), MembersText(ms.rest, u, depth);
    var x, y := vf + (af + (mf + rest)), vu + (au + (mu + rest2));
    if EndsInBackslash(ms.key) {
      KeyDiverges(ms.key, ms.value, k, depth, af + (mf + rest), au + (mu + rest2));
    } else {
      if !Safe(ms.value, false) {
        var n := if bare then 0 else 1;
        MemberTorn(ms, k, depth, rest, rest2);
        ValueDiverges(ms.value, k, depth, false, af + (mf + rest), au + (mu + rest2), n);
      } else {
        MembersDiverge(ms.rest, k, depth, rest, rest2);
        AfterMemberCarries(k, bare, mf + rest);
        CarriedApart(af, au, mf + rest, mu + rest2);
        ValueCarries(ms.value, k, depth, false, af + (mf + rest));
        CarriedApart(vf, vu, af + (mf + rest), au + (mu + rest2));
      }
      KeyCarries(ms.key, k, depth, x);
      CarriedApart(kf, ku, x, y);
    }
    ConcatFive(kf, vf, af, mf, rest);
    ConcatFive(ku, vu, au, mu, rest2);
  }

  lemma ConcatFive(a: bytes, b: bytes, c: bytes, d: bytes, e: bytes)
    ensures a + (b + (c + (d + e))) == a + b + c + d + e
  {}

  /** Between two members, or behind the last one, a newline stands in one print and a quote or a brace in the other. */
  lemma MemberTorn(ms: Members, k: Codec, depth: nat, rest: bytes, rest2: bytes)
    requires ms.Member? && rest2 != [] && rest2[0] == CLOSE_BRACE
    ensures var bare := ms.rest.NoMembers?;
            var x := AfterMember(Formatted(k), bare) + (MembersText(ms.rest, Formatted(k), depth) + rest);
            var y := AfterMember(Unformatted(k), bare) + (MembersText(ms.rest, Unformatted(k), depth) + rest2);
            Torn(x, y, if bare then 0 else 1)
  {
    if ms.rest.Member? {
      hide Text, Escaped;
    }
  }

  /** A key that ends in a backslash hides its closing quote, so the tab behind the colon stays. */
  lemma KeyDiverges(key: bytes, v: Json, k: Codec, depth: nat, rest: bytes, rest2: bytes)
    requires EndsInBackslash(key) && Plain(v, k)
    ensures var f, u := Formatted(k), Unformatted(k);
            Apart(Minified(KeyText(key, f, depth) + (Text(v, f, depth) + rest)),
              KeyText(key, u, depth) + (Text(v, u, depth) + rest2))
  {
    hide Quoted, Minified, Apart, Text, Carries;
    var f, u := Formatted(k), Unformatted(k);
    var q, tabs := Quoted(key), Repeat(TAB, depth);
    var x, y := Text(v, f, depth) + rest, Text(v, u, depth) + rest2;
    TextStarts(v, u, depth);
    assert Torn([COLON] + [TAB] + x, [COLON] + [] + y, 1);
    QuotedDiverges(key, [COLON] + [TAB] + x, [COLON] + [] + y, 1);
    WhiteCarries(tabs, q + ([COLON] + [TAB] + x));
    CarriedApart(tabs, [], q + ([COLON] + [TAB] + x), q + ([COLON] + [] + y));
    assert tabs + (q + ([COLON] + [TAB] + x)) == KeyText(key, f, depth) + x;
    assert [] + (q + ([COLON] + [] + y)) == KeyText(key, u, depth) + y;
  }

  /** The theorem: on a formatted print, minifying gives the unformatted print exactly when the value is safe. */
  lemma MinifyUnformats(v: Json, k: Codec)
    requires Plain(v, k)
    ensures Minified(Text(v, Formatted(k), 0)) == Text(v, Unformatted(k), 0) <==> Safe(v, true)
  {
    var t, u := Text(v, Formatted(k), 0), Text(v, Unformatted(k), 0);
    hide Text, Minified;
    assert t + [] == t && u + [] == u;
    if Safe(v, true) {
      ValueCarries(v, k, 0, true, []);
      MinifiedEmpty();
    } else {
      ValueDiverges(v, k, 0, true, [], [], 0);
    }
  }

  /** No backslash in any key or string: the condition callers can see at once. */
  predicate NoBackslash(v: Json) {
    match v
    case String(s) => BACKSLASH !in s
    case Array(es) => NoBackslashElems(es)
    case Object(ms) => NoBackslashMembers(ms)
    case _ => true
  }

  predicate NoBackslashElems(es: Elems) {
    es.Elem? ==> NoBackslash(es.head) && NoBackslashElems(es.tail)
  }

  predicate NoBackslashMembers(ms: Members) {
    ms.Member? ==> BACKSLASH !in ms.key && NoBackslash(ms.value) && NoBackslashMembers(ms.rest)
  }

  lemma {:induction false} NoBackslashIsSafe(v: Json, last: bool)
    requires NoBackslash(v)
    ensures Safe(v, last)
    decreases v, 1
  {
    match v
    case Array(es) => NoBackslashElemsSafe(es, last);
    case Object(ms) => NoBackslashMembersSafe(ms);
    case _ =>
  }

  lemma {:induction false} NoBackslashElemsSafe(es: Elems, last: bool)
    requires NoBackslashElems(es)
    ensures SafeElems(es, last)
    decreases es, 0
  {
    if es.Elem? {
      NoBackslashIsSafe(es.head, last && es.tail.NoElems?);
      NoBackslashElemsSafe(es.tail, last);
    }
  }

  lemma {:induction false} NoBackslashMembersSafe(ms: Members)
    requires NoBackslashMembers(ms)
    ensures SafeMembers(ms)
    decreases ms, 0
  {
    if ms.Member? {
      NoBackslashIsSafe(ms.value, false);
      NoBackslashMembersSafe(ms.rest);
    }
  }

  lemma MinifyUnformatsWithoutBackslash(v: Json, k: Codec)
    requires Plain(v, k) && NoBackslash(v)
    ensures Minified(Text(v, Formatted(k), 0)) == Text(v, Unformatted(k), 0)
  {
    NoBackslashIsSafe(v, true);
    MinifyUnformats(v, k);
  }

  /** An object that shows the failure: the printed white space behind the key stays in the minified text. */
  lemma TrailingBackslashKeepsSpace(k: Codec)
    ensures var v := Object(Member([BACKSLASH], Null, NoMembers));
            Minified(Text(v, Formatted(k), 0)) != Text(v, Unformatted(k), 0)
  {
    assert NulFree([BACKSLASH]) && Plain(Null, k) && PlainMembers(NoMembers, k);
    MinifyUnformats(Object(Member([BACKSLASH], Null, NoMembers)), k);
  }
}
