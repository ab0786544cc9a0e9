/**
  The layout of printed text, told by a scan over its bytes that knows strings from what stands between them and counts
  the open brackets and braces.
  */
module JsonLayout {
  import opened Bytes
  import opened JsonStrings
  import opened JsonValues

  datatype Place = Outside | Inside | Escape

  /**
    The opening brackets and braces not yet closed, and whether the scan is in a string, perhaps behind a backslash.
    */
  datatype Scan = Scan(open: bytes, place: Place)

  const START: Scan := Scan([], Outside)

  function Next(s: Scan, b: byte): Scan {
    match s.place
    case Escape => s.(place := Inside)
    case Inside => s.(place := if b == 34 then Outside else if b == 92 then Escape else Inside)
    case Outside =>
      if b == 34 then s.(place := Inside)
      else if b == 91 || b == 123 then s.(open := s.open + [b])
      else if (b == 93 || b == 125) && s.open != [] then s.(open := s.open[..|s.open| - 1])
      else s
  }

  function Scanned(s: Scan, t: bytes): Scan
    decreases |t|
  {
    if t == [] then s else Scanned(Next(s, t[0]), t[1..])
  }

  predicate Blank(b: byte) {
    b == 32 || b == 9 || b == 10 || b == 13
  }

  function Blanks(t: bytes): (n: nat)
    ensures n <= |t| && (n < |t| ==> !Blank(t[n]))
    ensures forall i :: 0 <= i < n ==> Blank(t[i])
  {
    if t != [] && Blank(t[0]) then 1 + Blanks(t[1..]) else 0
  }

  /** A newline and `n` tabs. */
  function Line(n: nat): (t: bytes)
    ensures |t| == 1 + n && t[0] == 10 && forall i :: 1 <= i <= n ==> t[i] == 9
  {
    if n == 0 then [10] else Line(n - 1) + [9]
  }

  /** The innermost bracket or brace is `b`. */
  predicate In(open: bytes, b: byte) {
    open != [] && open[|open| - 1] == b
  }

  /** The white space between the bytes `b` and `next` outside strings; `open` is what is open behind `b`. */
  function Between(formatted: bool, b: byte, next: byte, open: bytes): bytes {
    if !formatted then []
    else if b == 58 then [9]
    else if b == 44 && In(open, 91) then [32]
    else if next == 125 then Line(if open == [] then 0 else |open| - 1)
    else if b == 44 || b == 123 then Line(|open|)
    else []
  }

  /** Behind the byte `b` exactly the right white space stands, and the rest is laid out. */
  predicate Spaced(formatted: bool, b: byte, t: bytes, s: Scan)
    decreases |t|, 1
  {
    var n := Blanks(t);
    var next := if n < |t| then t[n] else 0;
    && t[..n] == Between(formatted, b, next, s.open)
    && (b == 44 || b == 58 ==> n < |t| && next != 93 && next != 125)
    && LaidOut(formatted, t[n..], s)
  }

  /**
    Strings hold no control characters; between any two bytes outside of strings stands the white space of the layout;
    everything is closed, each bracket and brace by its own kind.
    */
  predicate LaidOut(formatted: bool, t: bytes, s: Scan)
    decreases |t|, 0
  {
    if t == [] then s == START
    else
      var r := Next(s, t[0]);
      && t[0] > 31
      && (s.place.Outside? ==> (t[0] == 93 ==> In(s.open, 91)) && (t[0] == 125 ==> In(s.open, 123)))
      && if r.place.Outside? then t[0] > 32 && Spaced(formatted, t[0], t[1..], r) else LaidOut(formatted, t[1..], r)
  }

  // ----- pieces -----

  lemma {:induction false} BlanksOf(t: bytes, n: nat)
    requires n <= |t| && (n < |t| ==> !Blank(t[n])) && forall i :: 0 <= i < n ==> Blank(t[i])
    ensures Blanks(t) == n
    decreases n
  {
    if n > 0 {
      BlanksOf(t[1..], n - 1);
    }
  }

  /** White space and what follows it. */
  lemma SpacedBy(f: bool, b: byte, gap: bytes, rest: bytes, s: Scan)
    requires forall i :: 0 <= i < |gap| ==> Blank(gap[i])
    requires rest != [] && !Blank(rest[0]) && gap == Between(f, b, rest[0], s.open) && LaidOut(f, rest, s)
    requires b == 44 || b == 58 ==> rest[0] != 93 && rest[0] != 125
    ensures Spaced(f, b, gap + rest, s)
  {
    hide LaidOut, Between;
    BlanksOf(gap + rest, |gap|);
    assert (gap + rest)[..|gap|] == gap && (gap + rest)[|gap|..] == rest;
  }

  /** A byte that ends a value, or a part of one. */
  predicate Ends(b: byte) {
    b != 123 && b != 44 && b != 58
  }

  lemma SpacedAlike(f: bool, b: byte, b2: byte, t: bytes, s: Scan)
    requires Ends(b) && Ends(b2) && Spaced(f, b, t, s)
    ensures Spaced(f, b2, t, s)
  {
    hide LaidOut;
  }

  lemma Tight(f: bool, b: byte, rest: bytes, s: Scan)
    requires rest != [] && !Blank(rest[0]) && rest[0] != 125 && Ends(b) && LaidOut(f, rest, s)
    ensures Spaced(f, b, rest, s)
  {
    hide LaidOut;
    assert [] + rest == rest;
    SpacedBy(f, b, [], rest, s);
  }

  /** A byte outside of strings that opens no string. */
  lemma ByteLaid(f: bool, b: byte, rest: bytes, s: Scan)
    requires s.place.Outside? && b > 32 && b != 34 && Spaced(f, b, rest, Next(s, b))
    requires (b == 93 ==> In(s.open, 91)) && (b == 125 ==> In(s.open, 123))
    ensures LaidOut(f, [b] + rest, s)
  {
    hide Spaced;
    assert ([b] + rest)[1..] == rest;
  }

  /** Bytes of literals and numbers. */
  predicate Ordinary(t: bytes) {
    forall i :: 0 <= i < |t| ==>
      t[i] > 32 && t[i] != 34 && t[i] != 44 && t[i] != 58 && t[i] != 91 && t[i] != 93 && t[i] != 123 && t[i] != 125
  }

  lemma {:induction false} OrdinaryLaid(f: bool, t: bytes, rest: bytes, s: Scan)
    requires t != [] && Ordinary(t) && s.place.Outside? && Spaced(f, 0, rest, s)
    ensures LaidOut(f, t + rest, s)
    decreases |t|
  {
    hide Spaced, LaidOut;
    var more := t[1..] + rest;
    if |t| == 1 {
      SpacedAlike(f, 0, t[0], rest, s);
      assert more == rest;
    } else {
      OrdinaryLaid(f, t[1..], rest, s);
      Tight(f, t[0], more, s);
    }
    ByteLaid(f, t[0], more, s);
    assert t + rest == [t[0]] + more;
  }

  /** A byte in a string that leaves it open. */
  lemma InsideLaid(f: bool, b: byte, rest: bytes, s: Scan)
    requires b > 31 && !Next(s, b).place.Outside? && LaidOut(f, rest, Next(s, b))
    ensures LaidOut(f, [b] + rest, s)
  {
    assert ([b] + rest)[1..] == rest;
  }

  /** The forms in which a byte is printed. */
  lemma EscapeForms(b: byte)
    ensures var e := EscapeByte(b);
            && (|e| == 1 || |e| == 2 || |e| == 6) && (forall i :: 0 <= i < |e| ==> e[i] > 31)
            && (|e| == 1 ==> e == [b] && b != 34 && b != 92) && (|e| > 1 ==> e[0] == 92)
            && (|e| == 6 ==> forall i :: 2 <= i < 6 ==> e[i] != 34 && e[i] != 92)
  {}

  lemma {:induction false} InertLaid(f: bool, t: bytes, rest: bytes, s: Scan)
    requires s.place.Inside? && (forall i :: 0 <= i < |t| ==> t[i] > 31 && t[i] != 34 && t[i] != 92)
    requires LaidOut(f, rest, s)
    ensures LaidOut(f, t + rest, s)
    decreases |t|
  {
    hide LaidOut;
    if t == [] {
      assert t + rest == rest;
    } else {
      InertLaid(f, t[1..], rest, s);
      InsideLaid(f, t[0], t[1..] + rest, s);
      assert t + rest == [t[0]] + (t[1..] + rest);
    }
  }

  lemma EscapeLaid(f: bool, b: byte, rest: bytes, s: Scan)
    requires s.place.Inside? && LaidOut(f, rest, s)
    ensures LaidOut(f, EscapeByte(b) + rest, s)
  {
    hide LaidOut, EscapeByte;
    EscapeForms(b);
    var e := EscapeByte(b);
    if |e| == 1 {
      InertLaid(f, e, rest, s);
    } else {
      InertLaid(f, e[2..], rest, s);
      InsideLaid(f, e[1], e[2..] + rest, s.(place := Escape));
      InsideLaid(f, 92, [e[1]] + (e[2..] + rest), s);
      assert e + rest == [92] + ([e[1]] + (e[2..] + rest));
    }
  }

  lemma {:induction false} EscapedLaid(f: bool, str: bytes, rest: bytes, s: Scan)
    requires s.place.Inside? && LaidOut(f, rest, s)
    ensures LaidOut(f, Escaped(str) + rest, s)
    decreases |str|
  {
    hide LaidOut, EscapeByte;
    if str == [] {
      assert Escaped(str) + rest == rest;
    } else {
      EscapedLaid(f, str[1..], rest, s);
      EscapeLaid(f, str[0], Escaped(str[1..]) + rest, s);
      ConcatAssociates(EscapeByte(str[0]), Escaped(str[1..]), rest);
    }
  }

  lemma QuoteLaid(f: bool, rest: bytes, s: Scan)
    requires s.place.Outside? && Spaced(f, 0, rest, s)
    ensures LaidOut(f, [34] + rest, s.(place := Inside))
  {
    SpacedAlike(f, 0, 34, rest, s);
    assert ([34] + rest)[1..] == rest;
    hide Spaced;
  }

  lemma QuotedLaid(f: bool, str: bytes, rest: bytes, s: Scan)
    requires s.place.Outside? && Spaced(f, 0, rest, s)
    ensures LaidOut(f, Quoted(str) + rest, s)
  {
    hide LaidOut, Spaced, Escaped;
    var e := Escaped(str);
    QuoteLaid(f, rest, s);
    EscapedLaid(f, str, [34] + rest, s.(place := Inside));
    InsideLaid(f, 34, e + ([34] + rest), s);
    assert Quoted(str) + rest == [34] + (e + ([34] + rest));
  }

  // ----- values -----

  lemma TextBegins(v: Json, l: Layout, depth: nat)
    requires Plain(v, l.codec)
    ensures var t := Text(v, l, depth); t != [] && t[0] > 32 && t[0] != 93 && t[0] != 125
  {}

  lemma WordLaid(v: Json, l: Layout, depth: nat, rest: bytes, s: Scan)
    requires !v.Array? && !v.Object? && Plain(v, l.codec) && s.place.Outside? && Spaced(l.formatted, 0, rest, s)
    ensures LaidOut(l.formatted, Text(v, l, depth) + rest, s)
  {
    hide LaidOut, Spaced, Quoted;
    if v.String? {
      QuotedLaid(l.formatted, v.text, rest, s);
    } else {
      OrdinaryLaid(l.formatted, Text(v, l, depth), rest, s);
    }
  }

  /** A value, if what follows it is spaced as behind a value. */
  lemma {:induction false} ValueLaid(v: Json, l: Layout, rest: bytes, s: Scan)
    requires Plain(v, l.codec) && s.place.Outside? && Spaced(l.formatted, 0, rest, s)
    ensures LaidOut(l.formatted, Text(v, l, |s.open|) + rest, s)
    decreases v, 1
  {
    hide LaidOut, Spaced, Text, Lossless;
    if v.Array? {
      ArrayLaid(v.elems, l, rest, s);
    } else if v.Object? {
      ObjectLaid(v.members, l, rest, s);
    } else {
      WordLaid(v, l, |s.open|, rest, s);
    }
  }

  /** What is open behind the opening byte `b`. */
  function Opened(s: Scan, b: byte): Scan {
    s.(open := s.open + [b])
  }

  lemma ArrayParts(es: Elems, l: Layout, depth: nat, rest: bytes)
    ensures Text(Array(es), l, depth) + rest == [91] + (ElemsText(es, l, depth + 1) + ([93] + rest))
  {
    hide ElemsText;
  }

  lemma {:induction false} ArrayLaid(es: Elems, l: Layout, rest: bytes, s: Scan)
    requires PlainElems(es, l.codec) && s.place.Outside? && Spaced(l.formatted, 0, rest, s)
    ensures LaidOut(l.formatted, Text(Array(es), l, |s.open|) + rest, s)
    decreases es, 2
  {
    hide LaidOut, Spaced, Text, ElemsText, Plain;
    var f := l.formatted;
    var r := Opened(s, 91);
    assert r.open[..|r.open| - 1] == s.open;
    SpacedAlike(f, 0, 93, rest, s);
    ByteLaid(f, 93, rest, r);
    ElemsLaid(es, l, [93] + rest, r);
    Tight(f, 91, ElemsText(es, l, |r.open|) + ([93] + rest), r);
    ByteLaid(f, 91, ElemsText(es, l, |r.open|) + ([93] + rest), s);
    ArrayParts(es, l, |s.open|, rest);
  }

  lemma ElemsParts(es: Elems, l: Layout, depth: nat, rest: bytes)
    requires es.Elem?
    ensures ElemsText(es, l, depth) + rest ==
            Text(es.head, l, depth) +
            if es.tail.NoElems? then rest
            else [44] + ((if l.formatted then [32] else []) + (ElemsText(es.tail, l, depth) + rest))
  {
    hide Text;
  }

  lemma {:induction false} ElemsLaid(es: Elems, l: Layout, rest: bytes, s: Scan)
    requires PlainElems(es, l.codec) && s.place.Outside? && In(s.open, 91)
    requires rest != [] && rest[0] == 93 && LaidOut(l.formatted, rest, s)
    ensures LaidOut(l.formatted, ElemsText(es, l, |s.open|) + rest, s)
    ensures var t := ElemsText(es, l, |s.open|) + rest; t[0] > 32 && t[0] != 125 && (es.Elem? ==> t[0] != 93)
    decreases es, 1
  {
    hide LaidOut, Spaced, Text, ElemsText, Plain;
    var f, depth := l.formatted, |s.open|;
    if es.NoElems? {
      NoElemsText(l, depth);
      assert [] + rest == rest;
    } else {
      ElemsParts(es, l, depth, rest);
      TextBegins(es.head, l, depth);
      if es.tail.NoElems? {
        Tight(f, 0, rest, s);
        ValueLaid(es.head, l, rest, s);
      } else {
        ElemsLaid(es.tail, l, rest, s);
        var more := ElemsText(es.tail, l, depth) + rest;
        var gap: bytes := if f then [32] else [];
        SpacedBy(f, 44, gap, more, s);
        ByteLaid(f, 44, gap + more, s);
        Tight(f, 0, [44] + (gap + more), s);
        ValueLaid(es.head, l, [44] + (gap + more), s);
      }
    }
  }

  lemma NoElemsText(l: Layout, depth: nat)
    ensures ElemsText(NoElems, l, depth) == []
  {}

  lemma {:induction false} LineIs(n: nat)
    ensures Line(n) == [10] + Repeat(9, n)
    ensures forall i :: 0 <= i <= n ==> Blank(Line(n)[i])
  {}

  lemma SevenParts(a: bytes, b: bytes, c: bytes, d: bytes, e: bytes, f: bytes, g: bytes, rest: bytes)
    ensures a + ((b + c + d) + e + f + g) + rest == (a + b) + (c + (d + (e + (f + g + rest))))
  {}

  /** A member between its line and what follows its value. */
  lemma MembersParts(ms: Members, l: Layout, depth: nat, rest: bytes)
    requires ms.Member?
    ensures var gap := if l.formatted then [9] else [];
            var more := if ms.rest.NoMembers? then [] else [44];
            Gap(l, [10]) + MembersText(ms, l, depth) + rest ==
            (if l.formatted then Line(depth) else []) +
            (Quoted(ms.key) + (([58] + gap) + (Text(ms.value, l, depth) +
            ((more + Gap(l, [10])) + MembersText(ms.rest, l, depth) + rest))))
  {
    hide Text, Quoted;
    LineIs(depth);
    SevenParts(Gap(l, [10]), Gap(l, Repeat(9, depth)), Quoted(ms.key), [58] + Gap(l, [9]), Text(ms.value, l, depth),
      AfterMember(l, ms.rest.NoMembers?), MembersText(ms.rest, l, depth), rest);
  }

  lemma ObjectParts(ms: Members, l: Layout, depth: nat, rest: bytes)
    ensures Text(Object(ms), l, depth) + rest ==
            [123] + (Gap(l, [10]) + MembersText(ms, l, depth + 1) + (Gap(l, Repeat(9, depth)) + ([125] + rest)))
  {
    hide MembersText;
  }

  lemma {:induction false} ObjectLaid(ms: Members, l: Layout, rest: bytes, s: Scan)
    requires PlainMembers(ms, l.codec) && s.place.Outside? && Spaced(l.formatted, 0, rest, s)
    ensures LaidOut(l.formatted, Text(Object(ms), l, |s.open|) + rest, s)
    decreases ms, 2
  {
    hide LaidOut, Spaced, Text, MembersText, Plain, Gap;
    var f := l.formatted;
    var r := Opened(s, 123);
    assert r.open[..|r.open| - 1] == s.open;
    SpacedAlike(f, 0, 125, rest, s);
    ByteLaid(f, 125, rest, r);
    MembersLaid(123, ms, l, rest, r);
    ObjectParts(ms, l, |s.open|, rest);
    ByteLaid(f, 123, Gap(l, [10]) + MembersText(ms, l, |s.open| + 1) + (Gap(l, Repeat(9, |s.open|)) + ([125] + rest)),
      s);
  }

  lemma NoMembersSpaced(b: byte, l: Layout, rest: bytes, s: Scan)
    requires s.open != [] && (b == 123 || b == 0) && LaidOut(l.formatted, [125] + rest, s)
    ensures Spaced(l.formatted, b,
      Gap(l, [10]) + MembersText(NoMembers, l, |s.open|) + (Gap(l, Repeat(9, |s.open| - 1)) + ([125] + rest)), s)
  {
    hide LaidOut, Spaced;
    var line := if l.formatted then Line(|s.open| - 1) else [];
    LineIs(|s.open| - 1);
    SpacedBy(l.formatted, b, line, [125] + rest, s);
    assert Gap(l, [10]) + [] + (Gap(l, Repeat(9, |s.open| - 1)) + ([125] + rest)) == line + ([125] + rest);
  }

  /** The members behind the brace or comma `b`, or behind a value if there is none left. */
  lemma {:induction false} MembersLaid(b: byte, ms: Members, l: Layout, rest: bytes, s: Scan)
    requires PlainMembers(ms, l.codec) && s.place.Outside? && In(s.open, 123)
    requires b == 123 || b == if ms.Member? then 44 else 0
    requires LaidOut(l.formatted, [125] + rest, s)
    ensures Spaced(l.formatted, b,
      Gap(l, [10]) + MembersText(ms, l, |s.open|) + (Gap(l, Repeat(9, |s.open| - 1)) + ([125] + rest)), s)
    decreases ms, 1
  {
    hide LaidOut, Spaced, Text, MembersText, Plain, Gap, Quoted;
    var f, depth := l.formatted, |s.open|;
    if ms.NoMembers? {
      NoMembersSpaced(b, l, rest, s);
    } else {
      var end := Gap(l, Repeat(9, depth - 1)) + ([125] + rest);
      var next: byte := if ms.rest.NoMembers? then 0 else 44;
      var tail := Gap(l, [10]) + MembersText(ms.rest, l, depth) + end;
      MembersLaid(next, ms.rest, l, rest, s);
      if ms.rest.NoMembers? {
        assert [] + tail == tail;
      } else {
        ByteLaid(f, 44, tail, s);
        Tight(f, 0, [44] + tail, s);
      }
      var more := if ms.rest.NoMembers? then [] else [44];
      ValueLaid(ms.value, l, more + tail, s);
      MemberLaid(b, ms, l, more + tail, s);
      MembersParts(ms, l, depth, end);
      var gap: bytes := if f then [9] else [];
      var t := Text(ms.value, l, depth);
      ConcatAssociates([58], gap, t + (more + tail));
      ThreeParts(more, Gap(l, [10]), MembersText(ms.rest, l, depth), end);
    }
  }

  lemma ThreeParts(a: bytes, b: bytes, c: bytes, d: bytes)
    ensures (a + b) + c + d == a + (b + c + d)
  {}

  /** The line of a member in front of what is laid out. */
  lemma MemberLaid(b: byte, ms: Members, l: Layout, rest: bytes, s: Scan)
    requires ms.Member? && Plain(ms.value, l.codec) && s.place.Outside? && (b == 123 || b == 44)
    requires In(s.open, 123)
    requires LaidOut(l.formatted, Text(ms.value, l, |s.open|) + rest, s)
    ensures var gap := if l.formatted then [9] else [];
            Spaced(l.formatted, b,
              (if l.formatted then Line(|s.open|) else []) +
              (Quoted(ms.key) + ([58] + (gap + (Text(ms.value, l, |s.open|) + rest)))), s)
  {
    hide LaidOut, Spaced, Text, Plain, Escaped;
    var f := l.formatted;
    var t := Text(ms.value, l, |s.open|) + rest;
    var gap: bytes := if f then [9] else [];
    var line := if f then Line(|s.open|) else [];
    TextBegins(ms.value, l, |s.open|);
    SpacedBy(f, 58, gap, t, s);
    ByteLaid(f, 58, gap + t, s);
    Tight(f, 0, [58] + (gap + t), s);
    QuotedLaid(f, ms.key, [58] + (gap + t), s);
    LineIs(|s.open|);
    SpacedBy(f, b, line, Quoted(ms.key) + ([58] + (gap + t)), s);
  }

  /** The print of every value is laid out, in either layout. */
  lemma PrintLaidOut(v: Json, l: Layout)
    requires Plain(v, l.codec)
    ensures LaidOut(l.formatted, Text(v, l, 0), START)
  {
    assert Blanks([]) == 0;
    assert Spaced(l.formatted, 0, [], START);
    ValueLaid(v, l, [], START);
    assert Text(v, l, 0) + [] == Text(v, l, 0);
  }

  // ----- what that says of any one position -----

  lemma {:induction false} ScannedOn(s: Scan, t: bytes, n: nat, i: nat)
    requires n <= i <= |t|
    ensures Scanned(s, t[..i]) == Scanned(Scanned(s, t[..n]), t[n..i])
    decreases n
  {
    if n > 0 {
      ScannedOn(Next(s, t[0]), t[1..], n - 1, i - 1);
      assert t[..i][1..] == t[1..][..i - 1] && t[..n][1..] == t[1..][..n - 1] && t[n..i] == t[1..][n - 1..i - 1];
    } else {
      assert t[..i] == t[0..i];
    }
  }

  lemma {:induction false} BlanksScanned(s: Scan, t: bytes)
    requires s.place.Outside? && forall i :: 0 <= i < |t| ==> Blank(t[i])
    ensures Scanned(s, t) == s
    decreases |t|
  {
    if t != [] {
      BlanksScanned(s, t[1..]);
    }
  }

  /** A scan of the text up to `i` is one from behind the first byte and the white space there. */
  lemma ScannedPast(s: Scan, t: bytes, n: nat, i: nat)
    requires t != [] && 1 <= n <= i <= |t| && (n > 1 ==> Next(s, t[0]).place.Outside?)
    requires forall j :: 1 <= j < n ==> Blank(t[j])
    ensures Scanned(s, t[..i]) == Scanned(Next(s, t[0]), t[n..][..i - n])
  {
    ScannedOn(s, t, n, i);
    var r := Next(s, t[0]);
    ScannedOn(s, t, 1, n);
    assert Scanned(s, t[..1]) == r by {
      assert t[..1][1..] == [];
    }
    if n > 1 {
      BlanksScanned(r, t[1..n]);
    } else {
      assert t[1..n] == [];
    }
    assert t[n..][..i - n] == t[n..i];
  }

  /** How far from the first byte the next one is that the layout does not determine. */
  function Stride(s: Scan, t: bytes): (n: nat)
    requires t != []
    ensures 1 <= n <= |t|
  {
    if Next(s, t[0]).place.Outside? then 1 + Blanks(t[1..]) else 1
  }

  lemma StrideLaid(f: bool, t: bytes, s: Scan)
    requires t != [] && LaidOut(f, t, s)
    ensures var n := Stride(s, t);
            && LaidOut(f, t[n..], Next(s, t[0]))
            && (forall j :: 1 <= j < n ==> Blank(t[j])) && (n > 1 ==> Next(s, t[0]).place.Outside?)
  {
    var n := Stride(s, t);
    if n > 1 {
      assert t[1..][n - 1..] == t[n..];
      assert forall j :: 1 <= j < n ==> t[j] == t[1..][j - 1];
    }
  }

  /** Behind a visible byte outside of strings the white space is that of the layout. */
  lemma {:induction false} SpacedAt(f: bool, t: bytes, s: Scan, i: nat)
    requires LaidOut(f, t, s) && i < |t| && Scanned(s, t[..i]).place.Outside? && t[i] > 32 && t[i] != 34
    ensures Spaced(f, t[i], t[i + 1..], Next(Scanned(s, t[..i]), t[i]))
    decreases |t|
  {
    hide Spaced;
    var r, n := Next(s, t[0]), Stride(s, t);
    StrideLaid(f, t, s);
    if i > 0 {
      hide LaidOut;
      assert i >= n;
      ScannedPast(s, t, n, i);
      SpacedAt(f, t[n..], r, i - n);
      assert t[n..][i - n + 1..] == t[i + 1..];
    }
  }

  /** A newline outside of strings belongs to a line of the layout. */
  lemma {:induction false} LineAt(f: bool, t: bytes, s: Scan, i: nat) returns (n: nat)
    requires LaidOut(f, t, s) && i < |t| && Scanned(s, t[..i]).place.Outside? && t[i] == 10
    ensures f && i + 1 + n < |t| && (forall j :: i < j <= i + n ==> t[j] == 9) && t[i + 1 + n] > 32
    ensures |Scanned(s, t[..i]).open| == n + if t[i + 1 + n] == 125 then 1 else 0
    decreases |t|
  {
    hide LaidOut, Spaced, Scanned, Stride, Next;
    var r, m := Next(s, t[0]), Stride(s, t);
    StrideLaid(f, t, s);
    if i >= m {
      ScannedPast(s, t, m, i);
      var u := t[m..];
      n := LineAt(f, u, r, i - m);
      assert t[i + 1 + n] == u[i - m + 1 + n];
      assert forall j :: i < j <= i + n ==> t[j] == u[j - m];
    } else {
      n := FirstLine(f, t, s, i);
    }
  }

  lemma FirstLine(f: bool, t: bytes, s: Scan, i: nat) returns (n: nat)
    requires t != [] && LaidOut(f, t, s) && i < Stride(s, t) && t[i] == 10
    ensures f && i + 1 + n < |t| && (forall j :: i < j <= i + n ==> t[j] == 9) && t[i + 1 + n] > 32
    ensures |Scanned(s, t[..i]).open| == n + if t[i + 1 + n] == 125 then 1 else 0
  {
    var r, m, u := Next(s, t[0]), Blanks(t[1..]), t[1..];
    n := SpacedLine(f, t[0], u, r, i - 1);
    ScannedPast(s, t, 1, i);
    assert t[1..][..i - 1] == [];
    assert forall j :: 1 <= j < |t| ==> t[j] == u[j - 1];
  }

  /** White space with a newline in it is one line. */
  lemma SpacedLine(f: bool, b: byte, u: bytes, r: Scan, j: nat) returns (n: nat)
    requires Spaced(f, b, u, r) && r.place.Outside? && (b == 123 ==> r.open != []) && j < Blanks(u) && u[j] == 10
    ensures f && j == 0 && 1 + n < |u| && (forall i :: 1 <= i <= n ==> u[i] == 9) && u[1 + n] > 32
    ensures |r.open| == n + if u[1 + n] == 125 then 1 else 0
  {
    var m := Blanks(u);
    var gap := u[..m];
    assert gap[j] == 10 && forall i :: 0 <= i < m ==> u[i] == gap[i];
    n := m - 1;
    assert m < |u|;
    assert LaidOut(f, u[m..], r) && u[m..][0] == u[m];
  }

  /** In a text without white space the scan stops at every byte. */
  lemma {:induction false} TightAt(t: bytes, s: Scan, i: nat)
    requires LaidOut(false, t, s) && i < |t|
    ensures t[i] > 31 && (Scanned(s, t[..i]).place.Outside? ==> t[i] > 32)
    decreases |t|
  {
    StrideLaid(false, t, s);
    if i > 0 {
      assert Stride(s, t) == 1;
      ScannedPast(s, t, 1, i);
      hide LaidOut, Spaced;
      TightAt(t[1..], Next(s, t[0]), i - 1);
    }
  }

  /** In a print every newline outside of strings is followed by as many tabs as are open, or one fewer and a brace. */
  lemma NewlinesIndent(v: Json, l: Layout, i: nat) returns (n: nat)
    requires Plain(v, l.codec) && i < |Text(v, l, 0)|
    requires Scanned(START, Text(v, l, 0)[..i]).place.Outside? && Text(v, l, 0)[i] == 10
    ensures var t := Text(v, l, 0);
            var open := Scanned(START, t[..i]).open;
            && l.formatted && i + 1 + n < |t| && (forall j :: i < j <= i + n ==> t[j] == 9) && t[i + 1 + n] > 32
            && n + (if t[i + 1 + n] == 125 then 1 else 0) == |open|
  {
    hide LaidOut, Text, Plain;
    PrintLaidOut(v, l);
    n := LineAt(l.formatted, Text(v, l, 0), START, i);
  }

  /** Without white space, or with one byte of it and then none, or with a newline. */
  predicate Followed(formatted: bool, t: bytes, i: nat, blank: byte) {
    && i + 1 < |t|
    && if !formatted then t[i + 1] > 32 else t[i + 1] == blank && (blank == 10 || (i + 2 < |t| && t[i + 2] > 32))
  }

  /**
    In a formatted print a comma is followed by a space among elements and by a newline among members, a colon by a tab,
    and an opening brace by a newline; nothing else follows an opening bracket than its first element or its end.
    */
  lemma SeparatorsFollowed(v: Json, l: Layout, i: nat)
    requires Plain(v, l.codec) && i < |Text(v, l, 0)| && Scanned(START, Text(v, l, 0)[..i]).place.Outside?
    ensures var t := Text(v, l, 0);
            var open := Scanned(START, t[..i]).open;
            && (t[i] == 44 ==> Followed(l.formatted, t, i, if In(open, 91) then 32 else 10))
            && (t[i] == 58 ==> Followed(l.formatted, t, i, 9))
            && (t[i] == 123 ==> i + 1 < |t| && if l.formatted then t[i + 1] == 10 else t[i + 1] > 32)
            && (t[i] == 91 ==> i + 1 < |t| && t[i + 1] > 32)
  {
    hide LaidOut, Text, Plain, Spaced;
    PrintLaidOut(v, l);
    var t := Text(v, l, 0);
    var r := Scanned(START, t[..i]);
    if t[i] == 44 || t[i] == 58 || t[i] == 123 || t[i] == 91 {
      SpacedAt(l.formatted, t, START, i);
      SpacedFollows(l.formatted, t[i], t[i + 1..], Next(r, t[i]));
      assert forall j :: i < j < |t| ==> t[j] == t[i + 1..][j - i - 1];
    }
  }

  lemma SpacedFollows(f: bool, b: byte, u: bytes, r: Scan)
    requires Spaced(f, b, u, r) && r.place.Outside? && (b == 44 || b == 58 || (In(r.open, b) && (b == 123 || b == 91)))
    ensures b == 44 || b == 58 ==>
              var blank := if b == 58 then 9 else if In(r.open, 91) then 32 else 10;
              u != [] && if !f then u[0] > 32 else u[0] == blank && (blank == 10 || (|u| > 1 && u[1] > 32))
    ensures b == 123 ==> u != [] && if f then u[0] == 10 else u[0] > 32
    ensures b == 91 ==> u != [] && u[0] > 32
  {
    var n := Blanks(u);
    var gap := u[..n];
    assert n < |u| && LaidOut(f, u[n..], r) && u[n..][0] == u[n];
    assert forall i :: 0 <= i < n ==> u[i] == gap[i];
  }

  /** An unformatted print has no white space outside of strings, and no print has a control character inside. */
  lemma UnformattedIsTight(v: Json, l: Layout, i: nat)
    requires Plain(v, l.codec) && !l.formatted && i < |Text(v, l, 0)|
    ensures var t := Text(v, l, 0); t[i] > 31 && (Scanned(START, t[..i]).place.Outside? ==> t[i] > 32)
  {
    hide LaidOut, Text, Plain;
    PrintLaidOut(v, l);
    TightAt(Text(v, l, 0), START, i);
  }
}
