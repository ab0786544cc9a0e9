/** Parsing undoes printing, in both layouts, exactly up to the nesting limit. */
module JsonRoundTrip {
  import opened Bytes
  import opened JsonStrings
  import opened JsonValues

  predicate AllLow(c: bytes, p: nat, q: nat) {
    p <= q <= |c| && forall i :: p <= i < q ==> c[i] <= 32
  }

  lemma {:induction false} SkipTo(c: bytes, p: nat, q: nat)
    requires AllLow(c, p, q) && q < |c| && c[q] > 32
    ensures SkipLow(c, p) == q && Skip(c, p) == q
    decreases q - p
  {
    if p < q {
      SkipTo(c, p + 1, q);
    }
  }

  lemma AtConcat3(c: bytes, p: nat, t: bytes, u: bytes, v: bytes)
    requires At(c, p, t + u + v)
    ensures At(c, p, t) && At(c, p + |t|, u) && At(c, p + |t| + |u|, v)
  {
    AtConcat(c, p, t + u, v);
    AtConcat(c, p, t, u);
  }

  lemma AtFirst(c: bytes, p: nat, t: bytes)
    requires At(c, p, t) && t != []
    ensures p < |c| && c[p] == t[0]
  {
    assert c[p..p + |t|][0] == t[0];
  }

  lemma AtLow(c: bytes, p: nat, t: bytes, b: byte)
    requires At(c, p, t) && b <= 32 && forall i :: 0 <= i < |t| ==> t[i] == b
    ensures AllLow(c, p, p + |t|)
  {
    forall i | p <= i < p + |t| ensures c[i] <= 32 {
      assert c[i] == c[p..p + |t|][i - p];
    }
  }

  /** A printed value starts with a visible byte that starts no other kind of value. */
  lemma TextStarts(v: Json, l: Layout, depth: nat)
    requires Plain(v, l.codec)
    ensures var t := Text(v, l, depth); t != [] && t[0] > 32 && t[0] < 0x80
    ensures var t := Text(v, l, depth); t[0] != CLOSE_BRACKET && t[0] != CLOSE_BRACE
  {}

  lemma {:induction false} RunIsText(c: bytes, p: nat, t: bytes, room: nat)
    requires At(c, p, t) && p + |t| < |c| && !NumberByte(c[p + |t|]) && |t| <= room
    requires forall i :: 0 <= i < |t| ==> NumberByte(t[i])
    ensures NumberRun(c, p, room) == t
    decreases |t|
  {
    if t != [] {
      AtFirst(c, p, t);
      assert t == [t[0]] + t[1..];
      AtConcat(c, p, [t[0]], t[1..]);
      RunIsText(c, p + 1, t[1..], room - 1);
    }
  }

  lemma NotALiteral(c: bytes, p: nat)
    requires p < |c| && c[p] != 110 && c[p] != 102 && c[p] != 116
    ensures p + 4 <= |c| ==> c[p..p + 4] != NULL_TEXT && c[p..p + 4] != TRUE_TEXT
    ensures p + 5 <= |c| ==> c[p..p + 5] != FALSE_TEXT
  {
    if p + 4 <= |c| {
      assert c[p..p + 4][0] == c[p];
    }
    if p + 5 <= |c| {
      assert c[p..p + 5][0] == c[p];
    }
  }

  lemma ScalarReads(c: bytes, p: nat, v: Json, l: Layout)
    requires !v.Array? && !v.Object? && Plain(v, l.codec) && At(c, p, Text(v, l, 0))
    requires var e := p + |Text(v, l, 0)|; e < |c| && !NumberByte(c[e])
    ensures p < |c| && c[p] != OPEN_BRACKET && c[p] != OPEN_BRACE
    ensures ParseScalar(c, p, l.codec) == Ok(v, p + |Text(v, l, 0)|)
  {
    AtFirst(c, p, Text(v, l, 0));
    if v.Number? {
      NotALiteral(c, p);
      RunIsText(c, p, l.codec.show(v.num), MAX_NUMBER_RUN);
    } else if v.String? {
      NotALiteral(c, p);
      QuotedRoundTrip(c, p, v.text);
    } else {
      assert c[p..p + 4][0] == c[p];
      if p + 5 <= |c| {
        assert c[p..p + 5][0] == c[p];
      }
    }
  }

  predicate Fits(nesting: nat, depth: nat) {
    nesting == 0 || depth + nesting <= NESTING_LIMIT
  }

  /**
    The text of a plain value, followed by a byte that cannot continue a number, reads back as that value,
    and nothing past it is consumed; it fails exactly when nesting exceeds the limit.
    */
  lemma {:induction false} ValueReads(c: bytes, p: nat, v: Json, l: Layout, indent: nat, depth: nat)
    requires Plain(v, l.codec) && At(c, p, Text(v, l, indent))
    requires var e := p + |Text(v, l, indent)|; e < |c| && !NumberByte(c[e])
    ensures p < |c|
    ensures ParseValue(c, p, depth, l.codec) ==
            if Fits(Nesting(v), depth) then Ok(v, p + |Text(v, l, indent)|) else Fail
    decreases v, 1
  {
    hide ParseValue, ParseElems, ParseMembers, ParseScalar, At, Quoted, ElemsText, MembersText;
    match v
    case Array(es) => ArrayReads(c, p, es, l, indent, depth);
    case Object(ms) => ObjectReads(c, p, ms, l, indent, depth);
    case _ =>
      ScalarReads(c, p, v, l);
      ScalarStep(c, p, depth, l.codec);
  }

  lemma ScalarStep(c: bytes, p: nat, depth: nat, k: Codec)
    requires p < |c| && c[p] != OPEN_BRACKET && c[p] != OPEN_BRACE
    ensures ParseValue(c, p, depth, k) == ParseScalar(c, p, k)
  {
    hide ParseScalar;
  }

  lemma ArrayStep(c: bytes, p: nat, q: nat, depth: nat, k: Codec)
    requires p < q < |c| && c[p] == OPEN_BRACKET && Skip(c, p + 1) == q
    ensures var r := ParseElems(c, p, depth + 1, k);
            ParseValue(c, p, depth, k) ==
            if depth >= NESTING_LIMIT then Fail
            else if c[q] == CLOSE_BRACKET then Ok(Array(NoElems), q + 1)
            else if r.Fail? then Fail else Ok(Array(r.value), r.end)
  {
    hide ParseElems, ParseScalar;
  }

  lemma ObjectStep(c: bytes, p: nat, q: nat, depth: nat, k: Codec)
    requires p < q < |c| && c[p] == OPEN_BRACE && Skip(c, p + 1) == q
    ensures var r := ParseMembers(c, p, depth + 1, k);
            ParseValue(c, p, depth, k) ==
            if depth >= NESTING_LIMIT then Fail
            else if c[q] == CLOSE_BRACE then Ok(Object(NoMembers), q + 1)
            else if r.Fail? then Fail else Ok(Object(r.value), r.end)
  {
    hide ParseMembers, ParseScalar;
  }

  /** The brackets around the elements of an array. */
  lemma ArrayLayout(c: bytes, p: nat, es: Elems, l: Layout, indent: nat)
    requires At(c, p, Text(Array(es), l, indent))
    ensures p < |c| && c[p] == OPEN_BRACKET && At(c, p + 1, ElemsText(es, l, indent + 1))
    ensures var e := p + 1 + |ElemsText(es, l, indent + 1)|;
            e < |c| && c[e] == CLOSE_BRACKET && e + 1 == p + |Text(Array(es), l, indent)|
  {
    hide ElemsText, At;
    var inner := ElemsText(es, l, indent + 1);
    AtConcat3(c, p, [OPEN_BRACKET], inner, [CLOSE_BRACKET]);
    AtFirst(c, p, [OPEN_BRACKET]);
    AtFirst(c, p + 1 + |inner|, [CLOSE_BRACKET]);
  }

  lemma {:induction false} ArrayReads(c: bytes, p: nat, es: Elems, l: Layout, indent: nat, depth: nat)
    requires PlainElems(es, l.codec) && At(c, p, Text(Array(es), l, indent))
    ensures p < |c|
    ensures ParseValue(c, p, depth, l.codec) ==
            if Fits(1 + ElemsNesting(es), depth) then Ok(Array(es), p + |Text(Array(es), l, indent)|) else Fail
    decreases es, 2
  {
    hide ParseValue, ParseElems, ParseMembers, ParseScalar, Skip, SkipLow, Text, Plain, At;
    ArrayLayout(c, p, es, l, indent);
    if es.NoElems? {
      SkipTo(c, p + 1, p + 1);
    } else {
      ElemsRead(c, p, p + 1, es, l, indent + 1, depth + 1);
    }
    ArrayStep(c, p, p + 1, depth, l.codec);
  }

  /** One round of the array loop, given where its tokens are. */
  lemma ElemsStep(c: bytes, p: nat, q: nat, e: nat, depth: nat, k: Codec, v: Json, rest: Result<Elems>)
    requires p < q < |c| && Skip(c, p + 1) == q && ParseValue(c, q, depth, k) == Ok(v, e)
    requires p < e && Skip(c, e) < |c|
    requires c[Skip(c, e)] == COMMA ==> p < Skip(c, e) && ParseElems(c, Skip(c, e), depth, k) == rest
    ensures c[Skip(c, e)] == CLOSE_BRACKET ==> ParseElems(c, p, depth, k) == Ok(Elem(v, NoElems), Skip(c, e) + 1)
    ensures c[Skip(c, e)] == COMMA ==>
              ParseElems(c, p, depth, k) == if rest.Fail? then Fail else Ok(Elem(v, rest.value), rest.end)
  {
    hide ParseValue, Skip, SkipLow;
  }

  lemma ElemsStepFails(c: bytes, p: nat, q: nat, depth: nat, k: Codec)
    requires p < q < |c| && Skip(c, p + 1) == q && ParseValue(c, q, depth, k).Fail?
    ensures ParseElems(c, p, depth, k).Fail?
  {
    hide ParseValue;
  }

  lemma NoMembersText(l: Layout, indent: nat)
    ensures MembersText(NoMembers, l, indent) == []
  {}

  lemma GapOf(l: Layout, b: byte)
    ensures var gap := Gap(l, [b]); forall i :: 0 <= i < |gap| ==> gap[i] == b
  {}

  lemma AfterComma(c: bytes, e: nat, gap: bytes, b: byte)
    requires At(c, e, [COMMA] + gap) && b <= 32 && forall i :: 0 <= i < |gap| ==> gap[i] == b
    ensures e < |c| && c[e] == COMMA && Skip(c, e) == e && AllLow(c, e + 1, e + 1 + |gap|)
  {
    AtConcat(c, e, [COMMA], gap);
    AtFirst(c, e, [COMMA]);
    AtLow(c, e + 1, gap, b);
    SkipTo(c, e, e);
  }

  /** Where the first element of an array text ends and the next begins. */
  lemma ElemsLayout(c: bytes, q: nat, es: Elems, l: Layout, indent: nat)
    requires es.Elem? && PlainElems(es, l.codec) && At(c, q, ElemsText(es, l, indent))
    ensures At(c, q, Text(es.head, l, indent)) && q < |c| && c[q] > 32 && c[q] != CLOSE_BRACKET
    ensures es.tail.NoElems? ==> |ElemsText(es, l, indent)| == |Text(es.head, l, indent)|
    ensures es.tail.Elem? ==>
              var e := q + |Text(es.head, l, indent)|;
              var f := e + |AfterElem(l, false)|;
              && e < |c| && c[e] == COMMA && Skip(c, e) == e && e < f && AllLow(c, e + 1, f)
              && At(c, f, ElemsText(es.tail, l, indent))
              && f + |ElemsText(es.tail, l, indent)| == q + |ElemsText(es, l, indent)|
  {
    hide Text, Plain, Skip, SkipLow, At, Gap;
    var t, sep := Text(es.head, l, indent), AfterElem(l, es.tail.NoElems?);
    AtConcat3(c, q, t, sep, ElemsText(es.tail, l, indent));
    TextStarts(es.head, l, indent);
    AtFirst(c, q, t);
    if es.tail.Elem? {
      GapOf(l, SPACE);
      AfterComma(c, q + |t|, Gap(l, [SPACE]), SPACE);
    }
  }

  /** The elements whose text starts at `q`, after white space that follows the bracket or comma at `p`. */
  lemma {:induction false} ElemsRead(c: bytes, p: nat, q: nat, es: Elems, l: Layout, indent: nat, depth: nat)
    requires es.Elem? && PlainElems(es, l.codec)
    requires p < q && AllLow(c, p + 1, q) && At(c, q, ElemsText(es, l, indent))
    requires var e := q + |ElemsText(es, l, indent)|; e < |c| && c[e] == CLOSE_BRACKET
    ensures q < |c| && c[q] != CLOSE_BRACKET && Skip(c, p + 1) == q
    ensures ParseElems(c, p, depth, l.codec) ==
            if Fits(ElemsNesting(es), depth) then Ok(es, q + |ElemsText(es, l, indent)| + 1) else Fail
    decreases es, 1
  {
    hide ParseValue, ParseElems, ParseMembers, ParseScalar, Skip, SkipLow, Text, ElemsText, Plain, At, AfterElem;
    ElemsLayout(c, q, es, l, indent);
    var v, e := es.head, q + |Text(es.head, l, indent)|;
    SkipTo(c, p + 1, q);
    if es.tail.NoElems? {
      SkipTo(c, e, e);
    } else {
      ElemsRead(c, e, e + |AfterElem(l, false)|, es.tail, l, indent, depth);
    }
    ValueReads(c, q, v, l, indent, depth);
    if Fits(Nesting(v), depth) {
      ElemsStep(c, p, q, e, depth, l.codec, v, if es.tail.NoElems? then Fail else ParseElems(c, e, depth, l.codec));
    } else {
      ElemsStepFails(c, p, q, depth, l.codec);
    }
  }

  /** The white space around the members of an object. */
  lemma ObjectLayout(c: bytes, p: nat, ms: Members, l: Layout, indent: nat) returns (q: nat, close: nat)
    requires At(c, p, Text(Object(ms), l, indent))
    ensures p < q && p < |c| && c[p] == OPEN_BRACE && AllLow(c, p + 1, q) && At(c, q, MembersText(ms, l, indent + 1))
    ensures AllLow(c, q + |MembersText(ms, l, indent + 1)|, close) && close < |c| && c[close] == CLOSE_BRACE
    ensures close + 1 == p + |Text(Object(ms), l, indent)|
  {
    hide MembersText, Skip, SkipLow;
    var gap, inner, tabs := Gap(l, [NEWLINE]), MembersText(ms, l, indent + 1), Gap(l, Repeat(TAB, indent));
    q := p + 1 + |gap|;
    close := q + |inner| + |tabs|;
    AtConcat3(c, p, [OPEN_BRACE] + gap + inner, tabs, [CLOSE_BRACE]);
    AtConcat3(c, p, [OPEN_BRACE], gap, inner);
    AtFirst(c, p, [OPEN_BRACE]);
    AtLow(c, p + 1, gap, NEWLINE);
    AtLow(c, q + |inner|, tabs, TAB);
    AtFirst(c, close, [CLOSE_BRACE]);
  }

  lemma {:induction false} ObjectReads(c: bytes, p: nat, ms: Members, l: Layout, indent: nat, depth: nat)
    requires PlainMembers(ms, l.codec) && At(c, p, Text(Object(ms), l, indent))
    ensures p < |c|
    ensures ParseValue(c, p, depth, l.codec) ==
            if Fits(1 + MembersNesting(ms), depth) then Ok(Object(ms), p + |Text(Object(ms), l, indent)|) else Fail
    decreases ms, 2
  {
    hide ParseValue, ParseElems, ParseMembers, ParseScalar, Skip, SkipLow, Text, Plain, At;
    var q, close := ObjectLayout(c, p, ms, l, indent);
    if ms.NoMembers? {
      SkipTo(c, p + 1, close);
      ObjectStep(c, p, close, depth, l.codec);
    } else {
      var k := MembersRead(c, p, q, ms, l, indent + 1, close, depth + 1);
      ObjectStep(c, p, k, depth, l.codec);
    }
  }

  /** One round of the object loop, given where its tokens are. */
  lemma MembersStep(c: bytes, p: nat, q: nat, end: nat, colon: nat, w: nat, e: nat, depth: nat, k: Codec, key: bytes,
                    v: Json, rest: Result<Members>)
    requires p < q < end <= colon < w < |c| && Skip(c, p + 1) == q && ParseStringAt(c, q) == StringOk(key, end)
    requires Skip(c, end) == colon && c[colon] == COLON && Skip(c, colon + 1) == w
    requires ParseValue(c, w, depth, k) == Ok(v, e) && Skip(c, e) < |c|
    requires c[Skip(c, e)] == COMMA ==> ParseMembers(c, Skip(c, e), depth, k) == rest
    ensures c[Skip(c, e)] == CLOSE_BRACE ==>
              ParseMembers(c, p, depth, k) == Ok(Member(key, v, NoMembers), Skip(c, e) + 1)
    ensures c[Skip(c, e)] == COMMA ==>
              ParseMembers(c, p, depth, k) == if rest.Fail? then Fail else Ok(Member(key, v, rest.value), rest.end)
  {
    hide ParseValue, ParseStringAt, Skip, SkipLow;
  }

  lemma MembersStepFails(c: bytes, p: nat, q: nat, end: nat, colon: nat, w: nat, depth: nat, k: Codec, key: bytes)
    requires p < q < end <= colon < w < |c| && Skip(c, p + 1) == q && ParseStringAt(c, q) == StringOk(key, end)
    requires Skip(c, end) == colon && c[colon] == COLON && Skip(c, colon + 1) == w
    requires ParseValue(c, w, depth, k).Fail?
    ensures ParseMembers(c, p, depth, k).Fail?
  {
    hide ParseValue, ParseStringAt;
  }

  /** Where key, colon and value of a member stand. */
  lemma KeyReads(c: bytes, p: nat, q: nat, key: bytes, l: Layout, indent: nat) returns (k: nat, colon: nat, w: nat)
    requires NulFree(key) && p < q && AllLow(c, p + 1, q) && At(c, q, KeyText(key, l, indent))
    requires var w := q + |KeyText(key, l, indent)|; w < |c| && c[w] > 32
    ensures p < k < colon < w == q + |KeyText(key, l, indent)|
    ensures w < |c| && Skip(c, p + 1) == k && c[k] == QUOTE && ParseStringAt(c, k) == StringOk(key, colon)
    ensures Skip(c, colon) == colon && c[colon] == COLON && Skip(c, colon + 1) == w
  {
    hide ParseStringAt, Skip, SkipLow, At, NulFree, KeyText;
    k, colon := KeyLayout(c, q, key, l, indent);
    w := q + |KeyText(key, l, indent)|;
    QuotedRoundTrip(c, k, key);
    SkipTo(c, p + 1, k);
    SkipTo(c, colon, colon);
    SkipTo(c, colon + 1, w);
  }

  /** Where the key stands, and its colon. */
  lemma KeyLayout(c: bytes, q: nat, key: bytes, l: Layout, indent: nat) returns (k: nat, colon: nat)
    requires At(c, q, KeyText(key, l, indent))
    ensures var w := q + |KeyText(key, l, indent)|;
            && AllLow(c, q, k) && k < |c| && c[k] == QUOTE && At(c, k, Quoted(key)) && colon == k + |Quoted(key)| > k
            && colon < |c| && c[colon] == COLON && AllLow(c, colon + 1, w)
  {
    hide At;
    var lead, quoted, sep := Gap(l, Repeat(TAB, indent)), Quoted(key), Gap(l, [TAB]);
    k := q + |lead|;
    colon := k + |quoted|;
    AtConcat3(c, q, lead, quoted, [COLON] + sep);
    AtConcat(c, colon, [COLON], sep);
    AtLow(c, q, lead, TAB);
    AtFirst(c, k, quoted);
    AtFirst(c, colon, [COLON]);
    AtLow(c, colon + 1, sep, TAB);
  }

  lemma MemberParts(c: bytes, q: nat, ms: Members, l: Layout, indent: nat)
    requires ms.Member? && At(c, q, MembersText(ms, l, indent))
    ensures var w := q + |KeyText(ms.key, l, indent)|;
            var e := w + |Text(ms.value, l, indent)|;
            var f := e + |AfterMember(l, ms.rest.NoMembers?)|;
            && At(c, q, KeyText(ms.key, l, indent)) && At(c, w, Text(ms.value, l, indent))
            && At(c, e, AfterMember(l, ms.rest.NoMembers?)) && At(c, f, MembersText(ms.rest, l, indent))
            && f + |MembersText(ms.rest, l, indent)| == q + |MembersText(ms, l, indent)|
  {
    hide Text, KeyText, AfterMember, At;
    var head, t, after := KeyText(ms.key, l, indent), Text(ms.value, l, indent), AfterMember(l, ms.rest.NoMembers?);
    AtConcat3(c, q, head + t, after, MembersText(ms.rest, l, indent));
    AtConcat(c, q, head, t);
  }

  /** Where the value of the first member stands, and what follows it. */
  lemma MembersLayout(c: bytes, q: nat, ms: Members, l: Layout, indent: nat, close: nat)
    requires ms.Member? && PlainMembers(ms, l.codec) && At(c, q, MembersText(ms, l, indent))
    requires AllLow(c, q + |MembersText(ms, l, indent)|, close) && close < |c| && c[close] == CLOSE_BRACE
    ensures var w := q + |KeyText(ms.key, l, indent)|;
            var e := w + |Text(ms.value, l, indent)|;
            && At(c, q, KeyText(ms.key, l, indent)) && w < |c| && c[w] > 32
            && At(c, w, Text(ms.value, l, indent)) && e < |c| && !NumberByte(c[e])
            && (ms.rest.NoMembers? ==> Skip(c, e) == close)
            && (ms.rest.Member? ==>
                 var f := e + |AfterMember(l, false)|;
                 && c[e] == COMMA && Skip(c, e) == e && e < f && AllLow(c, e + 1, f)
                 && At(c, f, MembersText(ms.rest, l, indent))
                 && f + |MembersText(ms.rest, l, indent)| == q + |MembersText(ms, l, indent)|)
  {
    hide Text, KeyText, Plain, Skip, SkipLow, At, MembersText, Gap;
    MemberParts(c, q, ms, l, indent);
    var t, after := Text(ms.value, l, indent), AfterMember(l, ms.rest.NoMembers?);
    var w := q + |KeyText(ms.key, l, indent)|;
    var e := w + |t|;
    TextStarts(ms.value, l, indent);
    AtFirst(c, w, t);
    GapOf(l, NEWLINE);
    if ms.rest.Member? {
      AfterComma(c, e, Gap(l, [NEWLINE]), NEWLINE);
    } else {
      NoMembersText(l, indent);
      AtLow(c, e, after, NEWLINE);
      SkipTo(c, e, close);
    }
  }

  /** The members whose text starts at `q`, after white space that follows the brace or comma at `p`. */
  lemma {:induction false} MembersRead(c: bytes, p: nat, q: nat, ms: Members, l: Layout, indent: nat, close: nat,
                                       depth: nat)
    returns (k: nat)
    requires ms.Member? && PlainMembers(ms, l.codec)
    requires p < q && AllLow(c, p + 1, q) && At(c, q, MembersText(ms, l, indent))
    requires AllLow(c, q + |MembersText(ms, l, indent)|, close) && close < |c| && c[close] == CLOSE_BRACE
    ensures p < k < |c| && Skip(c, p + 1) == k && c[k] == QUOTE
    ensures ParseMembers(c, p, depth, l.codec) == if Fits(MembersNesting(ms), depth) then Ok(ms, close + 1) else Fail
    decreases ms, 1
  {
    hide ParseValue, ParseElems, ParseMembers, ParseScalar, Skip, SkipLow, Text, MembersText, KeyText, Plain, At,
      AfterMember;
    var v := ms.value;
    MembersLayout(c, q, ms, l, indent, close);
    var colon, w;
    k, colon, w := KeyReads(c, p, q, ms.key, l, indent);
    var e := w + |Text(v, l, indent)|;
    if ms.rest.Member? {
      var _ := MembersRead(c, e, e + |AfterMember(l, false)|, ms.rest, l, indent, close, depth);
    }
    ValueReads(c, w, v, l, indent, depth);
    if Fits(Nesting(v), depth) {
      MembersStep(c, p, k, colon, colon, w, e, depth, l.codec, ms.key, v, if ms.rest.NoMembers? then Fail
        else ParseMembers(c, e, depth, l.codec));
    } else {
      MembersStepFails(c, p, k, colon, colon, w, depth, l.codec, ms.key);
    }
  }

  // ----- whole texts -----

  /** The law of the library: a printed value parses back to itself, and to nothing else, up to the nesting limit. */
  lemma PrintedTextParses(v: Json, l: Layout, nullTerminated: bool)
    requires Plain(v, l.codec)
    ensures ParseText(Text(v, l, 0), nullTerminated, l.codec) ==
            if Nesting(v) <= 1000 then Ok(v, |Text(v, l, 0)|) else Fail
  {
    var t := Text(v, l, 0);
    var c := t + [NUL];
    TextStarts(v, l, 0);
    assert At(c, 0, t);
    assert c[0] == t[0];
    if |c| > 4 {
      assert c[..3][0] == c[0];
    }
    SkipTo(c, 0, 0);
    ValueReads(c, 0, v, l, 0, 0);
    assert SkipLow(c, |t|) == |c|;
  }

  // ----- every accepted text is shallow -----

  lemma {:induction false} AcceptedIsShallow(c: bytes, p: nat, depth: nat, k: Codec)
    requires p < |c|
    ensures var r := ParseValue(c, p, depth, k); r.Ok? ==> Fits(Nesting(r.value), depth)
    decreases |c| - p, 1
  {
    hide ParseElems, ParseMembers, ParseScalar, Skip;
    if c[p] == OPEN_BRACKET && depth < NESTING_LIMIT {
      AcceptedElemsShallow(c, p, depth + 1, k);
    } else if c[p] == OPEN_BRACE && depth < NESTING_LIMIT {
      AcceptedMembersShallow(c, p, depth + 1, k);
    }
  }

  lemma {:induction false} AcceptedElemsShallow(c: bytes, p: nat, depth: nat, k: Codec)
    requires p < |c|
    ensures var r := ParseElems(c, p, depth, k); r.Ok? ==> Fits(ElemsNesting(r.value), depth)
    decreases |c| - p, 0
  {
    hide ParseValue, Skip;
    var q := Skip(c, p + 1);
    if q > p {
      AcceptedIsShallow(c, q, depth, k);
      var v := ParseValue(c, q, depth, k);
      if v.Ok? && c[Skip(c, v.end)] == COMMA {
        AcceptedElemsShallow(c, Skip(c, v.end), depth, k);
      }
    }
  }

  lemma {:induction false} AcceptedMembersShallow(c: bytes, p: nat, depth: nat, k: Codec)
    requires p < |c|
    ensures var r := ParseMembers(c, p, depth, k); r.Ok? ==> Fits(MembersNesting(r.value), depth)
    decreases |c| - p, 0
  {
    hide ParseValue, ParseStringAt, Skip;
    var q := Skip(c, p + 1);
    var key := ParseStringAt(c, q);
    if q > p && key.StringOk? && c[Skip(c, key.end)] == COLON {
      var w := Skip(c, Skip(c, key.end) + 1);
      if w > Skip(c, key.end) {
        AcceptedIsShallow(c, w, depth, k);
        var v := ParseValue(c, w, depth, k);
        if v.Ok? && c[Skip(c, v.end)] == COMMA {
          AcceptedMembersShallow(c, Skip(c, v.end), depth, k);
        }
      }
    }
  }
}
