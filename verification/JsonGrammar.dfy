/**
  The grammar of JSON texts (RFC 8259), in literal bytes and with all the white space it allows, and what the parser
  makes of each of its texts.
  */
module JsonGrammar {
  import opened Bytes
  import opened JsonStrings
  import opened JsonValues
  import opened JsonRoundTrip
  import Literals = JsonLiterals

  // ----- numbers (section 6) -----

  datatype Exponent = NoExponent | Exponent(letter: byte, sign: Option<byte>, digits: bytes)

  datatype Numeral = Numeral(minus: bool, whole: bytes, fraction: Option<bytes>, exponent: Exponent)

  predicate Digits(t: bytes) {
    t != [] && forall i :: 0 <= i < |t| ==> 48 <= t[i] <= 57
  }

  /** No superfluous leading zero, and digits behind the point and the letter e or E if there are any. */
  predicate LegalNumeral(n: Numeral) {
    && Digits(n.whole) && (|n.whole| > 1 ==> n.whole[0] != 48)
    && (n.fraction.Some? ==> Digits(n.fraction.value))
    && (n.exponent.Exponent? ==>
          && (n.exponent.letter == 101 || n.exponent.letter == 69) && Digits(n.exponent.digits)
          && (n.exponent.sign.Some? ==> n.exponent.sign.value == 43 || n.exponent.sign.value == 45))
  }

  function FractionText(f: Option<bytes>): bytes {
    if f.None? then [] else [46] + f.value
  }

  function ExponentText(e: Exponent): bytes {
    if e.NoExponent? then [] else [e.letter] + (if e.sign.None? then [] else [e.sign.value]) + e.digits
  }

  function NumeralText(n: Numeral): bytes {
    (if n.minus then [45] else []) + n.whole + FractionText(n.fraction) + ExponentText(n.exponent)
  }

  /** What can follow a value: white space, a comma, a closing bracket or brace, or the end of the text. */
  predicate Stops(b: byte) {
    b == 9 || b == 10 || b == 13 || b == 32 || b == 44 || b == 93 || b == 125 || b == 0
  }

  lemma NumeralBytes(n: Numeral)
    requires LegalNumeral(n)
    ensures var t := NumeralText(n);
            t != [] && (t[0] == 45 || 48 <= t[0] <= 57) && forall i :: 0 <= i < |t| ==> NumberByte(t[i])
  {}

  /** Every number of the grammar is handed to the codec as a whole, wherever it stands. */
  lemma NumberReads(c: bytes, p: nat, n: Numeral, depth: nat, k: Codec)
    requires LegalNumeral(n) && |NumeralText(n)| <= 63 && k.Used(NumeralText(n)) == |NumeralText(n)|
    requires At(c, p, NumeralText(n)) && p + |NumeralText(n)| < |c| && Stops(c[p + |NumeralText(n)|])
    ensures var t := NumeralText(n); p < |c| && ParseValue(c, p, depth, k) == Ok(Number(k.value(t)), p + |t|)
  {
    NumeralBytes(n);
    hide NumeralText, LegalNumeral;
    var t := NumeralText(n);
    AtFirst(c, p, t);
    NotALiteral(c, p);
    RunIsText(c, p, t, MAX_NUMBER_RUN);
  }

  predicate NumberCharacter(b: byte) {
    48 <= b <= 57 || b == 43 || b == 45 || b == 46 || b == 69 || b == 101
  }

  /** On any text the codec is given the longest run of digits, signs, points and letters e, at most 63 bytes of it. */
  lemma LongestRunRead(c: bytes, p: nat, n: nat, k: Codec)
    requires p < |c| && p + n <= |c| && n <= 63 && forall i :: p <= i < p + n ==> NumberCharacter(c[i])
    requires n == 63 || p + n == |c| || !NumberCharacter(c[p + n])
    ensures var t := c[p..p + n];
            ParseNumber(c, p, k) == if k.Used(t) == 0 then Fail else Ok(Number(k.value(t)), p + k.Used(t))
  {
    RunLength(c, p, n, MAX_NUMBER_RUN);
  }

  lemma {:induction false} RunLength(c: bytes, p: nat, n: nat, room: nat)
    requires p + n <= |c| && n <= room && forall i :: p <= i < p + n ==> NumberCharacter(c[i])
    requires n == room || p + n == |c| || !NumberCharacter(c[p + n])
    ensures NumberRun(c, p, room) == c[p..p + n]
    decreases n
  {
    if n > 0 {
      RunLength(c, p + 1, n - 1, room - 1);
      assert c[p..p + n] == [c[p]] + c[p + 1..p + n];
    }
  }

  // ----- values (section 3), with the white space between their tokens (section 2) -----

  predicate WhiteSpace(t: bytes) {
    forall i :: 0 <= i < |t| ==> t[i] == 32 || t[i] == 9 || t[i] == 10 || t[i] == 13
  }

  /**
    A text taken apart: scalars and keys with what they are worth, and the white space between tokens. The gap of an
    array or object is used when it is empty. A string with an illegal escape is worth nothing.
    */
  datatype Syntax =
    | Scalar(text: bytes, worth: Option<Json>)
    | ArrayWord(gap: bytes, elems: ElemList)
    | ObjectWord(gap: bytes, members: MemberList)

  datatype ElemList = NoElem | MoreElems(before: bytes, value: Syntax, after: bytes, rest: ElemList)

  datatype MemberList =
    | NoMember
    | MoreMembers(before: bytes, key: bytes, keyWorth: Option<bytes>, afterKey: bytes, beforeValue: bytes,
                  value: Syntax, after: bytes, rest: MemberList)

  function Spelled(s: Syntax): bytes {
    match s
    case Scalar(t, _) => t
    case ArrayWord(gap, es) => [91] + (if es.NoElem? then gap else SpelledElems(es)) + [93]
    case ObjectWord(gap, ms) => [123] + (if ms.NoMember? then gap else SpelledMembers(ms)) + [125]
  }

  function SpelledElems(es: ElemList): bytes {
    match es
    case NoElem => []
    case MoreElems(before, v, after, rest) =>
      before + Spelled(v) + (after + if rest.NoElem? then [] else [44] + SpelledElems(rest))
  }

  function SpelledMembers(ms: MemberList): bytes {
    match ms
    case NoMember => []
    case MoreMembers(before, key, _, afterKey, beforeValue, v, after, rest) =>
      (before + key + (afterKey + ([58] + beforeValue))) + Spelled(v) +
      (after + if rest.NoMember? then [] else [44] + SpelledMembers(rest))
  }

  /** No string has an illegal escape. */
  predicate Sound(s: Syntax) {
    match s
    case Scalar(_, worth) => worth.Some?
    case ArrayWord(_, es) => SoundElems(es)
    case ObjectWord(_, ms) => SoundMembers(ms)
  }

  predicate SoundElems(es: ElemList) {
    es.MoreElems? ==> Sound(es.value) && SoundElems(es.rest)
  }

  predicate SoundMembers(ms: MemberList) {
    ms.MoreMembers? ==> ms.keyWorth.Some? && Sound(ms.value) && SoundMembers(ms.rest)
  }

  function Worth<T>(o: Option<T>, default: T): T {
    if o.None? then default else o.value
  }

  /** The value of a sound text. */
  function Denoted(s: Syntax): Json {
    match s
    case Scalar(_, worth) => Worth(worth, Null)
    case ArrayWord(_, es) => Array(DenotedElems(es))
    case ObjectWord(_, ms) => Object(DenotedMembers(ms))
  }

  function DenotedElems(es: ElemList): Elems {
    match es
    case NoElem => NoElems
    case MoreElems(_, v, _, rest) => Elem(Denoted(v), DenotedElems(rest))
  }

  function DenotedMembers(ms: MemberList): Members {
    match ms
    case NoMember => NoMembers
    case MoreMembers(_, _, worth, _, _, v, _, rest) => Member(Worth(worth, []), Denoted(v), DenotedMembers(rest))
  }

  // ----- the grammar -----

  /** A string literal (section 7) between its quotes, with no control character standing for itself. */
  predicate StringLiteral(t: bytes, ts: seq<Literals.Token>) {
    && |t| >= 2 && t[0] == 34 && t[|t| - 1] == 34 && Literals.TokensUntil(t, 1, ts, |t| - 1)
    && forall i :: 0 <= i < |ts| && ts[i].Plain? ==> ts[i].b >= 32
  }

  /** What tokens are worth: what they stand for up to the first NUL, if their escapes are legal. */
  function TokensWorth(ts: seq<Literals.Token>): Option<bytes> {
    var m := Literals.Meaning(ts);
    if m.None? then None else Some(CString(m.value))
  }

  ghost predicate StringText(t: bytes, worth: Option<bytes>) {
    exists ts :: StringLiteral(t, ts) && worth == TokensWorth(ts)
  }

  /** A numeral that the codec can take whole. */
  ghost predicate NumberText(t: bytes, k: Codec) {
    |t| <= 63 && k.Used(t) == |t| && exists n :: LegalNumeral(n) && NumeralText(n) == t
  }

  /** The three literal names. */
  predicate Name(t: bytes, worth: Option<Json>) {
    || (t == [110, 117, 108, 108] && worth == Some(Null))
    || (t == [102, 97, 108, 115, 101] && worth == Some(False))
    || (t == [116, 114, 117, 101] && worth == Some(True))
  }

  ghost predicate ScalarText(t: bytes, worth: Option<Json>, k: Codec) {
    || Name(t, worth)
    || (NumberText(t, k) && worth == Some(Number(k.value(t))))
    || (worth.None? && StringText(t, None))
    || (worth.Some? && worth.value.String? && StringText(t, Some(worth.value.text)))
  }

  /** White space is white space, scalars are scalars, and keys are strings. */
  ghost predicate Grammatical(s: Syntax, k: Codec) {
    match s
    case Scalar(t, worth) => ScalarText(t, worth, k)
    case ArrayWord(gap, es) => WhiteSpace(gap) && GrammaticalElems(es, k)
    case ObjectWord(gap, ms) => WhiteSpace(gap) && GrammaticalMembers(ms, k)
  }

  ghost predicate GrammaticalElems(es: ElemList, k: Codec) {
    es.MoreElems? ==>
      WhiteSpace(es.before) && Grammatical(es.value, k) && WhiteSpace(es.after) && GrammaticalElems(es.rest, k)
  }

  ghost predicate GrammaticalMembers(ms: MemberList, k: Codec) {
    ms.MoreMembers? ==>
      && WhiteSpace(ms.before) && StringText(ms.key, ms.keyWorth) && WhiteSpace(ms.afterKey)
      && WhiteSpace(ms.beforeValue) && Grammatical(ms.value, k) && WhiteSpace(ms.after)
      && GrammaticalMembers(ms.rest, k)
  }

  // ----- tokens in place -----

  lemma AtWhite(c: bytes, p: nat, t: bytes)
    requires At(c, p, t) && WhiteSpace(t)
    ensures AllLow(c, p, p + |t|)
    ensures t != [] ==> p < |c| && Stops(c[p])
  {
    forall i | p <= i < p + |t| ensures c[i] <= 32 {
      assert c[i] == c[p..p + |t|][i - p];
    }
    if t != [] {
      AtFirst(c, p, t);
    }
  }

  /** The tokens of a literal stand in any text that holds it. */
  lemma {:induction false} TokensInside(c: bytes, p: nat, t: bytes, i: nat, ts: seq<Literals.Token>, end: nat)
    requires At(c, p, t) && end < |t| && Literals.TokensUntil(t, i, ts, end)
    ensures Literals.TokensUntil(c, p + i, ts, p + end)
    decreases |ts|
  {
    if ts != [] {
      forall j | 0 <= j < |t| ensures c[p + j] == t[j] {
        assert c[p + j] == c[p..p + |t|][j];
      }
      TokensInside(c, p, t, i + Literals.Width(ts[0]), ts[1..], end);
    }
  }

  lemma StringReads(c: bytes, p: nat, t: bytes, worth: Option<bytes>)
    requires At(c, p, t) && StringText(t, worth)
    ensures p < |c| && c[p] == 34 && p + 2 <= p + |t| <= |c|
    ensures ParseStringAt(c, p) == if worth.Some? then StringOk(worth.value, p + |t|) else StringFail
  {
    hide ParseStringAt, Literals.Legal, Literals.Meaning, CString;
    var ts :| StringLiteral(t, ts) && worth == TokensWorth(ts);
    TokensInside(c, p, t, 1, ts, |t| - 1);
    assert c[p..p + |t|][0] == t[0] && c[p..p + |t|][|t| - 1] == t[|t| - 1];
    Literals.LiteralReads(c, p, ts, p + |t| - 1);
  }

  lemma ScalarStarts(t: bytes, worth: Option<Json>, k: Codec)
    requires ScalarText(t, worth, k)
    ensures t != [] && 32 < t[0] < 0x80 && t[0] != 91 && t[0] != 93 && t[0] != 123 && t[0] != 125
  {
    if NumberText(t, k) {
      var n :| LegalNumeral(n) && NumeralText(n) == t;
      NumeralBytes(n);
    }
  }

  /** A value starts with a visible byte that starts no other kind of value. */
  lemma SpelledStarts(s: Syntax, k: Codec)
    requires Grammatical(s, k)
    ensures var t := Spelled(s); t != [] && 32 < t[0] < 0x80 && t[0] != 93 && t[0] != 125
  {
    hide ScalarText;
    if s.Scalar? {
      ScalarStarts(s.text, s.worth, k);
    }
  }

  lemma NameReads(c: bytes, p: nat, t: bytes, worth: Option<Json>, depth: nat, k: Codec)
    requires Name(t, worth) && At(c, p, t)
    ensures p < |c| && ParseValue(c, p, depth, k) == Ok(worth.value, p + |t|)
  {
    AtFirst(c, p, t);
    assert c[p..p + 4][0] == c[p];
    if p + 5 <= |c| {
      assert c[p..p + 5][0] == c[p];
    }
  }

  lemma StringValueReads(c: bytes, p: nat, t: bytes, worth: Option<bytes>, depth: nat, k: Codec)
    requires At(c, p, t) && StringText(t, worth)
    ensures p < |c| && ParseValue(c, p, depth, k) ==
                       if worth.Some? then Ok(String(worth.value), p + |t|) else Fail
  {
    hide ParseStringAt, StringText;
    StringReads(c, p, t, worth);
    NotALiteral(c, p);
    ScalarStep(c, p, depth, k);
  }

  lemma ScalarTextReads(c: bytes, p: nat, t: bytes, worth: Option<Json>, depth: nat, k: Codec)
    requires ScalarText(t, worth, k) && At(c, p, t) && p + |t| < |c| && Stops(c[p + |t|])
    ensures p < |c|
    ensures ParseValue(c, p, depth, k) == if worth.Some? then Ok(worth.value, p + |t|) else Fail
  {
    hide ParseValue, At, NumeralText, LegalNumeral, StringText, Name, Stops;
    if Name(t, worth) {
      NameReads(c, p, t, worth, depth, k);
      assert worth.Some? by {
        NameIsWorth(t, worth);
      }
    } else if worth.None? {
      StringValueReads(c, p, t, None, depth, k);
    } else if worth.value.String? {
      StringValueReads(c, p, t, Some(worth.value.text), depth, k);
    } else {
      var n :| LegalNumeral(n) && NumeralText(n) == t;
      NumberReads(c, p, n, depth, k);
    }
  }

  lemma ScalarFlat(t: bytes, worth: Option<Json>, k: Codec)
    requires ScalarText(t, worth, k)
    ensures worth.Some? ==> Nesting(worth.value) == 0
  {}

  lemma NameIsWorth(t: bytes, worth: Option<Json>)
    requires Name(t, worth)
    ensures worth.Some?
  {}

  // ----- the theorem -----

  /**
    Every text of the grammar, wherever it stands: it is accepted if and only if its strings are sound and its nesting
    fits, with the value it denotes, and nothing past it is consumed.
    */
  lemma {:induction false} SyntaxReads(c: bytes, p: nat, s: Syntax, depth: nat, k: Codec)
    requires Grammatical(s, k) && At(c, p, Spelled(s)) && p + |Spelled(s)| < |c| && Stops(c[p + |Spelled(s)|])
    ensures p < |c|
    ensures ParseValue(c, p, depth, k) ==
            if Sound(s) && Fits(Nesting(Denoted(s)), depth) then Ok(Denoted(s), p + |Spelled(s)|) else Fail
    decreases s, 1
  {
    hide ParseValue, ParseElems, ParseMembers, At, ScalarText, SpelledElems, SpelledMembers, Skip, Stops;
    match s
    case Scalar(t, worth) =>
      ScalarTextReads(c, p, t, worth, depth, k);
      ScalarFlat(t, worth, k);
    case ArrayWord(gap, es) => ArrayWordReads(c, p, gap, es, depth, k);
    case ObjectWord(gap, ms) => ObjectWordReads(c, p, gap, ms, depth, k);
  }

  lemma {:induction false} ArrayWordReads(c: bytes, p: nat, gap: bytes, es: ElemList, depth: nat, k: Codec)
    requires WhiteSpace(gap) && GrammaticalElems(es, k) && At(c, p, Spelled(ArrayWord(gap, es)))
    ensures p < |c|
    ensures ParseValue(c, p, depth, k) ==
            if SoundElems(es) && Fits(1 + ElemsNesting(DenotedElems(es)), depth)
            then Ok(Array(DenotedElems(es)), p + |Spelled(ArrayWord(gap, es))|) else Fail
    decreases es, 2
  {
    hide ParseValue, ParseElems, ParseMembers, At, SpelledElems, Skip, SkipLow, WhiteSpace;
    var inner := if es.NoElem? then gap else SpelledElems(es);
    AtConcat3(c, p, [91], inner, [93]);
    AtFirst(c, p, [91]);
    AtFirst(c, p + 1 + |inner|, [93]);
    if es.NoElem? {
      AtWhite(c, p + 1, gap);
      SkipTo(c, p + 1, p + 1 + |gap|);
      ArrayStep(c, p, p + 1 + |gap|, depth, k);
    } else {
      var q := ElemListReads(c, p, es, depth + 1, k);
      ArrayStep(c, p, q, depth, k);
    }
  }

  /** The parts of the first element, in place. */
  lemma ElemParts(c: bytes, at: nat, es: ElemList)
    requires es.MoreElems? && At(c, at, SpelledElems(es))
    ensures var q := at + |es.before|;
            var e := q + |Spelled(es.value)|;
            var f := e + |es.after|;
            && At(c, at, es.before) && At(c, q, Spelled(es.value)) && At(c, e, es.after)
            && (es.rest.NoElem? ==> f == at + |SpelledElems(es)|)
            && (es.rest.MoreElems? ==>
                  && At(c, f, [44]) && At(c, f + 1, SpelledElems(es.rest))
                  && f + 1 + |SpelledElems(es.rest)| == at + |SpelledElems(es)|)
  {
    hide Spelled, At;
    var t := Spelled(es.value);
    var tail := if es.rest.NoElem? then [] else [44] + SpelledElems(es.rest);
    var e := at + |es.before| + |t|;
    AtConcat3(c, at, es.before, t, es.after + tail);
    AtConcat(c, e, es.after, tail);
    if es.rest.MoreElems? {
      AtConcat(c, e + |es.after|, [44], SpelledElems(es.rest));
    }
  }

  /** Where the first element of a list stands, and what follows it. */
  lemma ElemPlaces(c: bytes, p: nat, es: ElemList, k: Codec) returns (q: nat, e: nat, f: nat)
    requires es.MoreElems? && GrammaticalElems(es, k) && At(c, p + 1, SpelledElems(es))
    requires var e := p + 1 + |SpelledElems(es)|; e < |c| && c[e] == 93
    ensures p < q < e <= f < |c| && Skip(c, p + 1) == q && c[q] != 93 && e == q + |Spelled(es.value)|
    ensures At(c, q, Spelled(es.value)) && Stops(c[e]) && Skip(c, e) == f
    ensures if es.rest.NoElem? then c[f] == 93 && f == p + 1 + |SpelledElems(es)|
            else c[f] == 44 && At(c, f + 1, SpelledElems(es.rest)) &&
                 f + 1 + |SpelledElems(es.rest)| == p + 1 + |SpelledElems(es)|
  {
    hide Grammatical, Spelled, SpelledElems, At, Skip, SkipLow, WhiteSpace;
    ElemParts(c, p + 1, es);
    q := p + 1 + |es.before|;
    e := q + |Spelled(es.value)|;
    f := e + |es.after|;
    SpelledStarts(es.value, k);
    AtFirst(c, q, Spelled(es.value));
    AtWhite(c, p + 1, es.before);
    AtWhite(c, e, es.after);
    SkipTo(c, p + 1, q);
    if es.rest.MoreElems? {
      AtFirst(c, f, [44]);
    }
    SkipTo(c, e, f);
  }

  /** The elements behind the bracket or comma at `p`. */
  lemma {:induction false} ElemListReads(c: bytes, p: nat, es: ElemList, depth: nat, k: Codec) returns (q: nat)
    requires es.MoreElems? && GrammaticalElems(es, k) && At(c, p + 1, SpelledElems(es))
    requires var e := p + 1 + |SpelledElems(es)|; e < |c| && c[e] == 93
    ensures p < q < |c| && Skip(c, p + 1) == q && c[q] != 93
    ensures ParseElems(c, p, depth, k) ==
            if SoundElems(es) && Fits(ElemsNesting(DenotedElems(es)), depth)
            then Ok(DenotedElems(es), p + 1 + |SpelledElems(es)| + 1) else Fail
    decreases es, 1
  {
    hide ParseValue, ParseElems, ParseMembers, At, Spelled, SpelledElems, Skip, SkipLow, Grammatical, Sound, Denoted,
      Stops;
    var e, f;
    q, e, f := ElemPlaces(c, p, es, k);
    if es.rest.MoreElems? {
      var _ := ElemListReads(c, f, es.rest, depth, k);
    }
    SyntaxReads(c, q, es.value, depth, k);
    var v := Denoted(es.value);
    if Sound(es.value) && Fits(Nesting(v), depth) {
      ElemsStep(c, p, q, e, depth, k, v, if es.rest.NoElem? then Fail else ParseElems(c, f, depth, k));
    } else {
      ElemsStepFails(c, p, q, depth, k);
    }
  }

  lemma {:induction false} ObjectWordReads(c: bytes, p: nat, gap: bytes, ms: MemberList, depth: nat, k: Codec)
    requires WhiteSpace(gap) && GrammaticalMembers(ms, k) && At(c, p, Spelled(ObjectWord(gap, ms)))
    ensures p < |c|
    ensures ParseValue(c, p, depth, k) ==
            if SoundMembers(ms) && Fits(1 + MembersNesting(DenotedMembers(ms)), depth)
            then Ok(Object(DenotedMembers(ms)), p + |Spelled(ObjectWord(gap, ms))|) else Fail
    decreases ms, 2
  {
    hide ParseValue, ParseElems, ParseMembers, At, SpelledMembers, Skip, SkipLow, WhiteSpace, StringText;
    var inner := if ms.NoMember? then gap else SpelledMembers(ms);
    AtConcat3(c, p, [123], inner, [125]);
    AtFirst(c, p, [123]);
    AtFirst(c, p + 1 + |inner|, [125]);
    if ms.NoMember? {
      AtWhite(c, p + 1, gap);
      SkipTo(c, p + 1, p + 1 + |gap|);
      ObjectStep(c, p, p + 1 + |gap|, depth, k);
    } else {
      var q := MemberListReads(c, p, ms, depth + 1, k);
      ObjectStep(c, p, q, depth, k);
    }
  }

  /** The parts of the first member, in place. */
  lemma MemberPlaces(c: bytes, at: nat, ms: MemberList)
    requires ms.MoreMembers? && At(c, at, SpelledMembers(ms))
    ensures var q := at + |ms.before|;
            var end := q + |ms.key|;
            var colon := end + |ms.afterKey|;
            var w := colon + 1 + |ms.beforeValue|;
            var e := w + |Spelled(ms.value)|;
            var tail := if ms.rest.NoMember? then [] else [44] + SpelledMembers(ms.rest);
            && At(c, at, ms.before) && At(c, q, ms.key) && At(c, end, ms.afterKey) && At(c, colon, [58])
            && At(c, colon + 1, ms.beforeValue) && At(c, w, Spelled(ms.value)) && At(c, e, ms.after + tail)
            && e + |ms.after + tail| == at + |SpelledMembers(ms)|
  {
    hide Spelled, At;
    var t := Spelled(ms.value);
    var tail := if ms.rest.NoMember? then [] else [44] + SpelledMembers(ms.rest);
    var sep := ms.afterKey + ([58] + ms.beforeValue);
    AtConcat3(c, at, ms.before + ms.key + sep, t, ms.after + tail);
    AtConcat3(c, at, ms.before, ms.key, sep);
    AtConcat(c, at + |ms.before| + |ms.key|, ms.afterKey, [58] + ms.beforeValue);
    AtConcat(c, at + |ms.before| + |ms.key| + |ms.afterKey|, [58], ms.beforeValue);
  }

  lemma KeyStarts(t: bytes, worth: Option<bytes>)
    requires StringText(t, worth)
    ensures |t| >= 2 && t[0] == 34
  {}

  /** Where the key of the first member stands, its end, and the colon. */
  lemma KeyPlaces(c: bytes, p: nat, ms: MemberList, k: Codec) returns (q: nat, end: nat, colon: nat, w: nat)
    requires ms.MoreMembers? && GrammaticalMembers(ms, k) && At(c, p + 1, SpelledMembers(ms))
    ensures p < q && end == q + |ms.key| && end <= colon < w <= |c|
    ensures q < |c| && Skip(c, p + 1) == q && c[q] == 34 && At(c, q, ms.key)
    ensures Skip(c, end) == colon && c[colon] == 58 && Skip(c, colon + 1) == w && w < |c|
    ensures At(c, w, Spelled(ms.value))
    ensures var tail := if ms.rest.NoMember? then [] else [44] + SpelledMembers(ms.rest);
            var e := w + |Spelled(ms.value)|;
            At(c, e, ms.after + tail) && e + |ms.after + tail| == p + 1 + |SpelledMembers(ms)|
  {
    hide Grammatical, Spelled, SpelledMembers, At, Skip, SkipLow, WhiteSpace, StringText;
    KeyStarts(ms.key, ms.keyWorth);
    MemberPlaces(c, p + 1, ms);
    q := p + 1 + |ms.before|;
    end := q + |ms.key|;
    colon := end + |ms.afterKey|;
    w := colon + 1 + |ms.beforeValue|;
    AtFirst(c, q, ms.key);
    AtFirst(c, colon, [58]);
    SpelledStarts(ms.value, k);
    AtFirst(c, w, Spelled(ms.value));
    AtWhite(c, p + 1, ms.before);
    AtWhite(c, end, ms.afterKey);
    AtWhite(c, colon + 1, ms.beforeValue);
    SkipTo(c, p + 1, q);
    SkipTo(c, end, colon);
    SkipTo(c, colon + 1, w);
  }

  /** What follows the value of the first member. */
  lemma AfterValue(c: bytes, e: nat, ms: MemberList, k: Codec) returns (f: nat)
    requires ms.MoreMembers? && GrammaticalMembers(ms, k)
    requires var tail := if ms.rest.NoMember? then [] else [44] + SpelledMembers(ms.rest);
             At(c, e, ms.after + tail) && e + |ms.after + tail| < |c| && c[e + |ms.after + tail|] == 125
    ensures e <= f < |c| && Stops(c[e]) && Skip(c, e) == f
    ensures if ms.rest.NoMember? then c[f] == 125 && f == e + |ms.after|
            else c[f] == 44 && At(c, f + 1, SpelledMembers(ms.rest)) && f == e + |ms.after|
  {
    hide Grammatical, Spelled, At, Skip, SkipLow, WhiteSpace, SpelledMembers, StringText;
    var tail := if ms.rest.NoMember? then [] else [44] + SpelledMembers(ms.rest);
    f := e + |ms.after|;
    AtConcat(c, e, ms.after, tail);
    AtWhite(c, e, ms.after);
    if ms.rest.MoreMembers? {
      AtConcat(c, f, [44], SpelledMembers(ms.rest));
      AtFirst(c, f, [44]);
    }
    SkipTo(c, e, f);
  }

  lemma MembersKeyFails(c: bytes, p: nat, q: nat, depth: nat, k: Codec)
    requires p < q < |c| && Skip(c, p + 1) == q && ParseStringAt(c, q).StringFail?
    ensures ParseMembers(c, p, depth, k).Fail?
  {
    hide ParseValue, ParseStringAt, Skip;
  }

  /** The members behind the brace or comma at `p`. */
  lemma {:induction false} MemberListReads(c: bytes, p: nat, ms: MemberList, depth: nat, k: Codec) returns (q: nat)
    requires ms.MoreMembers? && GrammaticalMembers(ms, k) && At(c, p + 1, SpelledMembers(ms))
    requires var e := p + 1 + |SpelledMembers(ms)|; e < |c| && c[e] == 125
    ensures p < q < |c| && Skip(c, p + 1) == q && c[q] == 34
    ensures ParseMembers(c, p, depth, k) ==
            if SoundMembers(ms) && Fits(MembersNesting(DenotedMembers(ms)), depth)
            then Ok(DenotedMembers(ms), p + 1 + |SpelledMembers(ms)| + 1) else Fail
    decreases ms, 1
  {
    hide ParseValue, ParseElems, ParseMembers, ParseStringAt, At, Spelled, SpelledMembers, Skip, SkipLow, Grammatical,
      Sound, Denoted, Stops, StringText, WhiteSpace;
    var end, colon, w;
    q, end, colon, w := KeyPlaces(c, p, ms, k);
    var e := w + |Spelled(ms.value)|;
    var f := AfterValue(c, e, ms, k);
    if ms.rest.MoreMembers? {
      var _ := MemberListReads(c, f, ms.rest, depth, k);
    }
    StringReads(c, q, ms.key, ms.keyWorth);
    SyntaxReads(c, w, ms.value, depth, k);
    var v := Denoted(ms.value);
    if ms.keyWorth.None? {
      MembersKeyFails(c, p, q, depth, k);
    } else if Sound(ms.value) && Fits(Nesting(v), depth) {
      MembersStep(c, p, q, end, colon, w, e, depth, k, ms.keyWorth.value, v,
                  if ms.rest.NoMember? then Fail else ParseMembers(c, f, depth, k));
    } else {
      MembersStepFails(c, p, q, end, colon, w, depth, k, ms.keyWorth.value);
    }
  }

  // ----- whole texts -----

  /** The byte-order mark that may stand in front of a text. */
  function Mark(marked: bool): bytes {
    if marked then [0xEF, 0xBB, 0xBF] else []
  }

  /**
    A text of the grammar, with white space around it and anything that begins with a visible byte behind that: what
    follows is ignored unless the caller asks for the end of the text, and then it is not allowed.
    */
  lemma TextReads(marked: bool, before: bytes, s: Syntax, after: bytes, more: bytes, nullTerminated: bool, k: Codec)
    requires Grammatical(s, k) && WhiteSpace(before) && WhiteSpace(after)
    requires more != [] ==> more[0] > 32 && (after != [] || Stops(more[0]))
    ensures var front := Mark(marked) + before + Spelled(s);
            var text := front + after + more;
            ParseText(text, nullTerminated, k) ==
            if !Sound(s) || Nesting(Denoted(s)) > 1000 || (nullTerminated && more != []) then Fail
            else Ok(Denoted(s), if nullTerminated then |text| else |front|)
  {
    hide ParseText, ParseValue, Spelled, Skip, Mark, Grammatical, Sound, Denoted, WhiteSpace, At, Fits;
    var t := Spelled(s);
    var text := Mark(marked) + before + t + after + more;
    var c := text + [NUL];
    var p := |Mark(marked)| + |before|;
    TextPlaces(marked, before, s, after, more, k);
    SyntaxReads(c, p, s, 0, k);
    TextSteps(text, nullTerminated, k, |Mark(marked)|, p);
    NestingFits(Denoted(s));
  }

  lemma NestingFits(v: Json)
    ensures Fits(Nesting(v), 0) <==> Nesting(v) <= 1000
  {}

  lemma TextSteps(text: bytes, nullTerminated: bool, k: Codec, start: nat, p: nat)
    requires start <= |text| && p < |text| + 1
    requires var c := text + [NUL];
             (if |c| > 4 && c[..3] == [0xEF, 0xBB, 0xBF] then 3 else 0) == start && Skip(c, start) == p
    ensures var c := text + [NUL];
            var v := ParseValue(c, p, 0, k);
            ParseText(text, nullTerminated, k) ==
            if v.Fail? then Fail
            else if !nullTerminated then v
            else if c[Skip(c, v.end)] != NUL then Fail else Ok(v.value, Skip(c, v.end))
  {
    hide ParseValue, Skip;
  }

  /** Where the value of a text stands, and what the parser finds behind it. */
  lemma TextPlaces(marked: bool, before: bytes, s: Syntax, after: bytes, more: bytes, k: Codec)
    requires Grammatical(s, k) && WhiteSpace(before) && WhiteSpace(after)
    requires more != [] ==> more[0] > 32 && (after != [] || Stops(more[0]))
    ensures var text := Mark(marked) + before + Spelled(s) + after + more;
            var c := text + [NUL];
            var p := |Mark(marked)| + |before|;
            var e := p + |Spelled(s)|;
            && (if |c| > 4 && c[..3] == [0xEF, 0xBB, 0xBF] then 3 else 0) == |Mark(marked)|
            && Skip(c, |Mark(marked)|) == p && At(c, p, Spelled(s)) && e < |c| && Stops(c[e])
            && (if more == [] then Skip(c, e) == |text| else c[Skip(c, e)] == more[0])
  {
    hide Spelled, At, Skip, SkipLow, Grammatical, WhiteSpace, Mark, Stops;
    var t := Spelled(s);
    var c := Mark(marked) + before + t + after + more + [NUL];
    var start := |Mark(marked)|;
    var p := start + |before|;
    AtWhole(Mark(marked), before, t, after, more);
    SpelledStarts(s, k);
    AtFirst(c, p, t);
    AtWhite(c, start, before);
    SkipTo(c, start, p);
    StartIs(marked, before, t, after, more);
    Behind(c, p + |t|, after, more);
  }

  /** What the parser finds behind a value. */
  lemma Behind(c: bytes, e: nat, after: bytes, more: bytes)
    requires At(c, e, after) && WhiteSpace(after) && e + |after| + |more| + 1 == |c|
    requires c[e + |after|] == if more == [] then NUL else more[0]
    requires more != [] ==> more[0] > 32 && (after != [] || Stops(more[0]))
    ensures e < |c| && Stops(c[e])
    ensures if more == [] then Skip(c, e) == |c| - 1 else c[Skip(c, e)] == more[0]
  {
    hide At, Skip, SkipLow, WhiteSpace;
    AtWhite(c, e, after);
    if more == [] {
      SkipToEnd(c, e, after);
    } else {
      SkipTo(c, e, e + |after|);
    }
  }

  lemma AtWhole(a: bytes, b: bytes, t: bytes, d: bytes, e: bytes)
    ensures var c := a + b + t + d + e + [NUL];
            && At(c, |a|, b) && At(c, |a| + |b|, t) && At(c, |a| + |b| + |t|, d)
            && c[|a| + |b| + |t| + |d|] == if e == [] then NUL else e[0]
  {}

  lemma StartIs(marked: bool, before: bytes, t: bytes, after: bytes, more: bytes)
    requires WhiteSpace(before) && t != [] && t[0] < 0x80
    ensures var c := Mark(marked) + before + t + after + more + [NUL];
            (if |c| > 4 && c[..3] == [0xEF, 0xBB, 0xBF] then 3 else 0) == |Mark(marked)|
  {
    var c := Mark(marked) + before + t + after + more + [NUL];
    if marked {
      assert c[..3] == [0xEF, 0xBB, 0xBF];
    } else {
      assert c[0] < 0x80;
      if |c| > 4 {
        assert c[..3][0] == c[0];
      }
    }
  }

  lemma SkipToEnd(c: bytes, e: nat, after: bytes)
    requires At(c, e, after) && WhiteSpace(after) && e + |after| + 1 == |c| && c[e + |after|] == NUL
    ensures Skip(c, e) == |c| - 1
  {
    AtWhite(c, e, after);
    SkipLowAll(c, e);
  }

  lemma {:induction false} SkipLowAll(c: bytes, p: nat)
    requires p <= |c| && forall i :: p <= i < |c| ==> c[i] <= 32
    ensures SkipLow(c, p) == |c|
    decreases |c| - p
  {
    if p < |c| {
      SkipLowAll(c, p + 1);
    }
  }

  /** A number of the grammar as a whole text. */
  lemma NumberTextReads(n: Numeral, nullTerminated: bool, k: Codec)
    requires LegalNumeral(n) && |NumeralText(n)| <= 63 && k.Used(NumeralText(n)) == |NumeralText(n)|
    ensures var t := NumeralText(n); ParseText(t, nullTerminated, k) == Ok(Number(k.value(t)), |t|)
  {
    hide ParseText, NumeralText, LegalNumeral;
    var t := NumeralText(n);
    TextReads(false, [], Scalar(t, Some(Number(k.value(t)))), [], [], nullTerminated, k);
    assert [] + [] + t + [] + [] == t && [] + [] + t == t;
  }
}
