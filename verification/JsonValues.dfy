/**
  JSON values, the text `cJSON_Print` and `cJSON_PrintUnformatted` give them,
  the parser as a function of text and cursor, and the theorem that the two undo each other.
  */
module JsonValues {
  import opened Bytes
  import opened JsonStrings

  /** `Invalid` is a node that cannot be printed; `Raw` holds text that is printed verbatim. */
  datatype Json =
    | Invalid
    | Null
    | False
    | True
    | Number(num: real)
    | String(text: bytes)
    | Raw(text: bytes)
    | Array(elems: Elems)
    | Object(members: Members)

  datatype Elems = NoElems | Elem(head: Json, tail: Elems)

  datatype Members = NoMembers | Member(key: bytes, value: Json, rest: Members)

  /**
    The conversions between doubles and text belong to the C library. `show` stands for `sprintf`,
    and `used` and `value` for the two results of `strtod`, each given the maximal run of number characters.
    */
  datatype Codec = Codec(show: real -> bytes, used: bytes -> nat, value: bytes -> real) {
    function Used(run: bytes): (n: nat)
      ensures n <= |run|
    {
      if used(run) <= |run| then used(run) else |run|
    }
  }

  const NULL_TEXT: bytes := [110, 117, 108, 108]
  const FALSE_TEXT: bytes := [102, 97, 108, 115, 101]
  const TRUE_TEXT: bytes := [116, 114, 117, 101]
  const NESTING_LIMIT: nat := 1000
  const MAX_NUMBER_RUN: nat := 63
  const MAX_NUMBER_TEXT: nat := 25

  predicate NumberByte(b: byte) {
    48 <= b <= 57 || b == 43 || b == 45 || b == 46 || b == 101 || b == 69
  }

  /** The codec prints `x` as a JSON number and reads it back. */
  predicate Lossless(k: Codec, x: real) {
    var t := k.show(x);
    && 1 <= |t| <= MAX_NUMBER_TEXT
    && (t[0] == 45 || 48 <= t[0] <= 57)
    && (forall i :: 0 <= i < |t| ==> NumberByte(t[i]))
    && k.Used(t) == |t| && k.value(t) == x
  }

  // ----- nesting and shape of values -----

  function Nesting(v: Json): nat {
    match v
    case Array(es) => 1 + ElemsNesting(es)
    case Object(ms) => 1 + MembersNesting(ms)
    case _ => 0
  }

  function ElemsNesting(es: Elems): nat {
    match es
    case NoElems => 0
    case Elem(v, rest) => if Nesting(v) > ElemsNesting(rest) then Nesting(v) else ElemsNesting(rest)
  }

  function MembersNesting(ms: Members): nat {
    match ms
    case NoMembers => 0
    case Member(_, v, rest) => if Nesting(v) > MembersNesting(rest) then Nesting(v) else MembersNesting(rest)
  }

  /** Built of literals, numbers that survive the codec, NUL-free strings, arrays and objects. */
  predicate Plain(v: Json, k: Codec) {
    match v
    case Number(x) => Lossless(k, x)
    case String(s) => NulFree(s)
    case Array(es) => PlainElems(es, k)
    case Object(ms) => PlainMembers(ms, k)
    case Invalid => false
    case Raw(_) => false
    case _ => true
  }

  predicate PlainElems(es: Elems, k: Codec) {
    es.Elem? ==> Plain(es.head, k) && PlainElems(es.tail, k)
  }

  predicate PlainMembers(ms: Members, k: Codec) {
    ms.Member? ==> NulFree(ms.key) && Plain(ms.value, k) && PlainMembers(ms.rest, k)
  }

  // ----- printing -----

  /** The layout of a print: with or without white space. */
  datatype Layout = Layout(formatted: bool, codec: Codec)

  function Repeat(b: byte, n: nat): (t: bytes)
    ensures |t| == n && forall i :: 0 <= i < n ==> t[i] == b
  {
    if n == 0 then [] else [b] + Repeat(b, n - 1)
  }

  function Gap(l: Layout, t: bytes): bytes {
    if l.formatted then t else []
  }

  function Text(v: Json, l: Layout, depth: nat): bytes {
    match v
    case Invalid => []
    case Null => NULL_TEXT
    case False => FALSE_TEXT
    case True => TRUE_TEXT
    case Number(x) => l.codec.show(x)
    case String(s) => Quoted(s)
    case Raw(s) => s
    case Array(es) => [OPEN_BRACKET] + ElemsText(es, l, depth + 1) + [CLOSE_BRACKET]
    case Object(ms) =>
      [OPEN_BRACE] + Gap(l, [NEWLINE]) + MembersText(ms, l, depth + 1) + Gap(l, Repeat(TAB, depth)) + [CLOSE_BRACE]
  }

  function ElemsText(es: Elems, l: Layout, depth: nat): bytes {
    match es
    case NoElems => []
    case Elem(v, rest) =>
      Text(v, l, depth) + AfterElem(l, rest.NoElems?) + ElemsText(rest, l, depth)
  }

  function AfterElem(l: Layout, last: bool): bytes {
    if last then [] else [COMMA] + Gap(l, [SPACE])
  }

  function KeyText(key: bytes, l: Layout, depth: nat): bytes {
    Gap(l, Repeat(TAB, depth)) + Quoted(key) + ([COLON] + Gap(l, [TAB]))
  }

  function AfterMember(l: Layout, last: bool): bytes {
    (if last then [] else [COMMA]) + Gap(l, [NEWLINE])
  }

  function MembersText(ms: Members, l: Layout, depth: nat): bytes {
    match ms
    case NoMembers => []
    case Member(key, v, rest) =>
      KeyText(key, l, depth) + Text(v, l, depth) + AfterMember(l, rest.NoMembers?) + MembersText(rest, l, depth)
  }

  /** No invalid node, and no number too long for the printer's own buffer. */
  predicate Printable(v: Json, k: Codec) {
    match v
    case Invalid => false
    case Number(x) => |k.show(x)| <= MAX_NUMBER_TEXT
    case Array(es) => PrintableElems(es, k)
    case Object(ms) => PrintableMembers(ms, k)
    case _ => true
  }

  predicate PrintableElems(es: Elems, k: Codec) {
    es.Elem? ==> Printable(es.head, k) && PrintableElems(es.tail, k)
  }

  predicate PrintableMembers(ms: Members, k: Codec) {
    ms.Member? ==> Printable(ms.value, k) && PrintableMembers(ms.rest, k)
  }

  // ----- parsing -----

  datatype Result<T> = Fail | Ok(value: T, end: nat)

  /** The first position from `p` on that holds no byte up to 32. */
  function SkipLow(c: bytes, p: nat): (q: nat)
    requires p <= |c|
    ensures p <= q <= |c|
    ensures q < |c| ==> c[q] > 32
    ensures forall i :: p <= i < q ==> c[i] <= 32
    decreases |c| - p
  {
    if p < |c| && c[p] <= 32 then SkipLow(c, p + 1) else p
  }

  /** Skips white space (and every other byte up to 32, NUL included), but steps back from the end of the text. */
  function Skip(c: bytes, p: nat): (q: nat)
    requires p <= |c| && c != []
    ensures q < |c|
    ensures p < |c| ==> p <= q
    ensures p == |c| ==> q == |c| - 1
  {
    var q := SkipLow(c, p);
    if q == |c| then q - 1 else q
  }

  /** The characters copied for `strtod`: the maximal run of number characters at `p`, at most 63. */
  function NumberRun(c: bytes, p: nat, room: nat): (run: bytes)
    requires p <= |c|
    ensures |run| <= room && p + |run| <= |c| && run == c[p..p + |run|]
    decreases room
  {
    if room > 0 && p < |c| && NumberByte(c[p]) then [c[p]] + NumberRun(c, p + 1, room - 1) else []
  }

  function ParseNumber(c: bytes, p: nat, k: Codec): (r: Result<Json>)
    requires p < |c|
    ensures r.Ok? ==> p < r.end <= |c|
  {
    var run := NumberRun(c, p, MAX_NUMBER_RUN);
    if k.Used(run) == 0 then Fail else Ok(Number(k.value(run)), p + k.Used(run))
  }

  /** Literals, strings and numbers. */
  function ParseScalar(c: bytes, p: nat, k: Codec): (r: Result<Json>)
    requires p < |c|
    ensures r.Ok? ==> p < r.end <= |c| && Nesting(r.value) == 0
  {
    if p + 4 <= |c| && c[p..p + 4] == NULL_TEXT then Ok(Null, p + 4)
    else if p + 5 <= |c| && c[p..p + 5] == FALSE_TEXT then Ok(False, p + 5)
    else if p + 4 <= |c| && c[p..p + 4] == TRUE_TEXT then Ok(True, p + 4)
    else if c[p] == QUOTE then
      var s := ParseStringAt(c, p);
      if s.StringFail? then Fail else Ok(String(s.value), s.end)
    else if c[p] == 45 || 48 <= c[p] <= 57 then ParseNumber(c, p, k)
    else Fail
  }

  /** The value at `p`, inside `depth` open arrays and objects, and the position just past it. */
  function ParseValue(c: bytes, p: nat, depth: nat, k: Codec): (r: Result<Json>)
    requires p < |c|
    ensures r.Ok? ==> p < r.end <= |c|
    decreases |c| - p, 1
  {
    if c[p] == OPEN_BRACKET then
      if depth >= NESTING_LIMIT then Fail
      else
        var q := Skip(c, p + 1);
        if c[q] == CLOSE_BRACKET then Ok(Array(NoElems), q + 1)
        else
          var r := ParseElems(c, p, depth + 1, k);
          if r.Fail? then Fail else Ok(Array(r.value), r.end)
    else if c[p] == OPEN_BRACE then
      if depth >= NESTING_LIMIT then Fail
      else
        var q := Skip(c, p + 1);
        if c[q] == CLOSE_BRACE then Ok(Object(NoMembers), q + 1)
        else
          var r := ParseMembers(c, p, depth + 1, k);
          if r.Fail? then Fail else Ok(Object(r.value), r.end)
    else ParseScalar(c, p, k)
  }

  /** The elements after the bracket or comma at `p`, up to and past the closing bracket. */
  function ParseElems(c: bytes, p: nat, depth: nat, k: Codec): (r: Result<Elems>)
    requires p < |c|
    ensures r.Ok? ==> p < r.end <= |c|
    decreases |c| - p, 0
  {
    var q := Skip(c, p + 1);
    if q <= p then Fail
    else
      var v := ParseValue(c, q, depth, k);
      if v.Fail? then Fail
      else
        var e := Skip(c, v.end);
        if c[e] == COMMA then
          var rest := ParseElems(c, e, depth, k);
          if rest.Fail? then Fail else Ok(Elem(v.value, rest.value), rest.end)
        else if c[e] == CLOSE_BRACKET then Ok(Elem(v.value, NoElems), e + 1)
        else Fail
  }

  /** The members after the brace or comma at `p`, up to and past the closing brace. */
  function ParseMembers(c: bytes, p: nat, depth: nat, k: Codec): (r: Result<Members>)
    requires p < |c|
    ensures r.Ok? ==> p < r.end <= |c|
    decreases |c| - p, 0
  {
    var q := Skip(c, p + 1);
    var key := ParseStringAt(c, q);
    if q <= p || key.StringFail? then Fail
    else
      var colon := Skip(c, key.end);
      if c[colon] != COLON then Fail
      else
        var w := Skip(c, colon + 1);
        if w <= colon then Fail
        else
          var v := ParseValue(c, w, depth, k);
          if v.Fail? then Fail
          else
            var e := Skip(c, v.end);
            if c[e] == COMMA then
              var rest := ParseMembers(c, e, depth, k);
              if rest.Fail? then Fail else Ok(Member(key.value, v.value, rest.value), rest.end)
            else if c[e] == CLOSE_BRACE then Ok(Member(key.value, v.value, NoMembers), e + 1)
            else Fail
  }

  /**
    cJSON_ParseWithOpts: byte-order mark, leading white space, one value, and, if asked for, nothing but white space
    after it.
    */
  function ParseText(text: bytes, nullTerminated: bool, k: Codec): (r: Result<Json>)
    ensures r.Ok? ==> r.end <= |text| + 1
  {
    var c := text + [NUL];
    var start := if |c| > 4 && c[..3] == [0xEF, 0xBB, 0xBF] then 3 else 0;
    var v := ParseValue(c, Skip(c, start), 0, k);
    if v.Fail? then Fail
    else if nullTerminated then
      var e := Skip(c, v.end);
      if c[e] != NUL then Fail else Ok(v.value, e)
    else v
  }
}
