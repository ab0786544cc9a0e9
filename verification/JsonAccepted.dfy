/**
  The other half: whatever text the parser accepts is put together as a JSON text is, with every byte up to 32 for white
  space, numbers as far as the codec takes them and strings from quote to quote, and its value is read off from it.
  */
module JsonAccepted {
  import opened Bytes
  import opened JsonStrings
  import opened JsonValues
  import opened JsonRoundTrip
  import opened JsonGrammar

  predicate Low(t: bytes) {
    forall i :: 0 <= i < |t| ==> t[i] <= 32
  }

  /** What the codec takes of a run of number characters. */
  ghost predicate AcceptedNumber(t: bytes, x: real, k: Codec) {
    && t != [] && (t[0] == 45 || 48 <= t[0] <= 57)
    && exists run: bytes :: |run| <= 63 && t <= run && (forall i :: 0 <= i < |run| ==> NumberCharacter(run[i])) &&
          k.Used(run) == |t| && x == k.value(run)
  }

  ghost predicate AcceptedScalar(t: bytes, worth: Option<Json>, k: Codec) {
    || Name(t, worth)
    || (worth.Some? && worth.value.String? && |t| >= 2 && t[0] == 34 && t[|t| - 1] == 34)
    || (worth.Some? && worth.value.Number? && AcceptedNumber(t, worth.value.num, k))
  }

  ghost predicate Accepted(s: Syntax, k: Codec) {
    match s
    case Scalar(t, worth) => AcceptedScalar(t, worth, k)
    case ArrayWord(gap, es) => Low(gap) && AcceptedElems(es, k)
    case ObjectWord(gap, ms) => Low(gap) && AcceptedMembers(ms, k)
  }

  ghost predicate AcceptedElems(es: ElemList, k: Codec) {
    es.MoreElems? ==> Low(es.before) && Accepted(es.value, k) && Low(es.after) && AcceptedElems(es.rest, k)
  }

  ghost predicate AcceptedMembers(ms: MemberList, k: Codec) {
    ms.MoreMembers? ==>
      && Low(ms.before) && |ms.key| >= 2 && ms.key[0] == 34 && ms.key[|ms.key| - 1] == 34 && ms.keyWorth.Some?
      && Low(ms.afterKey) && Low(ms.beforeValue) && Accepted(ms.value, k) && Low(ms.after)
      && AcceptedMembers(ms.rest, k)
  }

  // ----- tokens -----

  lemma AtAll(c: bytes, p: nat, a: bytes, b: bytes, d: bytes)
    requires At(c, p, a) && At(c, p + |a|, b) && At(c, p + |a| + |b|, d)
    ensures At(c, p, a + b + d)
  {
    hide At;
    AtConcat(c, p, a, b);
    AtConcat(c, p, a + b, d);
  }

  lemma AtSlice(c: bytes, p: nat, q: nat)
    requires p <= q <= |c|
    ensures At(c, p, c[p..q])
  {}

  lemma AtByte(c: bytes, p: nat)
    requires p < |c|
    ensures At(c, p, [c[p]])
  {}

  /** Where a skip ends at a visible byte, all it has passed over is low. */
  lemma SkipLands(c: bytes, p: nat)
    requires p < |c| && c[|c| - 1] <= 32 && c[Skip(c, p)] > 32
    ensures var q := Skip(c, p); p <= q && At(c, p, c[p..q]) && Low(c[p..q])
  {}

  lemma StringAccepted(c: bytes, p: nat)
    requires p < |c| && ParseStringAt(c, p).StringOk?
    ensures var e := ParseStringAt(c, p).end;
            p + 2 <= e <= |c| && c[p] == 34 && c[e - 1] == 34
  {}

  lemma PartAccepted(t: bytes, run: bytes, k: Codec)
    requires |run| <= 63 && (forall i :: 0 <= i < |run| ==> NumberCharacter(run[i]))
    requires t == run[..k.Used(run)] && t != [] && (t[0] == 45 || 48 <= t[0] <= 57)
    ensures AcceptedNumber(t, k.value(run), k) && NumberCharacter(t[|t| - 1])
  {}

  lemma NumberAccepted(c: bytes, p: nat, k: Codec)
    requires p < |c| && (c[p] == 45 || 48 <= c[p] <= 57) && ParseNumber(c, p, k).Ok?
    ensures var r := ParseNumber(c, p, k);
            r.value.Number? && AcceptedNumber(c[p..r.end], r.value.num, k) && NumberCharacter(c[r.end - 1])
  {
    hide NumberCharacter, AcceptedNumber, NumberRun;
    var run := NumberRun(c, p, MAX_NUMBER_RUN);
    RunCharacters(c, p, MAX_NUMBER_RUN);
    var t := c[p..p + k.Used(run)];
    assert t == run[..k.Used(run)] && t[0] == c[p];
    PartAccepted(t, run, k);
  }

  lemma {:induction false} RunCharacters(c: bytes, p: nat, room: nat)
    requires p <= |c|
    ensures forall i :: 0 <= i < |NumberRun(c, p, room)| ==> NumberCharacter(NumberRun(c, p, room)[i])
    decreases room
  {
    if room > 0 && p < |c| {
      RunCharacters(c, p + 1, room - 1);
    }
  }

  lemma ScalarAccepted(c: bytes, p: nat, k: Codec) returns (s: Syntax)
    requires p < |c| && ParseScalar(c, p, k).Ok?
    ensures var r := ParseScalar(c, p, k);
            && s == Scalar(c[p..r.end], Some(r.value)) && Accepted(s, k) && c[r.end - 1] > 32
  {
    hide ParseStringAt, ParseNumber, AcceptedNumber;
    var r := ParseScalar(c, p, k);
    s := Scalar(c[p..r.end], Some(r.value));
    var t := c[p..r.end];
    assert t[0] == c[p] && t[|t| - 1] == c[r.end - 1];
    if c[p] == QUOTE {
      NotALiteral(c, p);
      StringAccepted(c, p);
    } else if c[p] == 45 || 48 <= c[p] <= 57 {
      NotALiteral(c, p);
      NumberAccepted(c, p, k);
    } else {
      assert Name(t, s.worth);
    }
  }

  lemma AcceptedStarts(s: Syntax, k: Codec)
    requires Accepted(s, k)
    ensures Spelled(s) != [] && Spelled(s)[0] > 32
  {}

  // ----- values -----

  /** An accepted value is spelled by what stands there, up to its end. */
  lemma {:induction false} ValueAccepted(c: bytes, p: nat, depth: nat, k: Codec) returns (s: Syntax)
    requires p < |c| && c[|c| - 1] == NUL && ParseValue(c, p, depth, k).Ok?
    ensures var r := ParseValue(c, p, depth, k);
            && Accepted(s, k) && Sound(s) && Denoted(s) == r.value
            && At(c, p, Spelled(s)) && r.end == p + |Spelled(s)| < |c| && c[p] > 32
    decreases |c| - p, 1
  {
    hide ParseScalar, ParseElems, ParseMembers, At, Skip, SkipLow, AcceptedScalar, Low;
    var r := ParseValue(c, p, depth, k);
    if c[p] == OPEN_BRACKET {
      s := ArrayAccepted(c, p, depth, k);
    } else if c[p] == OPEN_BRACE {
      s := ObjectAccepted(c, p, depth, k);
    } else {
      s := ScalarAccepted(c, p, k);
      AtSlice(c, p, r.end);
      AcceptedStarts(s, k);
      assert c[p..r.end][0] == c[p];
    }
  }

  lemma {:induction false} ArrayAccepted(c: bytes, p: nat, depth: nat, k: Codec) returns (s: Syntax)
    requires p < |c| && c[|c| - 1] == NUL && c[p] == OPEN_BRACKET && ParseValue(c, p, depth, k).Ok?
    ensures var r := ParseValue(c, p, depth, k);
            && Accepted(s, k) && Sound(s) && Denoted(s) == r.value
            && At(c, p, Spelled(s)) && r.end == p + |Spelled(s)| < |c|
    decreases |c| - p, 0, 1
  {
    hide ParseScalar, ParseElems, ParseMembers, At, Skip, SkipLow, AcceptedScalar, Low, SpelledElems;
    var q := Skip(c, p + 1);
    AtByte(c, p);
    if c[q] == CLOSE_BRACKET {
      SkipLands(c, p + 1);
      AtByte(c, q);
      s := ArrayWord(c[p + 1..q], NoElem);
      AtAll(c, p, [91], c[p + 1..q], [93]);
    } else {
      var es := ElemListAccepted(c, p, depth + 1, k);
      s := ArrayWord([], es);
      AtByte(c, p + 1 + |SpelledElems(es)|);
      AtAll(c, p, [91], SpelledElems(es), [93]);
      assert Low([]) by {
        NothingLow();
      }
    }
  }

  lemma NothingLow()
    ensures Low([])
  {}

  lemma ElemSpelled(c: bytes, at: nat, before: bytes, v: Syntax, after: bytes, rest: ElemList)
    requires At(c, at, before) && At(c, at + |before|, Spelled(v)) && At(c, at + |before| + |Spelled(v)|, after)
    requires var f := at + |before| + |Spelled(v)| + |after|;
             rest.MoreElems? ==> At(c, f, [44]) && At(c, f + 1, SpelledElems(rest))
    ensures var es := MoreElems(before, v, after, rest);
            var f := at + |before| + |Spelled(v)| + |after|;
            At(c, at, SpelledElems(es)) &&
            |SpelledElems(es)| == f - at + (if rest.NoElem? then 0 else 1 + |SpelledElems(rest)|)
  {
    hide At, Spelled;
    var f := at + |before| + |Spelled(v)| + |after|;
    var tail := if rest.NoElem? then [] else [44] + SpelledElems(rest);
    if rest.MoreElems? {
      AtConcat(c, f, [44], SpelledElems(rest));
      AtConcat(c, f - |after|, after, tail);
    } else {
      assert after + tail == after;
    }
    AtAll(c, at, before, Spelled(v), after + tail);
  }

  lemma {:induction false} ElemListAccepted(c: bytes, p: nat, depth: nat, k: Codec) returns (es: ElemList)
    requires p < |c| && c[|c| - 1] == NUL && c[p] != NUL && ParseElems(c, p, depth, k).Ok?
    ensures var r := ParseElems(c, p, depth, k);
            && es.MoreElems? && AcceptedElems(es, k) && SoundElems(es) && DenotedElems(es) == r.value
            && At(c, p + 1, SpelledElems(es)) && r.end == p + 1 + |SpelledElems(es)| + 1 < |c| && c[r.end - 1] == 93
    decreases |c| - p, 0, 0
  {
    hide ParseValue, At, Skip, SkipLow, Accepted, Low, SpelledElems, Spelled, Sound, Denoted;
    var q := Skip(c, p + 1);
    var v := ParseValue(c, q, depth, k);
    var s := ValueAccepted(c, q, depth, k);
    var e := Skip(c, v.end);
    SkipLands(c, p + 1);
    SkipLands(c, v.end);
    var rest := NoElem;
    if c[e] == COMMA {
      rest := ElemListAccepted(c, e, depth, k);
      AtByte(c, e);
    }
    es := MoreElems(c[p + 1..q], s, c[v.end..e], rest);
    ElemSpelled(c, p + 1, c[p + 1..q], s, c[v.end..e], rest);
  }

  lemma {:induction false} ObjectAccepted(c: bytes, p: nat, depth: nat, k: Codec) returns (s: Syntax)
    requires p < |c| && c[|c| - 1] == NUL && c[p] == OPEN_BRACE && ParseValue(c, p, depth, k).Ok?
    ensures var r := ParseValue(c, p, depth, k);
            && Accepted(s, k) && Sound(s) && Denoted(s) == r.value
            && At(c, p, Spelled(s)) && r.end == p + |Spelled(s)| < |c|
    decreases |c| - p, 0, 1
  {
    hide ParseScalar, ParseElems, ParseMembers, At, Skip, SkipLow, AcceptedScalar, Low, SpelledMembers;
    var q := Skip(c, p + 1);
    AtByte(c, p);
    if c[q] == CLOSE_BRACE {
      SkipLands(c, p + 1);
      AtByte(c, q);
      s := ObjectWord(c[p + 1..q], NoMember);
      AtAll(c, p, [123], c[p + 1..q], [125]);
    } else {
      var ms := MemberListAccepted(c, p, depth + 1, k);
      s := ObjectWord([], ms);
      AtByte(c, p + 1 + |SpelledMembers(ms)|);
      AtAll(c, p, [123], SpelledMembers(ms), [125]);
      assert Low([]) by {
        NothingLow();
      }
    }
  }

  /** The parts of a member, put together. */
  lemma MemberSpelled(c: bytes, at: nat, ms: MemberList)
    requires ms.MoreMembers?
    requires var q := at + |ms.before|;
             var end := q + |ms.key|;
             var colon := end + |ms.afterKey|;
             var w := colon + 1 + |ms.beforeValue|;
             var e := w + |Spelled(ms.value)|;
             var f := e + |ms.after|;
             && At(c, at, ms.before) && At(c, q, ms.key) && At(c, end, ms.afterKey) && At(c, colon, [58])
             && At(c, colon + 1, ms.beforeValue) && At(c, w, Spelled(ms.value)) && At(c, e, ms.after)
             && (ms.rest.MoreMembers? ==> At(c, f, [44]) && At(c, f + 1, SpelledMembers(ms.rest)))
    ensures At(c, at, SpelledMembers(ms))
    ensures |SpelledMembers(ms)| ==
            |ms.before| + |ms.key| + |ms.afterKey| + 1 + |ms.beforeValue| + |Spelled(ms.value)| + |ms.after| +
            (if ms.rest.NoMember? then 0 else 1 + |SpelledMembers(ms.rest)|)
  {
    hide At, Spelled;
    var q := at + |ms.before|;
    var end := q + |ms.key|;
    var colon := end + |ms.afterKey|;
    var e := colon + 1 + |ms.beforeValue| + |Spelled(ms.value)|;
    var tail := if ms.rest.NoMember? then [] else [44] + SpelledMembers(ms.rest);
    var sep := ms.afterKey + ([58] + ms.beforeValue);
    AtConcat(c, colon, [58], ms.beforeValue);
    AtConcat(c, end, ms.afterKey, [58] + ms.beforeValue);
    AtAll(c, at, ms.before, ms.key, sep);
    if ms.rest.MoreMembers? {
      AtConcat(c, e + |ms.after|, [44], SpelledMembers(ms.rest));
      AtConcat(c, e, ms.after, tail);
    } else {
      assert ms.after + tail == ms.after;
    }
    AtAll(c, at, ms.before + ms.key + sep, Spelled(ms.value), ms.after + tail);
  }

  /** The key of an accepted member, the colon and the beginning of the value. */
  lemma KeyAccepted(c: bytes, p: nat, depth: nat, k: Codec) returns (q: nat, end: nat, colon: nat, w: nat)
    requires p < |c| && c[|c| - 1] == NUL && c[p] != NUL && ParseMembers(c, p, depth, k).Ok?
    ensures p < q < end <= colon < w < |c|
    ensures q == Skip(c, p + 1) && ParseStringAt(c, q).StringOk? && end == ParseStringAt(c, q).end
    ensures colon == Skip(c, end) && c[colon] == 58 && w == Skip(c, colon + 1) && ParseValue(c, w, depth, k).Ok?
    ensures At(c, p + 1, c[p + 1..q]) && Low(c[p + 1..q]) && At(c, end, c[end..colon]) && Low(c[end..colon])
    ensures end - q >= 2 && c[q] == 34 && c[end - 1] == 34
    ensures var r, v, key := ParseMembers(c, p, depth, k), ParseValue(c, w, depth, k), ParseStringAt(c, q).value;
            var e := Skip(c, v.end);
            if c[e] == COMMA then
              var rest := ParseMembers(c, e, depth, k);
              rest.Ok? && r == Ok(Member(key, v.value, rest.value), rest.end)
            else c[e] == CLOSE_BRACE && r == Ok(Member(key, v.value, NoMembers), e + 1)
  {
    hide ParseValue, ParseStringAt, At, Skip, SkipLow, Low;
    q := Skip(c, p + 1);
    StringAccepted(c, q);
    end := ParseStringAt(c, q).end;
    SkipLands(c, p + 1);
    colon := Skip(c, end);
    SkipLands(c, end);
    w := Skip(c, colon + 1);
  }

  lemma {:induction false} MemberListAccepted(c: bytes, p: nat, depth: nat, k: Codec) returns (ms: MemberList)
    requires p < |c| && c[|c| - 1] == NUL && c[p] != NUL && ParseMembers(c, p, depth, k).Ok?
    ensures var r := ParseMembers(c, p, depth, k);
            && ms.MoreMembers? && AcceptedMembers(ms, k) && SoundMembers(ms) && DenotedMembers(ms) == r.value
            && At(c, p + 1, SpelledMembers(ms)) && r.end == p + 1 + |SpelledMembers(ms)| + 1 < |c| &&
               c[r.end - 1] == 125
    decreases |c| - p, 0, 0
  {
    hide ParseValue, ParseStringAt, At, Skip, SkipLow, Accepted, Low, SpelledMembers, Spelled, Sound, Denoted,
      SoundMembers, AcceptedMembers, DenotedMembers, ParseMembers;
    var q, end, colon, w := KeyAccepted(c, p, depth, k);
    var v := ParseValue(c, w, depth, k);
    var s := ValueAccepted(c, w, depth, k);
    var e := Skip(c, v.end);
    SkipLands(c, colon + 1);
    SkipLands(c, v.end);
    var rest := NoMember;
    NoMemberMade(k);
    if c[e] == COMMA {
      rest := MemberListAccepted(c, e, depth, k);
      AtByte(c, e);
    }
    ms := MoreMembers(c[p + 1..q], c[q..end], Some(ParseStringAt(c, q).value), c[end..colon], c[colon + 1..w], s,
                      c[v.end..e], rest);
    AtSlice(c, q, end);
    AtByte(c, colon);
    MemberSpelled(c, p + 1, ms);
    MemberMade(ms, k);
  }

  lemma MemberMade(ms: MemberList, k: Codec)
    requires ms.MoreMembers? && Low(ms.before) && Low(ms.afterKey) && Low(ms.beforeValue) && Low(ms.after)
    requires |ms.key| >= 2 && ms.key[0] == 34 && ms.key[|ms.key| - 1] == 34 && ms.keyWorth.Some?
    requires Accepted(ms.value, k) && Sound(ms.value) && AcceptedMembers(ms.rest, k) && SoundMembers(ms.rest)
    ensures AcceptedMembers(ms, k) && SoundMembers(ms)
    ensures DenotedMembers(ms) == Member(ms.keyWorth.value, Denoted(ms.value), DenotedMembers(ms.rest))
  {
    hide Accepted, Sound, Denoted, Low;
  }

  lemma NoMemberMade(k: Codec)
    ensures AcceptedMembers(NoMember, k) && SoundMembers(NoMember) && DenotedMembers(NoMember) == NoMembers
  {}

  // ----- whole texts -----

  /**
    An accepted text: a byte-order mark or none, bytes up to 32, a value put together as described, and then anything;
    if the end of the text was asked for, nothing but bytes up to 32.
    */
  lemma TextAccepted(text: bytes, nullTerminated: bool, k: Codec)
    returns (marked: bool, before: bytes, s: Syntax, more: bytes)
    requires ParseText(text, nullTerminated, k).Ok?
    ensures text == Mark(marked) + before + Spelled(s) + more && Low(before) && Accepted(s, k) && Sound(s)
    ensures ParseText(text, nullTerminated, k).value == Denoted(s)
    ensures if nullTerminated then Low(more)
            else ParseText(text, nullTerminated, k).end == |Mark(marked) + before + Spelled(s)|
  {
    hide ParseValue, At, Skip, SkipLow, Accepted, Low, Spelled, Sound, Denoted;
    var c := text + [NUL];
    marked := |c| > 4 && c[..3] == [0xEF, 0xBB, 0xBF];
    var start := |Mark(marked)|;
    var p := Skip(c, start);
    var v := ParseValue(c, p, 0, k);
    s := ValueAccepted(c, p, 0, k);
    SkipLands(c, start);
    before, more := c[start..p], text[v.end..];
    TextTogether(text, marked, p, Spelled(s));
    if nullTerminated {
      EndReached(text, v.end);
    }
  }

  lemma TextTogether(text: bytes, marked: bool, p: nat, t: bytes)
    requires var c := text + [NUL]; At(c, p, t) && |Mark(marked)| <= p && p + |t| <= |text|
    requires marked ==> |text| >= 3 && (text + [NUL])[..3] == [0xEF, 0xBB, 0xBF]
    ensures text == Mark(marked) + (text + [NUL])[|Mark(marked)|..p] + t + text[p + |t|..]
  {
    var c := text + [NUL];
    var start := |Mark(marked)|;
    assert text[..start] == Mark(marked) by {
      assert marked ==> text[..3] == c[..3];
    }
    assert c[p..p + |t|] == text[p..p + |t|] && c[start..p] == text[start..p];
    assert text == text[..start] + text[start..p] + text[p..p + |t|] + text[p + |t|..];
  }

  lemma EndReached(text: bytes, e: nat)
    requires e <= |text| && (text + [NUL])[Skip(text + [NUL], e)] == NUL
    ensures Low(text[e..])
  {
    var c := text + [NUL];
    if SkipLow(c, e) == |c| {
      forall i | 0 <= i < |text| - e ensures text[e..][i] <= 32 {
        assert c[e + i] == text[e + i];
      }
    }
  }
}
