/**
  32-bit words and the numbers they stand for: masks, shifts and joined bits are remainders, quotients and sums.
  The arithmetic of cJSON's conversion from UTF-16 to UTF-8 is done on words and specified on numbers.
  */
module Words {
  function Half(w: bv32): bv32 {
    w >> 1
  }

  function Bit(w: bv32): (b: nat)
    ensures b <= 1
  {
    if w & 1 == 1 then 1 else 0
  }

  /** The number that a word stands for. */
  function Val(w: bv32): (n: nat)
    ensures n == 0 <==> w == 0
    decreases w
  {
    if w == 0 then 0 else 2 * Val(Half(w)) + Bit(w)
  }

  lemma ValHalf(w: bv32)
    ensures Val(w) == 2 * Val(Half(w)) + Bit(w)
  {}

  function And(w: bv32, x: bv32): bv32 {
    w & x
  }

  function Or(w: bv32, x: bv32): bv32 {
    w | x
  }

  // ----- joining -----

  lemma OrNothing(w: bv32, x: bv32)
    ensures Or(w, x) == 0 ==> w == 0 && x == 0
    ensures Or(w, x) != 0 ==> Half(Or(w, x)) < Or(w, x)
  {}

  lemma OrHalf(w: bv32, x: bv32)
    ensures Half(Or(w, x)) == Or(Half(w), Half(x))
  {}

  lemma OrBit(w: bv32, x: bv32)
    requires And(w, x) == 0
    ensures Bit(Or(w, x)) == Bit(w) + Bit(x) && And(Half(w), Half(x)) == 0
  {}

  /** Words without a common bit add up when they are joined. */
  lemma {:induction false} OrAdds(w: bv32, x: bv32)
    requires And(w, x) == 0
    ensures Val(Or(w, x)) == Val(w) + Val(x)
    decreases Or(w, x)
  {
    hide Val, Bit, Half, And, Or;
    OrNothing(w, x);
    OrHalf(w, x);
    OrBit(w, x);
    if Or(w, x) != 0 {
      OrAdds(Half(w), Half(x));
      ValHalf(w);
      ValHalf(x);
      ValHalf(Or(w, x));
    }
  }

  // ----- masking -----

  /** A row of ones at the low end. */
  predicate Ones(m: bv32) {
    m & (m + 1) == 0
  }

  lemma AndHalf(w: bv32, m: bv32)
    ensures Half(And(w, m)) == And(Half(w), Half(m))
  {}

  lemma OnesHalf(m: bv32)
    requires Ones(m)
    ensures Ones(Half(m)) && (m != 0 ==> Half(m) < m && Bit(m) == 1)
  {}

  lemma AndBit(w: bv32, m: bv32)
    ensures m == 0 ==> And(w, m) == 0
    ensures Bit(m) == 1 ==> Bit(And(w, m)) == Bit(w)
  {}

  /** Masking with a row of ones takes the remainder. */
  lemma {:induction false} AndRemains(w: bv32, m: bv32)
    requires Ones(m)
    ensures Val(And(w, m)) == Val(w) % (Val(m) + 1)
    decreases m
  {
    hide Val, Bit, Half, And, Ones;
    AndHalf(w, m);
    OnesHalf(m);
    AndBit(w, m);
    if m != 0 {
      AndRemains(Half(w), Half(m));
      ValHalf(w);
      ValHalf(m);
      ValHalf(And(w, m));
      RemainderDoubled(Val(Half(w)), Bit(w), Val(Half(m)) + 1);
    }
  }

  lemma RemainderDoubled(a: nat, b: nat, m: nat)
    requires m > 0 && b <= 1
    ensures (2 * a + b) % (2 * m) == 2 * (a % m) + b
  {
    var q, r := a / m, a % m;
    assert a == m * q + r;
    assert 2 * a + b == (2 * m) * q + (2 * r + b);
    RemainderIs(2 * a + b, 2 * m, q, 2 * r + b);
  }

  lemma RemainderIs(n: int, m: int, q: int, r: int)
    requires m > 0 && n == m * q + r && 0 <= r < m
    ensures n % m == r
  {
    var d := n / m - q;
    assert m * d == m * (n / m) - m * q;
    MultipleSmall(m, d);
  }

  lemma MultipleSmall(m: int, d: int)
    requires m > 0 && -m < m * d < m
    ensures d == 0
  {
    assert d >= 1 ==> m * d >= m;
    assert d <= -1 ==> m * d <= -m;
  }

  // ----- shifting -----

  function Half3(w: bv32): bv32 {
    Half(Half(Half(w)))
  }

  lemma Val3(w: bv32)
    ensures Val(Half3(w)) == Val(w) / 8
  {
    hide Val, Half, Bit;
    ValHalf(w);
    ValHalf(Half(w));
    ValHalf(Half(Half(w)));
  }

  lemma ShiftByThree(w: bv32)
    ensures Half3(w) == w >> 3
  {
    assert w >> 1 >> 1 >> 1 == w >> 3;
  }

  lemma ShiftByFive(w: bv32)
    ensures Half(w >> 3) == w >> 4 && Half(w >> 4) == w >> 5
  {}

  lemma ShiftBySix(w: bv32)
    ensures w >> 3 >> 3 == w >> 6
  {}

  lemma ShiftByTen(w: bv32)
    ensures w >> 6 >> 3 == w >> 9 && Half(w >> 9) == w >> 10
  {}

  /** Shifting to the right divides. */
  lemma ShiftThreeDivides(w: bv32)
    ensures Val(w >> 3) == Val(w) / 8
  {
    hide Val, Half, Half3;
    Val3(w);
    ShiftByThree(w);
  }

  lemma ShiftFiveDivides(w: bv32)
    ensures Val(w >> 4) == Val(w) / 16 && Val(w >> 5) == Val(w) / 32
  {
    hide Val, Half, Bit;
    ShiftThreeDivides(w);
    ShiftByFive(w);
    ValHalf(w >> 3);
    ValHalf(w >> 4);
  }

  lemma ShiftSixDivides(w: bv32)
    ensures Val(w >> 6) == Val(w) / 64
  {
    hide Val;
    ShiftThreeDivides(w);
    ShiftThreeDivides(w >> 3);
    ShiftBySix(w);
  }

  lemma ShiftTenDivides(w: bv32)
    ensures Val(w >> 10) == Val(w) / 1024
  {
    hide Val, Half, Bit;
    ShiftSixDivides(w);
    ShiftThreeDivides(w >> 6);
    ShiftByTen(w);
    ValHalf(w >> 9);
  }

  lemma OnesAre()
    ensures Val(0x3F) == 0x3F && Val(0x7F) == 0x7F && Val(0x3FF) == 0x3FF
  {
    hide Val;
    ValHalf(1);
    ValHalf(3);
    ValHalf(7);
    ValHalf(0xF);
    ValHalf(0x1F);
    ValHalf(0x3F);
    ValHalf(0x7F);
    ValHalf(0xFF);
    ValHalf(0x1FF);
    ValHalf(0x3FF);
  }

  /** The marks of the first byte of two, three and four, and of the bytes that follow. */
  lemma MarksAre()
    ensures Val(0xC0) == 0xC0 && Val(0xE0) == 0xE0 && Val(0xF0) == 0xF0 && Val(0x80) == 0x80
  {
    hide Val;
    ValHalf(1);
    ValHalf(2);
    ValHalf(4);
    ValHalf(8);
    ValHalf(0x10);
    OrAdds(0x10, 8);
    OrAdds(0x18, 4);
    OrAdds(0x1C, 2);
    ShiftedMark(0x10, 0x80);
    ShiftedMark(0x18, 0xC0);
    ShiftedMark(0x1C, 0xE0);
    ShiftedMark(0x1E, 0xF0);
  }

  lemma ShiftedMark(w: bv32, m: bv32)
    requires w < 0x20 && m == w << 3
    ensures Val(m) == 8 * Val(w)
  {
    hide Val, Half, Bit;
    MarkBits(w, m);
    ValHalf(m);
    ValHalf(Half(m));
    ValHalf(Half(Half(m)));
  }

  lemma MarkBits(w: bv32, m: bv32)
    requires w < 0x20 && m == w << 3
    ensures Bit(m) == 0 && Bit(Half(m)) == 0 && Bit(Half(Half(m))) == 0 && Half(Half(Half(m))) == w
  {}

  // ----- the words of the conversion -----

  lemma MasksRemain(w: bv32)
    ensures Val(w & 0x3F) == Val(w) % 0x40 && Val(w & 0x7F) == Val(w) % 0x80 && Val(w & 0x3FF) == Val(w) % 0x400
  {
    OnesAre();
    hide Val;
    AndRemains(w, 0x3F);
    AndRemains(w, 0x7F);
    AndRemains(w, 0x3FF);
  }

  /** A byte after the first. */
  function LaterByte(w: bv32): bv32 {
    (w | 0x80) & 0xBF
  }

  lemma LaterBits(w: bv32)
    ensures LaterByte(w) == Or(w & 0x3F, 0x80) && And(w & 0x3F, 0x80) == 0
  {}

  lemma LaterByteIs(w: bv32)
    ensures Val(LaterByte(w)) == 0x80 + Val(w) % 0x40
  {
    hide Val, And, Or, LaterByte;
    LaterBits(w);
    MarksAre();
    MasksRemain(w);
    OrAdds(w & 0x3F, 0x80);
  }

  /** The first of two, three or four bytes. */
  function FirstByte(w: bv32, mark: bv32): bv32 {
    (w | mark) & 0xFF
  }

  lemma FirstBits(w: bv32, mark: bv32)
    requires (mark == 0xC0 && w >> 5 == 0) || (mark == 0xE0 && w >> 4 == 0) || (mark == 0xF0 && w >> 3 == 0)
    ensures FirstByte(w, mark) == Or(w, mark) && And(w, mark) == 0
  {}

  lemma FirstByteIs(w: bv32, mark: bv32)
    requires (mark == 0xC0 && Val(w) < 0x20) || (mark == 0xE0 && Val(w) < 0x10) || (mark == 0xF0 && Val(w) < 8)
    ensures Val(FirstByte(w, mark)) == Val(mark) + Val(w)
  {
    hide Val, And, Or, FirstByte;
    ShiftThreeDivides(w);
    ShiftFiveDivides(w);
    FirstBits(w, mark);
    OrAdds(w, mark);
  }

  lemma PairBits(w: bv32, x: bv32)
    ensures var h := (w & 0x3FF) << 10;
            h >> 10 == w & 0x3FF && And(h, 0x3FF) == 0 && And(h, x & 0x3FF) == 0
  {}

  /** What the two halves of a surrogate pair are combined to. */
  function Pair(high: bv32, low: bv32): bv32 {
    ((high & 0x3FF) << 10) | (low & 0x3FF)
  }

  lemma PairWord(w: bv32, x: bv32)
    ensures Val(Pair(w, x)) == (Val(w) % 0x400) * 0x400 + Val(x) % 0x400
  {
    hide Val, And;
    var h := (w & 0x3FF) << 10;
    PairBits(w, x);
    MasksRemain(w);
    MasksRemain(x);
    OrAdds(h, x & 0x3FF);
    ShiftTenDivides(h);
    AndRemains(h, 0x3FF);
    OnesAre();
  }

  lemma DoubleBits(h: bv32)
    requires h >> 10 >> 10 >> 10 == 0
    ensures Half(h << 1) == h && Bit(h << 1) == 0 && Half((h << 1) | 1) == h && Bit((h << 1) | 1) == 1
  {}

  lemma Doubled(h: bv32)
    requires Val(h) < 0x4000_0000
    ensures Val(h << 1) == 2 * Val(h) && Val((h << 1) | 1) == 2 * Val(h) + 1
  {
    hide Val;
    ShiftTenDivides(h);
    ShiftTenDivides(h >> 10);
    ShiftTenDivides(h >> 10 >> 10);
    DoubleBits(h);
    ValHalf(h << 1);
    ValHalf((h << 1) | 1);
  }

  /** The word of a number. */
  function Word(n: nat): (w: bv32)
    requires n < 0x8000_0000
    ensures Val(w) == n
  {
    if n == 0 then 0
    else
      var h := Word(n / 2);
      Doubled(h);
      if n % 2 == 0 then h << 1 else (h << 1) | 1
  }
}
