/** The bit trick of `snapUpSize`, and that it computes the least power of two above its argument. */
module SnapUp {
  import opened BStrings

  /** The smearing of the highest bit into all lower ones. */
  function Smeared(i: bv32): bv32 {
    var a := i | (i >> 1);
    var b := a | (a >> 2);
    var c := b | (b >> 4);
    var d := c | (c >> 8);
    d | (d >> 16)
  }

  /** `snapUpSize` on 32-bit integers; a result that would be negative leaves the argument as it is. */
  function SnapUpBits(i: bv32): bv32 {
    if i < 8 then 8
    else
      var j := Smeared(i) + 1;
      if j >= i && j < 0x8000_0000 then j else i
  }

  /** The number that a bit pattern stands for. */
  function Value(r: bv32): nat
    decreases r
  {
    if r == 0 then 0 else (if r & 1 == 1 then 1 else 0) + 2 * Value(r >> 1)
  }

  /** A pattern with a single bit. */
  predicate Single(r: bv32) { r & (r - 1) == 0 && 0 < r }

  /** Every bit of `a` is in `m`. */
  predicate Within(a: bv32, m: bv32) { a & m == a }

  function Half(a: bv32): bv32 { a >> 1 }

  function Or(a: bv32, b: bv32): bv32 { a | b }

  predicate Apart(a: bv32, b: bv32) { a & b == 0 }

  /** Patterns without a common bit add up. */
  lemma {:induction false} Disjoint(a: bv32, b: bv32)
    requires Apart(a, b)
    ensures Value(Or(a, b)) == Value(a) + Value(b)
    decreases Or(a, b)
  {
    hide Value, Low, Half, Or, Apart;
    Unfold(a);
    Unfold(b);
    Unfold(Or(a, b));
    if Or(a, b) != 0 {
      OrHalves(a, b);
      ApartHalves(a, b);
      HalfLess(Or(a, b));
      LowBits(a, b);
      Disjoint(Half(a), Half(b));
    } else {
      NoBits(a, b);
      NoValue();
    }
  }

  lemma NoValue()
    ensures Value(0) == 0
  {
  }

  lemma Unfold(a: bv32)
    ensures Value(a) == Low(a) + 2 * Value(Half(a))
  {
    if a == 0 { assert a >> 1 == 0 && a & 1 == 0; }
  }

  function Low(a: bv32): (b: nat)
    ensures b <= 1
  {
    if a & 1 == 1 then 1 else 0
  }

  lemma NoBits(a: bv32, b: bv32)
    requires Or(a, b) == 0
    ensures a == 0 && b == 0
  {
  }

  lemma OrHalves(a: bv32, b: bv32)
    ensures Half(Or(a, b)) == Or(Half(a), Half(b))
  {
  }

  lemma ApartHalves(a: bv32, b: bv32)
    requires Apart(a, b)
    ensures Apart(Half(a), Half(b))
  {
    assert (a >> 1) & (b >> 1) == (a & b) >> 1;
  }

  lemma HalfLess(x: bv32)
    requires x != 0
    ensures Half(x) < x
  {
  }

  lemma LowBits(a: bv32, b: bv32)
    requires Apart(a, b)
    ensures Low(Or(a, b)) == Low(a) + Low(b)
  {
  }

  /** Fewer bits, smaller value. */
  lemma Below(a: bv32, m: bv32)
    requires Within(a, m)
    ensures Value(a) <= Value(m)
  {
    var rest := m & !a;
    Completes(a, m, rest);
    hide Value, Or, Apart;
    Disjoint(a, rest);
  }

  lemma Completes(a: bv32, m: bv32, rest: bv32)
    requires Within(a, m) && rest == m & !a
    ensures Apart(a, rest) && Or(a, rest) == m
  {
  }

  lemma {:induction false} Positive(r: bv32)
    requires r != 0
    ensures 0 < Value(r)
    decreases r
  {
    if r & 1 != 1 {
      assert 0 < r >> 1 < r;
      Positive(r >> 1);
    }
  }

  /** All ones below a single bit are one less than it. */
  lemma {:induction false} AllOnes(r: bv32)
    requires Single(r)
    ensures Value(r - 1) + 1 == Value(r)
    decreases r
  {
    if r > 1 {
      HalfBits(r);
      assert (r - 1) >> 1 == (r >> 1) - 1 && (r - 1) & 1 == 1;
      AllOnes(r >> 1);
    } else {
      assert r == 1 && r >> 1 == 0;
    }
  }

  /** A pattern with one bit is a power of two. */
  lemma {:induction false} OneBit(r: bv32)
    requires Single(r)
    ensures PowerOfTwo(Value(r))
    decreases r
  {
    if r > 1 {
      HalfBits(r);
      OneBit(r >> 1);
    } else {
      assert r == 1 && r >> 1 == 0;
    }
  }

  lemma HalfBits(r: bv32)
    requires Single(r) && 1 < r
    ensures r & 1 == 0 && Single(r >> 1) && r >> 1 < r
  {
  }

  /** One more than the smeared pattern has one bit. */
  lemma SmearedBits(i: bv32)
    requires 8 <= i < 0x4000_0000
    ensures Single(Smeared(i) + 1) && i < Smeared(i) + 1 < 0x8000_0000
  {
  }

  /** The pattern has every bit of the argument. */
  lemma SmearedCovers(i: bv32)
    ensures Within(i, Smeared(i))
  {
  }

  /** The argument has the highest bit of the pattern. */
  lemma SmearedTop(i: bv32)
    requires i < 0x4000_0000
    ensures Within((Smeared(i) + 1) >> 1, i)
  {
  }

  lemma {:induction false} PowersApart(a: nat, b: nat)
    requires PowerOfTwo(a) && PowerOfTwo(b) && a < b
    ensures 2 * a <= b
  {
    if a > 1 { PowersApart(a / 2, b / 2); }
  }

  /** The three lowest bits are worth at most seven, and any other at least eight. */
  lemma Eight(i: bv32)
    ensures i < 8 <==> Value(i) < 8
  {
    hide Value, Low;
    var a := Half(i);
    var b := Half(a);
    var c := Half(b);
    Unfold(i);
    Unfold(a);
    Unfold(b);
    ThreeBits(i, a, b, c);
    if c == 0 {
      NoValue();
    } else {
      Positive(c);
    }
  }

  lemma ThreeBits(i: bv32, a: bv32, b: bv32, c: bv32)
    requires a == Half(i) && b == Half(a) && c == Half(b)
    ensures c == 0 <==> i < 8
  {
  }

  /** Only one power of two lies above a number by at most its double. */
  lemma OnlyPower(n: nat, x: nat, y: nat)
    requires PowerOfTwo(x) && PowerOfTwo(y) && x / 2 <= n < x && y / 2 <= n < y
    ensures x == y
  {
    if x < y { PowersApart(x, y); }
    if y < x { PowersApart(y, x); }
  }

  /** The trick computes the model's size for every request below 2^30. */
  lemma SnapUpIs(i: bv32)
    requires i < 0x4000_0000
    ensures Value(SnapUpBits(i)) == SnapUpSize(Value(i))
  {
    hide Value, Half, Smeared, SnapUpBits, Single, Within;
    Eight(i);
    if i < 8 {
      ValueOfEight();
      SmallSize(i, Value(i));
    } else {
      var m := Smeared(i);
      SnapUpTakes(i, m);
      Above(i, m, m + 1);
    }
  }

  lemma SmallSize(i: bv32, n: nat)
    requires i < 8 && n < 8
    ensures SnapUpBits(i) == 8 && SnapUpSize(n) == 8
  {
  }

  lemma SnapUpTakes(i: bv32, m: bv32)
    requires 8 <= i < 0x4000_0000 && m == Smeared(i)
    ensures SnapUpBits(i) == m + 1 && Single(m + 1) && Within(i, m) && Within(Half(m + 1), i) && m == m + 1 - 1
  {
    OneLess(m);
    hide Single, Within, Smeared;
    SmearedBits(i);
    SmearedCovers(i);
    SmearedTop(i);
  }

  /** A single bit just above all bits of the argument, whose highest is the one below. */
  lemma Above(i: bv32, m: bv32, r: bv32)
    requires m == r - 1 && Single(r) && Within(i, m) && Within(Half(r), i) && 8 <= Value(i)
    ensures Value(r) == SnapUpSize(Value(i))
  {
    hide Value, Low, Half, Single, Within;
    OneBit(r);
    AllOnes(r);
    Below(i, m);
    Below(Half(r), i);
    Unfold(r);
    OnlyPower(Value(i), Value(r), SnapUpSize(Value(i)));
  }

  lemma OneLess(a: bv32)
    ensures a + 1 - 1 == a
  {
  }

  lemma ValueOfEight()
    ensures Value(8) == 8
  {
    assert Value(1) == 1 && Value(2) == 2 && Value(4) == 4;
  }

  /** From there on the next power of two is no positive integer, and the request stays as it is. */
  lemma SnapUpStops(i: bv32)
    requires 0x4000_0000 <= i < 0x8000_0000
    ensures SnapUpBits(i) == i
  {
  }
}
