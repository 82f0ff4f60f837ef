/** Rounding to integral values: floor, ceil and modf of src/MSL/s_floor.c, s_ceil.c and s_modf.c,
    against sections 7.12.9.2, 7.12.9.1 and 7.12.6.12 of C99. */
module Floors {
  import opened Powers
  import opened Words
  import opened Doubles

  /** The integer 1, in units of 2^-1074. */
  function One(): nat {
    Pow2(1074)
  }

  /** n is the greatest integral value not above v. */
  predicate IsFloor(n: int, v: int) {
    n % One() == 0 && n <= v < n + One()
  }

  /** n is the least integral value not below v. */
  predicate IsCeil(n: int, v: int) {
    n % One() == 0 && n - One() < v <= n
  }

  /** Magnitudes cut to an integral value, and raised to the next one. */
  function Cut(v: nat): nat {
    v - Low(v, 1074)
  }

  function Raise(v: nat): nat {
    if Low(v, 1074) == 0 then v else Cut(v) + One()
  }

  // ---------- values ----------

  lemma CutMultiple(v: nat)
    ensures Cut(v) % One() == 0 && Cut(v) <= v < Cut(v) + One()
    ensures Raise(v) % One() == 0 && v <= Raise(v) < v + One()
  {
    hide Pow2;
    Split(v, 1074);
    UpIsProduct(Down(v, 1074), 1074);
    DivUnique(Cut(v), One(), Down(v, 1074), 0);
    Distribute(Down(v, 1074), 1, One());
    DivUnique(Cut(v) + One(), One(), Down(v, 1074) + 1, 0);
  }

  lemma NegativeMod(a: int, m: nat, q: int)
    requires m > 0 && a == q * m
    ensures a % m == 0
  {
    var d, r := a / m, a % m;
    assert a == d * m + r;
    Distribute(q - d, d, m);
    MulLess(0, q - d, m);
    MulLess(q - d, 1, m);
  }

  /** Multiples of the unit in a window of one unit are unique. */
  lemma MultipleUnique(a: int, b: int, m: nat)
    requires m > 0 && a % m == 0 && b % m == 0 && a - b < m && b - a < m
    ensures a == b
  {
    var p, q := a / m, b / m;
    assert a == p * m && b == q * m;
    MulLess(p, q, m);
    MulLess(q, p, m);
  }

  lemma NegatedMultiple(n: int, m: nat)
    requires m > 0 && n % m == 0
    ensures (-n) % m == 0
  {
    var q := n / m;
    assert n == q * m;
    Distribute(q, -q, m);
    NegativeMod(-n, m, -q);
  }

  /** The sign of x is kept: a positive number is cut and a negative one raised by floor, and the
      other way round by ceil. */
  lemma SignedRounding(x: Double, r: Double)
    requires Negative(r) == Negative(x)
    ensures Magnitude(r) == (if Negative(x) then Raise(Magnitude(x)) else Cut(Magnitude(x)))
            ==> IsFloor(Units(r), Units(x))
    ensures Magnitude(r) == (if Negative(x) then Cut(Magnitude(x)) else Raise(Magnitude(x)))
            ==> IsCeil(Units(r), Units(x))
  {
    hide Magnitude, Negative, Cut, Raise;
    CutMultiple(Magnitude(x));
    NegatedMultiple(Cut(Magnitude(x)), One());
    NegatedMultiple(Raise(Magnitude(x)), One());
  }

  /** floor(-x) is -ceil(x), down to the bits and the sign of zero. */
  lemma FloorCeilDual(x: Double, floor: Double, ceil: Double)
    requires Negative(floor) == Negative(Negate(x)) && IsFloor(Units(floor), Units(Negate(x)))
    requires Negative(ceil) == Negative(x) && IsCeil(Units(ceil), Units(x))
    ensures floor == Negate(ceil)
  {
    var one, f, c := One(), Units(floor), Units(ceil);
    assert Units(Negate(x)) == -Units(x);
    hide One;
    NegatedMultiple(c, one);
    MultipleUnique(f, -c, one);
    SameDouble(floor, Negate(ceil));
  }

  // ---------- bodies ----------

  /** |x| < 1: nothing integral remains, and the next integral magnitude is 1. */
  lemma FractionOnly(x: Double)
    requires Exponent(x) < 1023
    ensures Cut(Magnitude(x)) == 0 && Raise(Magnitude(x)) == (if Body(x) == 0 then 0 else One())
    ensures BodyValue(0x3ff0_0000_0000_0000) == One()
  {
    hide Up, Down, Low, Pow2, BodyValue;
    Fields(x);
    Assemble(HIDDEN, 1022);
    Pow52();
    UpOne(52);
    UpUp(1, 52, 1022);
    UpOne(1074);
    BodyOrder(Body(x), 0x3ff0_0000_0000_0000);
    DownSmall(Magnitude(x), 1074);
    Subnormal(0);
    if Body(x) > 0 {
      BodyOrder(0, Body(x));
    }
  }

  /** |x| >= 2^52: x is integral. */
  lemma NoFraction(x: Double)
    requires Exponent(x) > 1074
    ensures Cut(Magnitude(x)) == Magnitude(x) == Raise(Magnitude(x))
  {
    hide Up, Down, Low, Pow2, BodyValue;
    Fields(x);
    var s := HIDDEN + (Low(HiBody(x), 20) * 0x1_0000_0000 + x.lo);
    UpUp(s, Exponent(x) - 1075, 1074);
    SplitUnique(Up(s, Exponent(x) - 1075), 0, 1074);
  }

  lemma FractionRange(s: nat, k: nat, d: nat, l: nat)
    requires HIDDEN <= s < 2 * HIDDEN && k <= 52 && s == Up(d, k) + l && l < Pow2(k)
    ensures HIDDEN <= s - l && s - l + Pow2(k) <= 2 * HIDDEN
  {
    Pow52();
    UpOne(52 - k);
    UpUp(1, 52 - k, k);
    UpOne(52);
    UpMonotone(d, Pow2(52 - k), k);
    UpDouble(Pow2(52 - k), k);
    UpMonotone(d, 2 * Pow2(52 - k), k);
    UpMonotone(2 * Pow2(52 - k), d, k);
    UpDouble(Pow2(52 - k), k);
  }

  /** A significand with k fraction bits: its integral part and the next, in whole units. */
  lemma FractionBits(s: nat, k: nat, d: nat, l: nat)
    requires HIDDEN <= s < 2 * HIDDEN && k <= 52 && d == Down(s, k) && l == Low(s, k)
    ensures HIDDEN <= s - l && s - l + Pow2(k) <= 2 * HIDDEN
    ensures Up(s - l, 1074 - k) == Up(d, 1074) && Up(s - l + Pow2(k), 1074 - k) == Up(d, 1074) + One()
    ensures Down(Up(s, 1074 - k), 1074) == d && Low(Up(s, 1074 - k), 1074) == Up(l, 1074 - k)
  {
    hide Up, Down, Low, Pow2, BodyValue;
    Split(s, k);
    UpUp(d, k, 1074 - k);
    UpSum(Up(d, k), l, 1074 - k);
    UpBound(l, k, 1074 - k);
    SplitUnique(d, Up(l, 1074 - k), 1074);
    FractionRange(s, k, d, l);
    UpSum(s - l, Pow2(k), 1074 - k);
    UpOne(k);
    UpUp(1, k, 1074 - k);
    UpOne(1074);
  }

  /** The low k bits of a body are the fraction bits of its significand. */
  lemma LowOfBody(s: nat, e: nat, k: nat)
    requires k <= 52
    ensures Low(s + 0x10_0000_0000_0000 * e, k) == Low(s, k)
  {
    hide Up, Down, Low, Pow2, BodyValue;
    Pow52();
    UpIsProduct(e, 52);
    UpUp(e, 52 - k, k);
    Split(s, k);
    UpSum(Down(s, k), Up(e, 52 - k), k);
    SplitUnique(Down(s, k) + Up(e, 52 - k), Low(s, k), k);
  }

  lemma SignificandOf(x: Double) returns (s: nat, e: nat)
    requires Exponent(x) > 0
    ensures HIDDEN <= s < 2 * HIDDEN && e + 1 == Exponent(x)
    ensures Body(x) == s + 0x10_0000_0000_0000 * e && Magnitude(x) == Up(s, e)
  {
    hide Up, Down, Low;
    Fields(x);
    s, e := HIDDEN + (Low(HiBody(x), 20) * 0x1_0000_0000 + x.lo), Exponent(x) - 1;
  }

  /** Clearing the fraction bits of a body cuts its value; adding their weight as well raises it,
      with every carry, even into the exponent. */
  lemma BodyFraction(x: Double, k: nat)
    requires Exponent(x) + k == 1075 && 1 <= k <= 52
    ensures var b, l := Body(x), Low(Body(x), k);
            && l <= b && BodyValue(b - l) == Cut(Magnitude(x))
            && BodyValue(b - l + Pow2(k)) == Cut(Magnitude(x)) + One()
            && b - l + Pow2(k) < INFINITY
            && (l == 0 <==> Low(Magnitude(x), 1074) == 0)
  {
    hide Up, Down, Low, Pow2, BodyValue;
    var s, e := SignificandOf(x);
    var l := Low(s, k);
    LowOfBody(s, e, k);
    FractionBits(s, k, Down(s, k), l);
    Assemble(s - l, e);
    Assemble(s - l + Pow2(k), e);
    UpMonotone(0, l, 1074 - k);
    UpZero(1074 - k);
    Split(Magnitude(x), 1074);
  }

  // ---------- words ----------

  lemma {:induction false} DownOnes(n: nat, k: nat)
    requires k <= n
    ensures Down(Pow2(n) - 1, k) == Pow2(n - k) - 1 && Down(Pow2(n), k) == Pow2(n - k)
    decreases k
  {
    if k == 0 {
    } else {
      DownOnes(n - 1, k - 1);
    }
  }

  lemma LowWord(r: nat, l: U32, t: nat)
    requires r < Pow2(t)
    ensures r * 0x1_0000_0000 + l < Pow2(t + 32)
  {
    Pow32();
    Add(t, 32);
  }

  lemma LowOfWide(h: nat, l: U32, t: nat)
    ensures Low(Wide(h, l), t + 32) == Low(h, t) * 0x1_0000_0000 + l
    ensures t <= 32 ==> Low(Wide(h, l), t) == Low(l, t)
  {
    hide Up, Down, Low, Pow2;
    Split(h, t);
    UpWord(h);
    UpWord(Low(h, t));
    UpWord(Up(Down(h, t), t));
    UpUp(Down(h, t), t, 32);
    LowWord(Low(h, t), l, t);
    SplitUnique(Down(h, t), Low(h, t) * 0x1_0000_0000 + l, t + 32);
    if t <= 32 {
      UpUp(h, 32 - t, t);
      Split(l, t);
      UpSum(Up(h, 32 - t), Down(l, t), t);
      SplitUnique(Up(h, 32 - t) + Down(l, t), Low(l, t), t);
    }
  }

  /** The sign bit is far above the fraction bits of the high word. */
  lemma LowOfHigh(x: Double, t: nat)
    requires t <= 20
    ensures Low(x.hi, t) == Low(HiBody(x), t) <= HiBody(x)
  {
    if Negative(x) {
      Pow32();
      hide Up, Down, Low, Pow2;
      UpOne(31);
      UpUp(1, 31 - t, t);
      Split(HiBody(x), t);
      UpSum(Down(HiBody(x), t), Up(1, 31 - t), t);
      SplitUnique(Down(HiBody(x), t) + Up(1, 31 - t), Low(HiBody(x), t), t);
    }
  }

  /** The masks of lines 51-55: t fraction bits in the high word, and the whole low word. */
  lemma HighMasks(x: Double, j0: nat, t: nat)
    requires j0 + t == 20
    ensures var i := Shr(0x000f_ffff, j0);
            && i == Pow2(t) - 1 && Shr(0x0010_0000, j0) == Pow2(t) <= 0x10_0000
            && (Or(And(x.hi, i), x.lo) == 0 <==> Low(Body(x), t + 32) == 0)
            && Low(Body(x), t + 32) == Low(x.hi, t) * 0x1_0000_0000 + x.lo
            && Low(x.hi, t) <= HiBody(x)
  {
    hide Pow2, Low, And;
    Pow20();
    Monotone(t, 20);
    hide Up, Down, Low, Pow2, And, Or;
    DownOnes(20, j0);
    AndLow(x.hi, t);
    OrIsZero(Low(x.hi, t), x.lo);
    LowOfWide(HiBody(x), x.lo, t);
    LowOfHigh(x, t);
  }

  lemma LowPlus(a: nat, t: nat)
    ensures Low(a + Pow2(t), t) == Low(a, t)
  {
    hide Up, Down, Low, Pow2;
    Split(a, t);
    UpOne(t);
    UpSum(Down(a, t), 1, t);
    SplitUnique(Down(a, t) + 1, Low(a, t), t);
  }

  /** Clearing the fraction bits of the high word, before and after their weight is added. */
  lemma HighCleared(h: U32, t: nat)
    requires t <= 20 && h + Pow2(t) < WORD
    ensures And(h, Not(Pow2(t) - 1)) == h - Low(h, t)
    ensures And(h + Pow2(t), Not(Pow2(t) - 1)) == h + Pow2(t) - Low(h, t)
  {
    hide Up, Down, And;
    AndNotLow(h, t);
    AndNotLow(h + Pow2(t), t);
    LowPlus(h, t);
  }

  lemma StrictlyBelow(k: nat)
    requires k < 32
    ensures Pow2(k) < Pow2(32)
  {
    Monotone(k + 1, 32);
  }

  /** The masks of lines 62-73: k fraction bits, all in the low word. */
  lemma LowMasks(x: Double, j0: nat, k: nat)
    requires 20 <= j0 && j0 + k == 52 && k >= 1
    ensures var i := Shr(0xffff_ffff, j0 - 20);
            && i == Pow2(k) - 1 && (k < 32 ==> Shl(1, k) == Pow2(k) < WORD) && (k == 32 ==> Pow2(k) == WORD)
            && And(x.lo, i) == Low(x.lo, k) == Low(Body(x), k) <= x.lo
            && And(x.lo, Not(i)) == x.lo - Low(x.lo, k)
  {
    Pow32();
    hide Up, Down, Low, Pow2, And;
    DownOnes(32, j0 - 20);
    AndLow(x.lo, k);
    AndNotLow(x.lo, k);
    LowOfWide(HiBody(x), x.lo, k);
    UpOne(k);
    if k < 32 {
      StrictlyBelow(k);
      DownSmall(Pow2(k), 32);
    }
  }

  lemma WordMultiple(a: nat, k: nat)
    requires k <= 32
    ensures Low(a + 0x1_0000_0000, k) == Low(a, k)
  {
    Pow32();
    hide Up, Down, Low, Pow2;
    UpOne(32);
    UpUp(1, 32 - k, k);
    Split(a, k);
    UpSum(Down(a, k), Up(1, 32 - k), k);
    SplitUnique(Down(a, k) + Up(1, 32 - k), Low(a, k), k);
  }

  /** Adding 2^k to the low word, with the carry test of line 69, and clearing the fraction bits. */
  lemma LowRaised(l: U32, k: nat)
    requires k < 32 && Pow2(k) < WORD
    ensures var j := Unsigned(l + Pow2(k));
            && And(j, Not(Pow2(k) - 1)) == j - Low(l, k)
            && (j < l <==> l + Pow2(k) >= WORD)
            && j == (if l + Pow2(k) >= WORD then l + Pow2(k) - WORD else l + Pow2(k))
  {
    var j := Unsigned(l + Pow2(k));
    hide Up, Down, Low, Pow2, And;
    AndNotLow(j, k);
    LowPlus(l, k);
    if l + Pow2(k) >= WORD {
      WordMultiple(j, k);
    }
  }

  // ---------- the routines ----------

  /** r is x rounded to an integral magnitude, up or down, with the sign kept. */
  ghost predicate RoundedTo(x: Double, r: Double, raise: bool) {
    && Negative(r) == Negative(x)
    && Finite(r)
    && Magnitude(r) == (if raise then Raise(Magnitude(x)) else Cut(Magnitude(x)))
  }

  /** The body arithmetic behind both word forms. */
  lemma RoundedBody(x: Double, r: Double, k: nat, raise: bool)
    requires Exponent(x) + k == 1075 && 1 <= k <= 52 && Negative(r) == Negative(x)
    requires var l := Low(Body(x), k);
             Body(r) == (if l == 0 then Body(x) else if raise then Body(x) - l + Pow2(k) else Body(x) - l)
    ensures RoundedTo(x, r, raise) && (Low(Body(x), k) == 0 ==> RoundedTo(x, x, raise))
  {
    hide Up, Down, Low, Pow2, BodyValue;
    BodyFraction(x, k);
    FiniteBody(r);
    FiniteBody(x);
  }

  /** A finite number leaves room above its high word for one more unit. */
  lemma HighRoom(x: Double, t: nat)
    requires Finite(x) && t <= 20
    ensures Pow2(t) <= 0x10_0000 && HiBody(x) + Pow2(t) < SIGN
  {
    Fields(x);
    Pow20();
    Monotone(t, 20);
  }

  lemma HighRounded(x: Double, r: Double, t: nat, raise: bool)
    requires Finite(x) && Exponent(x) + t == 1043 && t <= 20
    requires Low(Body(x), t + 32) == Low(x.hi, t) * 0x1_0000_0000 + x.lo != 0 && Low(x.hi, t) <= HiBody(x)
    requires r.lo == 0 && r.hi == x.hi - Low(x.hi, t) + (if raise then Pow2(t) else 0)
    ensures RoundedTo(x, r, raise)
  {
    hide Pow2, Low;
    HighRoom(x, t);
    assert Pow2(t + 32) == Pow2(t) * 0x1_0000_0000 by {
      Add(t, 32);
      Pow32();
    }
    hide Up, Down, Low, Pow2;
    assert Negative(r) == Negative(x) && HiBody(r) == HiBody(x) - Low(x.hi, t) + (if raise then Pow2(t) else 0);
    hide HiBody, RoundedTo, Finite, Negative;
    RoundedBody(x, r, t + 32, raise);
  }

  /** Lines 50-57: the fraction starts in the high word. floor raises negative numbers, ceil
      positive ones; the two files differ in nothing else. */
  method RoundHigh(x: Double, j0: nat, raise: bool) returns (r: Double)
    requires Exponent(x) == j0 + 1023 && j0 < 20
    ensures RoundedTo(x, r, raise)
  {
    ghost var t := 20 - j0;
    hide Up, Down, Low, Shr, And, Or, Not, RoundedTo;
    var i0: I32, i1: U32 := Signed(x.hi), x.lo;
    var i: U32 := Shr(0x000f_ffff, j0);
    HighMasks(x, j0, t);
    if Or(And(Unsigned(i0), i), i1) == 0 {
      RoundedBody(x, x, t + 32, raise);
      return x;
    }
    HighRoom(x, t);
    HighCleared(x.hi, t);
    if raise {
      i0 := i0 + Shr(0x0010_0000, j0);
    }
    i0 := Signed(And(Unsigned(i0), Not(i)));
    i1 := 0;
    r := Double(Unsigned(i0), i1);
    HighRounded(x, r, t, raise);
  }

  lemma LowRounded(x: Double, r: Double, k: nat, raise: bool)
    requires Exponent(x) + k == 1075 && 1 <= k <= 32 && Pow2(k) <= WORD
    requires Low(Body(x), k) == Low(x.lo, k) != 0 && Low(x.lo, k) <= x.lo
    requires HiBody(x) + 1 < SIGN
    requires Wide(r.hi, r.lo) == Wide(x.hi, x.lo) - Low(x.lo, k) + (if raise then Pow2(k) else 0)
    ensures RoundedTo(x, r, raise)
  {
    hide Up, Down, Low, Pow2, RoundedTo;
    RoundedBody(x, r, k, raise);
  }

  /** Lines 62-74: the fraction lies in the low word. */
  method RoundLow(x: Double, j0: nat, raise: bool) returns (r: Double)
    requires Exponent(x) == j0 + 1023 && 20 <= j0 <= 51
    ensures RoundedTo(x, r, raise)
  {
    ghost var k := 52 - j0;
    hide Up, Down, Low, Shr, Shl, And, RoundedTo;
    var i0: I32, i1: U32, j: U32 := Signed(x.hi), x.lo, 0;
    var i: U32 := Shr(0xffff_ffff, j0 - 20);
    LowMasks(x, j0, k);
    if And(i1, i) == 0 {
      RoundedBody(x, x, k, raise);
      return x;
    }
    HighRoom(x, 0);
    if raise {
      if j0 == 20 {
        i0 := i0 + 1;
      } else {
        LowRaised(x.lo, k);
        j := Unsigned(i1 + Shl(1, 52 - j0));
        if j < i1 {
          i0 := i0 + 1;
        }
        i1 := j;
      }
    }
    i1 := And(i1, Not(i));
    r := Double(Unsigned(i0), i1);
    LowRounded(x, r, k, raise);
  }

  /** Line 42: the unbiased exponent. The shift of the C int only differs above the mask. */
  lemma UnbiasedExponent(x: Double)
    ensures And(Shr(x.hi, 20), 0x7ff) == Exponent(x)
  {
    Pow20();
    AndLow(Shr(x.hi, 20), 11);
    HighField(x);
  }

  /** x + x on an infinity or a NaN. */
  function Twice(x: Double): Result
    requires !Finite(x)
  {
    if IsNaN(x) then NotANumber else Number(x)
  }

  /** The cases of |x| < 1, where the words are written directly. */
  lemma BelowOne(x: Double, r: Double, raise: bool)
    requires Exponent(x) < 1023 && Negative(r) == Negative(x)
    requires Body(r) == (if raise && Body(x) != 0 then 0x3ff0_0000_0000_0000 else 0)
    ensures RoundedTo(x, r, raise)
  {
    hide Up, Down, Low, Pow2, BodyValue;
    FractionOnly(x);
    Subnormal(0);
    FiniteBody(r);
  }

  lemma Integral(x: Double, raise: bool)
    requires Finite(x) && Exponent(x) > 1074
    ensures RoundedTo(x, x, raise)
  {
    NoFraction(x);
  }

  lemma HighIsZero(x: Double)
    ensures x.hi == 0 ==> Exponent(x) == 0
  {
    DownSmall(0, 20);
  }

  method Floor(x: Double) returns (r: Result)
    ensures IsNaN(x) ==> r == NotANumber
    ensures !Finite(x) && !IsNaN(x) ==> r == Number(x)
    ensures Finite(x) ==> r.Number? && Finite(r.value) && Negative(r.value) == Negative(x)
                          && IsFloor(Units(r.value), Units(x))
  {
    hide Low, Magnitude, IsFloor, IsNaN, Shr;
    ClassTests(x);
    UnbiasedExponent(x);
    var y: Double;
    var i0: I32, i1: U32 := Signed(x.hi), x.lo;
    var j0: I32 := And(Shr(x.hi, 20), 0x7ff) - 0x3ff;
    if j0 < 20 {
      if j0 < 0 {
        if i0 >= 0 {
          i0, i1 := 0, 0;
        } else if Or(And(Unsigned(i0), 0x7fff_ffff), i1) != 0 {
          i0, i1 := Signed(0xbff0_0000), 0;
        }
        y := Double(Unsigned(i0), i1);
        BelowOne(x, y, Negative(x));
      } else {
        y := RoundHigh(x, j0, i0 < 0);
      }
    } else if j0 > 51 {
      if j0 == 0x400 {
        return Twice(x);
      }
      Integral(x, Negative(x));
      y := x;
    } else {
      y := RoundLow(x, j0, i0 < 0);
    }
    SignedRounding(x, y);
    r := Number(y);
  }

  method Ceil(x: Double) returns (r: Result)
    ensures IsNaN(x) ==> r == NotANumber
    ensures !Finite(x) && !IsNaN(x) ==> r == Number(x)
    ensures Finite(x) ==> r.Number? && Finite(r.value) && Negative(r.value) == Negative(x)
                          && IsCeil(Units(r.value), Units(x))
  {
    hide Low, Magnitude, IsCeil, IsNaN, Shr;
    ClassTests(x);
    UnbiasedExponent(x);
    OrIsZero(x.hi, x.lo);
    HighIsZero(x);
    var y: Double;
    var i0: I32, i1: U32 := Signed(x.hi), x.lo;
    var j0: I32 := And(Shr(x.hi, 20), 0x7ff) - 0x3ff;
    if j0 < 20 {
      if j0 < 0 {
        if i0 < 0 {
          i0, i1 := Signed(SIGN), 0;
        } else if Or(Unsigned(i0), i1) != 0 {
          i0, i1 := 0x3ff0_0000, 0;
        }
        y := Double(Unsigned(i0), i1);
        BelowOne(x, y, !Negative(x));
      } else {
        y := RoundHigh(x, j0, i0 > 0);
      }
    } else if j0 > 51 {
      if j0 == 0x400 {
        return Twice(x);
      }
      Integral(x, !Negative(x));
      y := x;
    } else {
      y := RoundLow(x, j0, i0 > 0);
    }
    SignedRounding(x, y);
    r := Number(y);
  }

  // ---------- modf ----------

  /** The body of the double with value l * 2^e: leading zeros are traded for exponent. */
  function Renormalized(l: nat, e: nat): nat
    decreases e
  {
    if l >= HIDDEN then l + 0x10_0000_0000_0000 * e
    else if e == 0 then l
    else Renormalized(2 * l, e - 1)
  }

  lemma {:induction false} RenormalizedValue(l: nat, e: nat)
    requires l < 2 * HIDDEN
    ensures BodyValue(Renormalized(l, e)) == Up(l, e)
    ensures Renormalized(l, e) < 0x10_0000_0000_0000 * (e + 2)
    decreases e
  {
    hide BodyValue;
    if l >= HIDDEN {
      Assemble(l, e);
    } else if e == 0 {
      Subnormal(l);
    } else {
      RenormalizedValue(2 * l, e - 1);
      UpDouble(l, e - 1);
    }
  }

  /** The double with a given body and sign. */
  function WithBody(b: nat, negative: bool): (d: Double) {
    var h: U32 := Down(b, 32) % SIGN;
    Pow32();
    Double(if negative then h + SIGN else h, Low(b, 32))
  }

  /** x - n for the integral part n of x. The difference of the two values is a double, so the
      floating-point subtraction of the source returns exactly it. */
  function FractionOf(x: Double): Double
    requires 0 < Exponent(x) <= 1074
  {
    var s := HIDDEN + (Low(HiBody(x), 20) * 0x1_0000_0000 + x.lo);
    var b := Renormalized(Low(s, 1075 - Exponent(x)), Exponent(x) - 1);
    WithBody(b, Negative(x))
  }

  lemma WithBodyBody(b: nat, negative: bool)
    requires b < SIGN * WORD
    ensures Body(WithBody(b, negative)) == b && (Negative(WithBody(b, negative)) <==> negative)
  {
    hide Up, Down, Low, Pow2;
    Pow32();
    Split(b, 32);
    UpWord(Down(b, 32));
    assert Down(b, 32) < 0x8000_0000;
  }

  lemma FractionIsExact(x: Double)
    requires Finite(x) && 1023 <= Exponent(x) <= 1074
    ensures var f := FractionOf(x);
            && Finite(f) && Negative(f) == Negative(x)
            && Magnitude(f) == Magnitude(x) - Cut(Magnitude(x))
  {
    hide Up, Down, Low, Pow2, BodyValue, Renormalized, WithBody;
    Fields(x);
    var s := HIDDEN + (Low(HiBody(x), 20) * 0x1_0000_0000 + x.lo);
    var k, e := 1075 - Exponent(x), Exponent(x) - 1;
    FractionBits(s, k, Down(s, k), Low(s, k));
    Pow52();
    Split(s, k);
    RenormalizedValue(Low(s, k), e);
    WithBodyBody(Renormalized(Low(s, k), e), Negative(x));
    FiniteBody(FractionOf(x));
  }

  lemma SignedZero(x: Double)
    ensures var z := Double(And(x.hi, SIGN), 0);
            Finite(z) && Negative(z) == Negative(x) && Body(z) == 0 && Magnitude(z) == 0
  {
    ExponentTests(x);
    var z := Double(And(x.hi, SIGN), 0);
    assert Body(z) == 0;
    FiniteBody(z);
    Subnormal(0);
  }

  /** `modf`: the integral part and the fraction. The source returns a signed zero fraction for an
      infinity and also for a NaN. */
  method Modf(x: Double) returns (integral: Result, fraction: Double)
    ensures Finite(fraction) && Negative(fraction) == Negative(x)
    ensures !Finite(x) ==> Magnitude(fraction) == 0 && integral == (if IsNaN(x) then NotANumber else Number(x))
    ensures Finite(x) ==> integral.Number? && Negative(integral.value) == Negative(x)
    ensures Finite(x) ==> var n := Magnitude(integral.value);
                          n % One() == 0 && n <= Magnitude(x) < n + One()
    ensures Finite(x) ==> Units(integral.value) + Units(fraction) == Units(x)
  {
    ClassTests(x);
    UnbiasedExponent(x);
    CutMultiple(Magnitude(x));
    var zero := Double(And(x.hi, SIGN), 0);
    SignedZero(x);
    hide Low, IsNaN, Magnitude, FractionOf, BodyValue, Down;
    var n: Double := x;
    var j0: I32 := And(Shr(x.hi, 20), 0x7ff) - 0x3ff;
    if j0 < 0 {
      BelowOne(x, zero, false);
      return Number(zero), x;
    } else if j0 > 51 {
      if j0 == 0x400 {
        return Twice(x), zero;
      }
      Integral(x, false);
      return Number(x), zero;
    } else if j0 < 20 {
      n := RoundHigh(x, j0, false);
    } else {
      n := RoundLow(x, j0, false);
    }
    FractionIsExact(x);
    if n == x {
      return Number(x), zero;
    }
    return Number(n), FractionOf(x);
  }
}
