/** IEEE 754 doubles as the two 32-bit words the sources take apart. Every finite double is an
    integer number of units of 2^-1074, so all claims about values are claims about integers. */
module Doubles {
  import opened Powers
  import opened Words

  datatype Double = Double(hi: U32, lo: U32)

  /** What the routines return: a double, or a NaN of unspecified payload. */
  datatype Result = Number(value: Double) | NotANumber

  /** The implicit leading bit of a normal significand. */
  const HIDDEN: int := 0x10_0000_0000_0000

  const EXP_MASK: int := 0x7ff0_0000

  /** The body of an infinity; NaN bodies lie above it, finite ones below. */
  const INFINITY: int := 0x7ff0_0000_0000_0000

  function Negative(d: Double): bool {
    d.hi >= SIGN
  }

  /** The high word without the sign bit. */
  function HiBody(d: Double): (h: U32)
    ensures h < SIGN
  {
    if Negative(d) then d.hi - SIGN else d.hi
  }

  /** The word pair without its sign bit, as one 63-bit integer. */
  function Body(d: Double): (b: nat)
    ensures b < SIGN * 0x1_0000_0000
  {
    HiBody(d) * 0x1_0000_0000 + d.lo
  }

  /** The biased exponent: bits 20 to 30 of the high word. */
  function Exponent(d: Double): nat {
    Down(HiBody(d), 20)
  }

  predicate Finite(d: Double) {
    Exponent(d) < 0x7ff
  }

  predicate IsNaN(d: Double) {
    Body(d) > INFINITY
  }

  /** The units of 2^-1074 that a body stands for; a function of the body alone. */
  function BodyValue(b: nat): nat {
    var e := Down(b, 52);
    if e <= 1 then b else Up(HIDDEN + Low(b, 52), e - 1)
  }

  /** |d| in units of 2^-1074. */
  function Magnitude(d: Double): nat {
    BodyValue(Body(d))
  }

  /** d in units of 2^-1074. */
  function Units(d: Double): int {
    var m: int := Magnitude(d); if Negative(d) then -m else m
  }

  /** The same double with the other sign. */
  function Negate(d: Double): (n: Double)
    ensures Negative(n) != Negative(d) && Body(n) == Body(d)
  {
    if d.hi >= SIGN then Double(d.hi - SIGN, d.lo) else Double(d.hi + SIGN, d.lo)
  }

  lemma AssembleBelow(fraction: nat, e: nat)
    requires fraction < HIDDEN
    ensures BodyValue(fraction + 0x10_0000_0000_0000 * (e + 1)) == Up(HIDDEN + fraction, e)
  {
    Pow52();
    UpIsProduct(e + 1, 52);
    SplitUnique(e + 1, fraction, 52);
  }

  /** A significand of 53 bits, or the carry out of one, placed at exponent e + 1. */
  lemma Assemble(significand: nat, e: nat)
    requires HIDDEN <= significand <= 2 * HIDDEN
    ensures BodyValue(significand + 0x10_0000_0000_0000 * e) == Up(significand, e)
  {
    if significand == 2 * HIDDEN {
      AssembleBelow(0, e + 1);
      UpDouble(HIDDEN, e);
    } else {
      AssembleBelow(significand - HIDDEN, e);
    }
  }

  /** Every body from the normal range on is a significand placed at an exponent. */
  lemma Disassemble(b: nat) returns (significand: nat, e: nat)
    requires b >= HIDDEN
    ensures HIDDEN <= significand < 2 * HIDDEN && b == significand + 0x10_0000_0000_0000 * e && e + 1 == Down(b, 52)
  {
    Pow52();
    Split(b, 52);
    UpIsProduct(Down(b, 52), 52);
    significand, e := HIDDEN + Low(b, 52), Down(b, 52) - 1;
  }

  /** Subnormal bodies are their own values. */
  lemma Subnormal(b: nat)
    requires b < HIDDEN
    ensures BodyValue(b) == b
  {
    Pow52();
    DownSmall(b, 52);
  }

  /** Adjacent doubles are one unit in the last place apart. */
  lemma NextBody(b: nat)
    ensures b < HIDDEN ==> BodyValue(b + 1) == BodyValue(b) + 1
    ensures b >= HIDDEN ==> Down(b, 52) >= 1 && BodyValue(b + 1) == BodyValue(b) + Pow2(Down(b, 52) - 1)
  {
    if b >= HIDDEN {
      var s, e := Disassemble(b);
      Assemble(s, e);
      Assemble(s + 1, e);
      UpSum(s, 1, e);
      UpOne(e);
    } else {
      Subnormal(b);
      if b == HIDDEN - 1 {
        Assemble(HIDDEN, 0);
      } else {
        Subnormal(b + 1);
      }
    }
  }

  /** Magnitudes are ordered like bodies. */
  lemma {:induction false} BodyOrder(a: nat, b: nat)
    requires a < b
    ensures BodyValue(a) < BodyValue(b)
    decreases b
  {
    hide BodyValue;
    NextBody(b - 1);
    if a < b - 1 {
      BodyOrder(a, b - 1);
    }
  }

  /** Sign and magnitude determine both words. */
  lemma SameDouble(c: Double, d: Double)
    requires Negative(c) == Negative(d) && Magnitude(c) == Magnitude(d)
    ensures c == d
  {
    if Body(c) < Body(d) {
      BodyOrder(Body(c), Body(d));
    } else if Body(d) < Body(c) {
      BodyOrder(Body(d), Body(c));
    }
  }

  /** Nothing lies strictly between a body and its neighbours. */
  lemma Neighbours(b: nat, y: Double)
    ensures Magnitude(y) > BodyValue(b) ==> Magnitude(y) >= BodyValue(b + 1)
    ensures b > 0 && Magnitude(y) < BodyValue(b) ==> Magnitude(y) <= BodyValue(b - 1)
  {
    var c := Body(y);
    if c > b + 1 {
      BodyOrder(b + 1, c);
    }
    if c < b {
      BodyOrder(c, b);
    }
    if c < b - 1 {
      BodyOrder(c, b - 1);
    }
    if c > b {
      BodyOrder(b, c);
    }
  }

  lemma BodySplit(d: Double)
    ensures Down(Body(d), 52) == Exponent(d) && Body(d) == Up(HiBody(d), 32) + d.lo
  {
    UpWord(HiBody(d));
    Pow32();
    SplitUnique(HiBody(d), d.lo, 32);
    DownDown(Body(d), 32, 20);
  }

  /** Exponent and fraction, as the high word and the low word hold them. */
  lemma Fields(d: Double)
    ensures HiBody(d) == Exponent(d) * 0x10_0000 + Low(HiBody(d), 20) && Low(HiBody(d), 20) < 0x10_0000
    ensures var fraction := Low(HiBody(d), 20) * 0x1_0000_0000 + d.lo;
            if Exponent(d) == 0 then Magnitude(d) == fraction == Body(d)
            else Magnitude(d) == Up(HIDDEN + fraction, Exponent(d) - 1)
  {
    hide Pow2;
    Pow20();
    Pow52();
    var e, l := Exponent(d), Low(HiBody(d), 20);
    Split(HiBody(d), 20);
    UpIsProduct(e, 20);
    BodySplit(d);
    UpIsProduct(e, 52);
    SplitUnique(e, l * 0x1_0000_0000 + d.lo, 52);
    if e == 1 {
      assert Up(Body(d), 0) == Body(d);
    }
  }

  /** The exponent is the 11-bit field above bit 20, whatever the sign. */
  lemma HighField(d: Double)
    ensures Low(Down(d.hi, 20), 11) == Exponent(d) < 0x800
  {
    Pow20();
    Pow32();
    var h := HiBody(d);
    hide Up, Down, Low, Pow2;
    DownBound(h, 11, 20);
    if Negative(d) {
      Split(h, 20);
      UpOne(31);
      UpUp(1, 11, 20);
      UpOne(11);
      UpSum(0x800, Exponent(d), 20);
      SplitUnique(0x800 + Exponent(d), Low(h, 20), 20);
      SplitUnique(1, Exponent(d), 11);
    } else {
      DownSmall(Exponent(d), 11);
    }
  }

  /** The exponent tests of the sources. */
  lemma ExponentTests(d: Double)
    ensures And(d.hi, EXP_MASK) == EXP_MASK <==> !Finite(d)
    ensures And(d.hi, 0x7fff_ffff) == HiBody(d)
    ensures And(d.hi, SIGN) == (if Negative(d) then SIGN else 0)
  {
    Pow20();
    Pow32();
    AndLow(d.hi, 31);
    AndSign(d.hi);
    UpOnes(11, 20);
    AndField(d.hi, 11, 20);
    HighField(d);
    UpMonotone(Exponent(d), 0x7ff, 20);
    UpMonotone(0x7ff, Exponent(d), 20);
  }

  lemma FiniteBody(d: Double)
    ensures Finite(d) <==> Body(d) < INFINITY
  {
    Fields(d);
  }

  lemma ZeroMagnitude(d: Double)
    ensures Magnitude(d) == 0 <==> Body(d) == 0
  {
    hide BodyValue;
    Subnormal(0);
    if Body(d) > 0 {
      BodyOrder(0, Body(d));
    }
  }

  /** Zero tests and the order of NaN, infinity and finite bodies. */
  lemma ClassTests(d: Double)
    ensures !(Finite(d) && IsNaN(d))
    ensures Magnitude(d) == 0 <==> Body(d) == 0
    ensures And(d.hi, Not(SIGN)) == HiBody(d)
    ensures Or(HiBody(d), d.lo) == 0 <==> Body(d) == 0
  {
    hide And, Or, Magnitude, Finite;
    FiniteBody(d);
    ExponentTests(d);
    OrIsZero(HiBody(d), d.lo);
    ZeroMagnitude(d);
  }
}
