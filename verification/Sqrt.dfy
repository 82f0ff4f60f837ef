/** The bit-by-bit square root of src/MSL/e_sqrt.c, proved correctly rounded in every rounding
    mode of sections 4.1 and 4.2 of IEEE 754-1985. */
module Sqrt {
  import opened Powers
  import opened Words
  import opened Doubles

  /** The mode in force when the routine runs; 1 - tiny and 1 + tiny reveal it. */
  datatype Rounding = ToNearest | TowardZero | Upward | Downward

  predicate OneMinusTinyIsOne(mode: Rounding) {
    mode == ToNearest || mode == Upward
  }

  predicate OnePlusTinyIsAboveOne(mode: Rounding) {
    mode == Upward
  }

  function Square(x: nat): nat {
    x * x
  }

  /** `d` is the square root of `square` (in squared units) rounded as `mode` says. Nearest means
      that the midpoint between d and any other double is strictly on the far side of the root,
      so a tie never arises. */
  ghost predicate RootRounded(mode: Rounding, d: Double, square: nat) {
    && Finite(d)
    && !Negative(d)
    && var w := Magnitude(d);
       match mode
       case ToNearest =>
         forall y: Double | Finite(y) ::
           && (Magnitude(y) > w ==> Square(w + Magnitude(y)) > 4 * square)
           && (Magnitude(y) < w ==> Square(w + Magnitude(y)) < 4 * square)
       case Upward =>
         && Square(w) >= square
         && forall y: Double | Finite(y) :: Magnitude(y) < w ==> Square(Magnitude(y)) < square
       case _ =>
         && Square(w) <= square
         && forall y: Double | Finite(y) :: Magnitude(y) > w ==> Square(Magnitude(y)) > square
  }

  /** The square, in squared units of 2^-1074, whose root is sought: |x| * 2^1074. */
  function Target(x: Double): nat {
    Up(Magnitude(x), 1074)
  }

  // ---------- one bit of the root ----------

  /** The bit-by-bit method on unbounded integers: root holds the bits found so far, rem what is
      left, and k is the number of bits still to find. */
  function RootBits(root: nat, rem: nat, k: nat): (nat, nat)
    decreases k
  {
    if k == 0 then (root, rem)
    else
      var r := Pow2(k - 1);
      if 2 * root + r <= rem then RootBits(root + r, 2 * (rem - (2 * root + r)), k - 1)
      else RootBits(root, 2 * rem, k - 1)
  }

  /** The bound on the remainder that keeps the machine words from overflowing. */
  predicate Bounded(root: nat, rem: nat, w: nat) {
    rem < 4 * root + 2 * w && root + w <= 4 * HIDDEN
  }

  /** With weights below w still open, root holds the leading bits of the square root of n and rem
      is what is left, scaled by w / 2. */
  ghost predicate Extracting(n: nat, root: nat, rem: nat, w: nat) {
    2 * n == 2 * Square(root) + rem * w && rem < 4 * root + 2 * w
  }

  /** The test bit r is taken exactly when 2 * root + r fits in the remainder. */
  lemma ExtractBit(n: nat, root: nat, rem: nat, r: nat)
    requires Extracting(n, root, rem, 2 * r)
    ensures 2 * root + r <= rem ==> Extracting(n, root + r, 2 * (rem - (2 * root + r)), r)
    ensures 2 * root + r > rem ==> Extracting(n, root, 2 * rem, r)
  {
    var t := 2 * root + r;
    calc {
      Square(root + r);
      { Distribute(root, r, root + r); Distribute(root, r, root); Distribute(root, r, r); }
      Square(root) + r * root + root * r + r * r;
      { Distribute(2 * root, r, r); Associate(2, root, r); }
      Square(root) + t * r;
    }
    Associate(rem, 2, r);
    Distribute(rem - t, rem - t, r);
    Distribute(rem - t, t, r);
  }

  lemma Extracted(n: nat, root: nat, rem: nat)
    requires Extracting(n, root, rem, 1)
    ensures Square(root) <= n < Square(root + 1) && (rem == 0 <==> n == Square(root))
  {
    Distribute(root, 1, root + 1);
    Distribute(root, 1, root);
  }

  /** The method finds the integer square root, and the remainder tells whether it is exact. */
  lemma {:induction false} RootBitsExtracts(n: nat, root: nat, rem: nat, k: nat)
    requires Extracting(n, root, rem, Pow2(k))
    ensures var (s, left) := RootBits(root, rem, k);
            Square(s) <= n < Square(s + 1) && (left == 0 <==> n == Square(s))
    decreases k
  {
    hide Extracting;
    if k == 0 {
      Extracted(n, root, rem);
    } else {
      var r := Pow2(k - 1);
      ExtractBit(n, root, rem, r);
      if 2 * root + r <= rem {
        RootBitsExtracts(n, root + r, 2 * (rem - (2 * root + r)), k - 1);
      } else {
        RootBitsExtracts(n, root, 2 * rem, k - 1);
      }
    }
  }

  // ---------- the phases ----------

  /** One round of lines 126-127: 21 bits move from the low word to the empty high word. */
  lemma MoveBits(v: nat, c: nat, lo: U32)
    requires 0 < v && lo == Up(v, c)
    ensures c <= 31
    ensures Or(0, Shr(lo, 11)) == Shr(lo, 11) < 0x20_0000
    ensures Wide(Shr(lo, 11), Shl(lo, 21)) == Up(v, c + 21) > lo > 0
  {
    Pow32();
    ShiftCount(v, c, 31);
    ShiftOut(lo, 21);
    Pow20();
    UpMonotone(0, v, c);
    UpZero(c);
    UpZero(21);
    ShiftPair(0, lo, 21);
    UpUp(v, c, 21);
    UpMonotone(0, lo, 20);
    UpGrows(lo, 20);
  }

  /** Lines 125-128: while the high word is empty, 21 bits at a time move into it. */
  method FillHighWord(hi: I32, lo: U32) returns (ix0: I32, ix1: U32, m: I32)
    requires hi >= 0 && 0 < Wide(hi, lo) < HIDDEN
    ensures 0 < ix0 < 0x20_0000 && -52 <= m <= 0
    ensures Wide(ix0, ix1) == Up(Wide(hi, lo), -m)
  {
    ix0, ix1, m := hi, lo, 0;
    while ix0 == 0
      invariant -52 <= m <= 0 <= ix0 < 0x20_0000
      invariant Wide(hi, lo) <= Wide(ix0, ix1) == Up(Wide(hi, lo), -m)
      decreases 2 * HIDDEN - Wide(ix0, ix1)
    {
      MoveBits(Wide(hi, lo), -m, ix1);
      m := m - 21;
      ix0 := Or(ix0, Shr(ix1, 11));
      ix1 := Shl(ix1, 21);
    }
  }

  lemma RaiseBound(hi: nat, lo: U32, i: nat)
    requires i <= 20 && 0x10_0000 <= Up(hi, i) < 0x20_0000
    ensures Up(hi, i) + Shr(lo, 32 - i) < 0x20_0000
  {
    Pow20();
    ShiftOut(lo, i);
    UpOnes(21 - i, i);
    UpOne(i);
    Add(21 - i, i);
    UpMonotone(hi, Pow2(21 - i), i);
    UpSum(Pow2(21 - i) - 1, 1, i);
  }

  /** Lines 129-132: the leading bit moves up to bit 20 of the high word. */
  method RaiseLeadingBit(hi: I32, lo: U32) returns (ix0: I32, ix1: U32, i: nat)
    requires 0 < hi < 0x20_0000
    ensures HIDDEN <= Wide(ix0, ix1) < 2 * HIDDEN && i <= 20 && ix0 >= 0
    ensures Wide(ix0, ix1) == Up(Wide(hi, lo), i)
  {
    hide Down;
    ix0, ix1, i := hi, lo, 0;
    Pow20();
    TopBit(ix0, 20);
    while And(ix0, 0x0010_0000) == 0
      invariant 0 < ix0 == Up(hi, i) < 0x20_0000
      invariant And(ix0, 0x0010_0000) == (if ix0 >= 0x10_0000 then 0x10_0000 else 0)
      decreases 0x20_0000 - ix0
    {
      ix0 := ix0 + ix0;
      i := i + 1;
      TopBit(ix0, 20);
    }
    ShiftCount(hi, i, 20);
    ShiftPair(hi, lo, i);
    RaiseBound(hi, lo, i);
    ix0 := Or(ix0, Shr(ix1, 32 - i));
    ix1 := Shl(ix1, i);
  }

  /** What the two words of x say before any shift. */
  lemma InitialWords(x: Double)
    requires Finite(x) && !Negative(x) && Magnitude(x) > 0
    ensures Shr(x.hi, 20) == Exponent(x)
    ensures Exponent(x) == 0 ==> 0 < Wide(x.hi, x.lo) == Magnitude(x) < HIDDEN
    ensures Exponent(x) > 0 ==>
              var s := Wide(0x10_0000 + Low(x.hi, 20), x.lo);
              HIDDEN <= s < 2 * HIDDEN && Up(s, Exponent(x) + 1073) == Target(x)
  {
    Fields(x);
    if Exponent(x) > 0 {
      UpUp(HIDDEN + Low(x.hi, 20) * 0x1_0000_0000 + x.lo, Exponent(x) - 1, 1074);
    }
  }

  /** A subnormal is shifted at least once and at most 52 times in all. */
  lemma SubnormalShifts(v: nat, c: nat, i: nat)
    requires 0 < v < HIDDEN <= Up(Up(v, c), i) < 2 * HIDDEN
    ensures 1 <= c + i <= 52
    ensures Up(Up(Up(v, c), i), 1074 - c - i) == Up(v, 1074)
  {
    Pow52();
    UpUp(v, c, i);
    ShiftCount(v, c + i, 52);
    UpUp(v, c + i, 1074 - c - i);
  }

  /** Line 135 keeps the fraction and puts the leading bit at bit 20. */
  lemma SetLeadingBit(h: U32)
    ensures Or(And(h, 0x000f_ffff), 0x0010_0000) == 0x10_0000 + Low(h, 20)
    ensures 0x10_0000 <= h < 0x20_0000 ==> 0x10_0000 + Low(h, 20) == h
  {
    Pow20();
    AndLow(h, 20);
    UpOne(20);
    OrDisjoint(1, Low(h, 20), 20);
    if h < 0x20_0000 {
      TopBit(h, 20);
    }
  }

  lemma UnsignedParity(m: I32)
    ensures And(Unsigned(m), 1) == m % 2
  {
    AndOne(Unsigned(m));
    assert Unsigned(m) == (if m < 0 then m + 0x1_0000_0000 else m);
  }

  /** Lines 136-140: an odd exponent is made even by doubling, then halved. The arithmetic right
      shift of m is the floor of m / 2. */
  method HalveExponent(hi: I32, lo: U32, e: I32, ghost target: nat) returns (ix0: I32, ix1: U32, m: I32)
    requires HIDDEN <= Wide(hi, lo) < 2 * HIDDEN && hi >= 0
    requires -1074 <= e <= 1023 && Up(Wide(hi, lo), e + 2096) == target
    ensures HIDDEN <= Wide(ix0, ix1) < 4 * HIDDEN && ix0 >= 0
    ensures -537 <= m <= 511
    ensures Up(Wide(ix0, ix1), 2 * m + 2096) == target
  {
    hide And;
    ix0, ix1, m := hi, lo, e;
    UnsignedParity(m);
    hide And, Shr, Up;
    if And(Unsigned(m), 1) != 0 {
      DoublePair(ix0, ix1);
      UpDouble(Wide(ix0, ix1), m + 2095);
      ix0 := ix0 + ix0 + Shr(And(ix1, SIGN), 31);
      ix1 := Unsigned(ix1 + ix1);
    }
    m := m / 2;
  }

  /** Lines 122-140: x becomes a significand in two words and half of its even exponent. */
  method Normalize(x: Double) returns (ix0: I32, ix1: U32, m: I32)
    requires Finite(x) && !Negative(x) && Magnitude(x) > 0
    ensures HIDDEN <= Wide(ix0, ix1) < 4 * HIDDEN && ix0 >= 0
    ensures -537 <= m <= 511
    ensures Up(Wide(ix0, ix1), 2 * m + 2096) == Target(x)
  {
    hide Pow2, Or, And, Up;
    InitialWords(x);
    ix0, ix1 := x.hi, x.lo;
    m := Shr(ix0, 20);
    if m == 0 {
      var i: nat;
      ix0, ix1, m := FillHighWord(ix0, ix1);
      ghost var c: nat := -m;
      ix0, ix1, i := RaiseLeadingBit(ix0, ix1);
      SubnormalShifts(Magnitude(x), c, i);
      m := m - (i - 1);
    }
    m := m - 1023;
    SetLeadingBit(ix0);
    ix0 := Or(And(ix0, 0x000f_ffff), 0x0010_0000);
    ix0, ix1, m := HalveExponent(ix0, ix1, m, Target(x));
  }

  // ---------- the two bit loops ----------

  /** The moving bit: 2 * r is the k-th power of two until the bit is shifted out. */
  ghost predicate MovingBit(r: nat, k: nat) {
    if k == 0 then r == 0 else r == Pow2(k - 1)
  }

  lemma MoveBit(r: U32, k: nat)
    requires k > 0 && MovingBit(r, k)
    ensures MovingBit(Shr(r, 1), k - 1) && r == Pow2(k - 1) && Pow2(k) == 2 * r
  {
    assert Down(r, 1) == Down(r / 2, 0);
    if k > 1 {
      assert Pow2(k - 1) == 2 * Pow2(k - 2);
    }
  }

  lemma BitLeft(r: nat, k: nat)
    requires MovingBit(r, k)
    ensures r == 0 <==> k == 0
  {
  }

  /** What one step of either loop does to the wide root and remainder, for the test bit r. */
  ghost predicate Stepped(root: nat, rem: nat, r: nat, root': nat, rem': nat) {
    var t := 2 * root + r;
    if t <= rem then root' == root + r && rem' == 2 * (rem - t) else root' == root && rem' == 2 * rem
  }

  /** A pending computation: from here on the bounded bit-by-bit method ends in goal. */
  ghost predicate Heading(root: nat, rem: nat, k: nat, goal: (nat, nat)) {
    RootBits(root, rem, k) == goal && Bounded(root, rem, Pow2(k))
  }

  lemma HeadingBounded(root: nat, rem: nat, k: nat, goal: (nat, nat))
    requires Heading(root, rem, k, goal)
    ensures Bounded(root, rem, Pow2(k))
  {
  }

  lemma StepHeading(root: nat, rem: nat, k: nat, root': nat, rem': nat, goal: (nat, nat))
    requires k > 0 && Heading(root, rem, k, goal)
    requires Stepped(root, rem, Pow2(k - 1), root', rem')
    ensures Heading(root', rem', k - 1, goal)
  {
  }

  /** The body of the loop of lines 148-158. Only the high words take part in the test. */
  method HighBit(hi: I32, lo: U32, q: I32, s0: I32, r: U32) returns (ix0: I32, ix1: U32, q': I32, s0': I32)
    requires hi >= 0 && q >= 0 && s0 == 2 * q && r <= 0x20_0000
    requires Bounded(q * 0x1_0000_0000, Wide(hi, lo), 2 * r * 0x1_0000_0000)
    ensures ix0 >= 0 && q' >= 0 && s0' == 2 * q'
    ensures Stepped(q * 0x1_0000_0000, Wide(hi, lo), r * 0x1_0000_0000, q' * 0x1_0000_0000, Wide(ix0, ix1))
  {
    ix0, ix1, q', s0' := hi, lo, q, s0;
    var t: I32 := s0' + r;
    if t <= ix0 {
      s0' := t + r;
      ix0 := ix0 - t;
      q' := q' + r;
    }
    DoublePair(ix0, ix1);
    ix0 := ix0 + ix0 + Shr(And(ix1, SIGN), 31);
    ix1 := Unsigned(ix1 + ix1);
  }

  lemma HighWeight(r: U32, k: nat)
    requires 0 < k <= 22 && MovingBit(r, k)
    ensures r <= 0x20_0000 && Pow2(k + 31) == r * 0x1_0000_0000 && Pow2(k + 32) == 2 * r * 0x1_0000_0000
  {
    Pow20();
    Monotone(k - 1, 21);
    Pow32();
    Add(k - 1, 32);
  }

  /** Lines 145-158: the high 22 bits of the root. */
  method HighBits(hi: I32, lo: U32, ghost goal: (nat, nat)) returns (ix0: I32, ix1: U32, q: I32, s0: I32)
    requires hi >= 0 && Heading(0, Wide(hi, lo), 54, goal)
    ensures ix0 >= 0 && q >= 0 && s0 == 2 * q
    ensures Heading(q * 0x1_0000_0000, Wide(ix0, ix1), 32, goal)
  {
    hide Heading;
    ix0, ix1, q, s0 := hi, lo, 0, 0;
    var r: U32 := 0x0020_0000;
    ghost var k: nat, root: nat, rem: nat := 22, 0, Wide(hi, lo);
    Pow20();
    while r != 0
      invariant k <= 22 && MovingBit(r, k)
      invariant ix0 >= 0 && q >= 0 && s0 == 2 * q
      invariant root == q * 0x1_0000_0000 && rem == Wide(ix0, ix1)
      invariant Heading(root, rem, k + 32, goal)
      decreases k
    {
      HighWeight(r, k);
      HeadingBounded(root, rem, k + 32, goal);
      ix0, ix1, q, s0 := HighBit(ix0, ix1, q, s0, r);
      StepHeading(root, rem, k + 32, q * 0x1_0000_0000, Wide(ix0, ix1), goal);
      MoveBit(r, k);
      r := Shr(r, 1);
      k, root, rem := k - 1, q * 0x1_0000_0000, Wide(ix0, ix1);
    }
  }

  /** The words of the low loop: (s0, s1) is twice the root (q, q1), and the free low bits of s1
      leave room for the test bit. */
  ghost predicate LowWords(q: int, q1: int, s0: int, s1: int, w: int) {
    && q >= 0
    && s0 * 0x1_0000_0000 + s1 == 2 * (q * 0x1_0000_0000 + q1)
    && q1 + w <= 0x1_0000_0000
    && if w == 0x1_0000_0000 then s1 == 0 else s1 + 2 * w <= 0x1_0000_0000 && w <= 0x8000_0000
  }

  /** Lines 165-166: the carry into s0 happens exactly when s1 + 2 * r leaves the word. */
  lemma CarryTest(s1: U32, r: U32)
    requires (r == 0x8000_0000 && s1 == 0) || s1 + 4 * r <= 0x1_0000_0000
    ensures var t1 := Unsigned(s1 + r);
            && t1 == s1 + r
            && (And(t1, SIGN) == SIGN && And(Unsigned(t1 + r), SIGN) == 0 <==> s1 + 2 * r >= 0x1_0000_0000)
            && Unsigned(t1 + r) == (if s1 + 2 * r >= 0x1_0000_0000 then s1 + 2 * r - 0x1_0000_0000 else s1 + 2 * r)
  {
    AndSign(Unsigned(s1 + r));
    AndSign(Unsigned(Unsigned(s1 + r) + r));
  }

  /** Lines 167-169: two-word subtraction with a borrow. */
  lemma SubtractPair(hi: I32, lo: U32, t: int, t1: U32)
    ensures Wide(hi - t - (if lo < t1 then 1 else 0), Unsigned(lo - t1)) == Wide(hi, lo) - Wide(t, t1)
  {
  }

  /** Lines 167-169, when the test value fits. */
  method SubtractLow(hi: I32, lo: U32, t: I32, t1: U32) returns (ix0: I32, ix1: U32)
    requires hi >= 0 && t >= 0 && Wide(t, t1) <= Wide(hi, lo)
    ensures ix0 >= 0 && Wide(ix0, ix1) == Wide(hi, lo) - Wide(t, t1)
  {
    SubtractPair(hi, lo, t, t1);
    ix0, ix1 := hi - t, lo;
    if ix1 < t1 {
      ix0 := ix0 - 1;
    }
    ix1 := Unsigned(ix1 - t1);
  }

  /** The body of the loop of lines 161-175, with its two-word comparison and borrow. */
  method LowBit(hi: I32, lo: U32, ghost q: nat, q1: U32, s0: I32, s1: U32, r: U32)
    returns (ix0: I32, ix1: U32, q1': U32, s0': I32, s1': U32)
    requires hi >= 0 && LowWords(q, q1, s0, s1, 2 * r)
    requires Bounded(q * 0x1_0000_0000 + q1, Wide(hi, lo), 2 * r)
    ensures ix0 >= 0 && LowWords(q, q1', s0', s1', r)
    ensures Stepped(q * 0x1_0000_0000 + q1, Wide(hi, lo), r, q * 0x1_0000_0000 + q1', Wide(ix0, ix1))
  {
    hide And, Shr;
    ix0, ix1, q1', s0', s1' := hi, lo, q1, s0, s1;
    CarryTest(s1, r);
    var t1: U32 := Unsigned(s1 + r);
    var t: I32 := s0';
    if t < ix0 || (t == ix0 && t1 <= ix1) {
      s1' := Unsigned(t1 + r);
      if And(t1, SIGN) == SIGN && And(s1', SIGN) == 0 {
        s0' := s0' + 1;
      }
      ix0, ix1 := SubtractLow(ix0, ix1, t, t1);
      q1' := Unsigned(q1' + r);
    }
    DoublePair(ix0, ix1);
    ix0 := ix0 + ix0 + Shr(And(ix1, SIGN), 31);
    ix1 := Unsigned(ix1 + ix1);
  }

  lemma LowStart(q: nat)
    ensures LowWords(q, 0, 2 * q, 0, 0x1_0000_0000) && MovingBit(SIGN, 32) && Pow2(32) == 0x1_0000_0000
  {
    Pow32();
  }

  lemma HeadingReached(root: nat, rem: nat, goal: (nat, nat))
    requires Heading(root, rem, 0, goal)
    ensures goal == (root, rem)
  {
  }

  /** Lines 160-175: the low 32 bits of the root. */
  method LowBits(hi: I32, lo: U32, q: I32, s: I32, ghost goal: (nat, nat)) returns (ix0: I32, ix1: U32, q1: U32)
    requires hi >= 0 && q >= 0 && s == 2 * q
    requires Heading(q * 0x1_0000_0000, Wide(hi, lo), 32, goal)
    ensures ix0 >= 0
    ensures goal == (q * 0x1_0000_0000 + q1, Wide(ix0, ix1))
  {
    hide RootBits, Heading, MovingBit, LowWords, Bounded, Stepped, Shr, Pow2;
    LowStart(q);
    ix0, ix1, q1 := hi, lo, 0;
    var s0: I32, s1: U32 := s, 0;
    var r: U32 := SIGN;
    ghost var k: nat, w: nat, root: nat, rem: nat := 32, 0x1_0000_0000, q * 0x1_0000_0000, Wide(hi, lo);
    while r != 0
      invariant k <= 32 && MovingBit(r, k) && w == Pow2(k)
      invariant ix0 >= 0 && LowWords(q, q1, s0, s1, w)
      invariant root == q * 0x1_0000_0000 + q1 && rem == Wide(ix0, ix1)
      invariant Heading(root, rem, k, goal)
      decreases k
    {
      BitLeft(r, k);
      MoveBit(r, k);
      HeadingBounded(root, rem, k, goal);
      ix0, ix1, q1, s0, s1 := LowBit(ix0, ix1, q, q1, s0, s1, r);
      StepHeading(root, rem, k, q * 0x1_0000_0000 + q1, Wide(ix0, ix1), goal);
      w := r;
      r := Shr(r, 1);
      k, root, rem := k - 1, q * 0x1_0000_0000 + q1, Wide(ix0, ix1);
    }
    BitLeft(r, k);
    HeadingReached(root, rem, goal);
  }

  // ---------- rounding ----------

  lemma SquareLess(a: nat, b: nat)
    ensures a < b ==> Square(a) < Square(b)
    ensures a <= b ==> Square(a) <= Square(b)
  {
    if a < b {
      MulLess(a, b, b);
      if a > 0 {
        MulLess(a, b, a);
      }
    }
  }

  lemma SquareDouble(a: nat)
    ensures Square(2 * a) == 4 * Square(a)
  {
    Associate(2 * a, 2, a);
    Associate(2, a, a);
  }

  lemma SquareScale(a: nat, c: nat)
    ensures Square(a * c) == Square(a) * Square(c)
  {
    calc {
      Square(a * c);
      { Associate(a * c, a, c); }
      ((a * c) * a) * c;
      { Associate(a, c, a); Associate(a, a, c); }
      (Square(a) * c) * c;
      { Associate(Square(a), c, c); }
      Square(a) * Square(c);
    }
  }

  /** The rounded root, when low is the root cut after its last bit, c the weight of that bit, and
      the result may keep only bits of weight 2 * c. */
  function RoundedRoot(mode: Rounding, low: int, c: nat, odd: bool, inexact: bool): int {
    if !inexact then low
    else match mode
      case ToNearest => if odd then low + c else low
      case Upward => if odd then low + c else low + 2 * c
      case _ => if odd then low - c else low
  }

  /** The claim of `RootRounded` about one competitor y. */
  ghost predicate Beats(mode: Rounding, w: nat, square: nat, y: nat) {
    match mode
    case ToNearest => (y > w ==> Square(w + y) > 4 * square) && (y < w ==> Square(w + y) < 4 * square)
    case Upward => Square(w) >= square && (y < w ==> Square(y) < square)
    case _ => Square(w) <= square && (y > w ==> Square(y) > square)
  }

  lemma RoundedBeats(mode: Rounding, w: nat, square: nat, low: nat, c: nat, odd: bool, inexact: bool, y: nat)
    requires Square(low) <= square < Square(low + c) && (inexact <==> square != Square(low))
    requires odd ==> inexact
    requires w == RoundedRoot(mode, low, c, odd, inexact)
    requires y > w ==> y >= w + 2 * c
    requires y < w && w > low ==> y <= w - 2 * c
    ensures Beats(mode, w, square, y)
  {
    hide Square;
    SquareDouble(low);
    SquareDouble(low + c);
    SquareLess(w, low);
    SquareLess(low + c, w);
    SquareLess(y, low);
    SquareLess(low + c, y);
    SquareLess(w + y, 2 * low);
    SquareLess(2 * (low + c), w + y);
  }

  /** Rounding leaves one answer. */
  lemma RoundingIsUnique(mode: Rounding, c: Double, d: Double, square: nat)
    requires RootRounded(mode, c, square) && RootRounded(mode, d, square)
    ensures c == d
  {
    hide Square, BodyValue;
    if Magnitude(c) == Magnitude(d) {
      SameDouble(c, d);
    }
  }

  /** Lines 177-189: the last bit of the root is rounded away, with the carry into q. */
  method RoundWords(mode: Rounding, q: I32, q1: U32, inexact: bool) returns (q': I32, q1': U32)
    requires 0x20_0000 <= q < 0x40_0000 && (q1 % 2 == 1 ==> inexact)
    ensures 0x20_0000 <= q' <= 0x40_0000
    ensures q' * 0x1_0000_0000 + q1' - q1' % 2
         == RoundedRoot(mode, q * 0x1_0000_0000 + q1, 1, q1 % 2 == 1, inexact)
  {
    hide And;
    q', q1' := q, q1;
    AndOne(q1);
    if inexact {
      if OneMinusTinyIsOne(mode) {
        if q1' == 0xffff_ffff {
          q1' := 0;
          q' := q' + 1;
        } else if OnePlusTinyIsAboveOne(mode) {
          if q1' == 0xffff_fffe {
            q' := q' + 1;
          }
          q1' := Unsigned(q1' + 2);
        } else {
          q1' := Unsigned(q1' + And(q1', 1));
        }
      }
    }
  }

  lemma PackedBody(z: Double, q: int, q1: U32, m: int)
    requires z.hi == q / 2 + 0x3fe0_0000 + m * 0x10_0000 < SIGN
    requires z.lo == q1 / 2 + (if q % 2 == 1 then 0x8000_0000 else 0)
    ensures 2 * Body(z) == q * 0x1_0000_0000 + q1 - q1 % 2 + 2 * 0x10_0000_0000_0000 * (m + 1022)
  {
    var h := q / 2;
    assert q == 2 * h + q % 2 && q1 == 2 * (q1 / 2) + q1 % 2;
    assert Body(z) == (h + 0x3fe0_0000 + m * 0x10_0000) * 0x1_0000_0000 + z.lo;
  }

  lemma PackedLow(q: U32, q1: U32)
    ensures And(q, 1) == q % 2 && Shr(q, 1) == q / 2 && Shr(q1, 1) == q1 / 2 && Or(q1 / 2, SIGN) == q1 / 2 + SIGN
  {
    AndOne(q);
    assert Down(q, 1) == Down(q / 2, 0) && Down(q1, 1) == Down(q1 / 2, 0);
    Pow32();
    UpOne(31);
    OrDisjoint(1, q1 / 2, 31);
  }

  /** Lines 190-195: the 53-bit root and its exponent are packed into two words. */
  method Pack(q: I32, q1: U32, m: I32) returns (z: Double)
    requires 0x20_0000 <= q <= 0x40_0000 && -537 <= m <= 511
    ensures !Negative(z)
    ensures 2 * Body(z) == q * 0x1_0000_0000 + q1 - q1 % 2 + 2 * 0x10_0000_0000_0000 * (m + 1022)
  {
    PackedLow(q, q1);
    hide And, Or, Shr;
    var ix0: I32 := Shr(q, 1) + 0x3fe0_0000;
    var ix1: U32 := Shr(q1, 1);
    if And(q, 1) == 1 {
      ix1 := Or(ix1, SIGN);
    }
    ix0 := ix0 + m * 0x10_0000;
    z := Double(ix0, ix1);
    PackedBody(z, q, q1, m);
  }

  // ---------- the result ----------

  lemma OddSquare(a: nat)
    requires a % 2 == 1
    ensures Square(a) % 2 == 1
  {
    Distribute(a - 1, 1, a);
    Associate(2, a / 2, a);
  }

  lemma RootRange(x: nat, root: nat)
    requires HIDDEN <= x < 4 * HIDDEN && Square(root) <= x * Pow2(54) < Square(root + 1)
    ensures 2 * HIDDEN <= root < 4 * HIDDEN
  {
    Pow52();
    assert Pow2(54) == 2 * Pow2(53);
    Add(53, 53);
    Add(54, 54);
    Add(52, 54);
    MulLess(Pow2(52), x, Pow2(54));
    MulLess(x, Pow2(54), Pow2(54));
    SquareLess(root + 1, Pow2(53));
    SquareLess(Pow2(54), root);
  }

  /** What the bit loops leave: the root of x * 2^54 cut to 54 bits, exact only when even. */
  lemma RootOf(x: nat, root: nat, left: nat)
    requires HIDDEN <= x < 4 * HIDDEN && RootBits(0, 2 * x, 54) == (root, left)
    ensures Square(root) <= x * Pow2(54) < Square(root + 1)
    ensures left == 0 <==> x * Pow2(54) == Square(root)
    ensures 2 * HIDDEN <= root < 4 * HIDDEN && (root % 2 == 1 ==> left != 0)
  {
    var n := x * Pow2(54);
    Associate(2, x, Pow2(54));
    Pow52();
    RootBitsExtracts(n, 0, 2 * x, 54);
    RootRange(x, root);
    if root % 2 == 1 {
      OddSquare(root);
      Associate(x, 2, Pow2(53));
      Associate(2, x, Pow2(53));
    }
  }

  /** The bodies next to a packed significand are a unit in its last place away, except just below
      a power of two. */
  lemma PackedAbove(significand: nat, e: nat)
    requires HIDDEN <= significand <= 2 * HIDDEN
    ensures BodyValue(significand + 0x10_0000_0000_0000 * e + 1) >= Up(significand, e) + Pow2(e)
  {
    hide BodyValue;
    UpOne(e);
    if significand < 2 * HIDDEN {
      Assemble(significand + 1, e);
      UpSum(significand, 1, e);
    } else {
      Assemble(HIDDEN + 1, e + 1);
      UpDouble(HIDDEN + 1, e);
      UpSum(significand, 2, e);
      UpSum(1, 1, e);
    }
  }

  lemma PackedBelow(significand: nat, e: nat)
    requires HIDDEN < significand <= 2 * HIDDEN
    ensures BodyValue(significand + 0x10_0000_0000_0000 * e - 1) + Pow2(e) == Up(significand, e)
  {
    hide BodyValue;
    UpOne(e);
    Assemble(significand - 1, e);
    UpSum(significand - 1, 1, e);
  }

  lemma PackedNeighbours(d: Double, significand: nat, e: nat, y: Double)
    requires HIDDEN <= significand <= 2 * HIDDEN && Body(d) == significand + 0x10_0000_0000_0000 * e
    ensures Magnitude(d) == Up(significand, e)
    ensures Magnitude(y) > Magnitude(d) ==> Magnitude(y) >= Magnitude(d) + Pow2(e)
    ensures Magnitude(y) < Magnitude(d) && significand > HIDDEN ==> Magnitude(y) + Pow2(e) <= Magnitude(d)
  {
    Assemble(significand, e);
    Neighbours(Body(d), y);
    PackedAbove(significand, e);
    hide BodyValue, Up;
    if significand > HIDDEN {
      PackedBelow(significand, e);
    }
  }

  /** The target is the extracted square, scaled by the square of the weight of the root's last bit. */
  lemma TargetScale(x: nat, m: int)
    requires -537 <= m
    ensures Up(x, 2 * m + 2096) == (x * Pow2(54)) * Square(Pow2(m + 1021))
  {
    var c := Pow2(m + 1021);
    calc {
      Up(x, 2 * m + 2096);
      { UpIsProduct(x, 2 * m + 2096); }
      x * Pow2(2 * m + 2096);
      { Add(54, 2 * m + 2042); Add(m + 1021, m + 1021); }
      x * (Pow2(54) * Square(c));
      { Associate(x, Pow2(54), Square(c)); }
      (x * Pow2(54)) * Square(c);
    }
  }

  lemma RoundedRootScale(mode: Rounding, low: int, c: nat, odd: bool, inexact: bool)
    ensures RoundedRoot(mode, low, 1, odd, inexact) * c == RoundedRoot(mode, low * c, c, odd, inexact)
  {
    Distribute(low, 1, c);
    Distribute(low, 2, c);
    Distribute(low, -1, c);
  }

  lemma RoundedRange(mode: Rounding, root: nat, inexact: bool)
    requires 2 * HIDDEN <= root < 4 * HIDDEN && (root % 2 == 1 ==> inexact)
    ensures var rounded := RoundedRoot(mode, root, 1, root % 2 == 1, inexact);
            rounded % 2 == 0 && 2 * HIDDEN <= rounded <= 4 * HIDDEN && (rounded > root ==> rounded > 2 * HIDDEN)
  {
  }

  /** The value of the packed double, in terms of the root cut at weight c. */
  lemma PackedValue(d: Double, rounded: nat, m: int, c: nat, y: Double)
    requires -537 <= m <= 511 && c == Pow2(m + 1021)
    requires rounded % 2 == 0 && 2 * HIDDEN <= rounded <= 4 * HIDDEN
    requires 2 * Body(d) == rounded + 2 * 0x10_0000_0000_0000 * (m + 1022)
    ensures Magnitude(d) == rounded * c
    ensures Magnitude(y) > Magnitude(d) ==> Magnitude(y) >= Magnitude(d) + 2 * c
    ensures Magnitude(y) < Magnitude(d) && rounded > 2 * HIDDEN ==> Magnitude(y) + 2 * c <= Magnitude(d)
  {
    hide BodyValue;
    var significand := rounded / 2;
    PackedNeighbours(d, significand, m + 1022, y);
    UpIsProduct(significand, m + 1022);
    Associate(significand, 2, c);
    Associate(2, significand, c);
  }

  /** One competitor against the packed double. */
  lemma PackedBeats(mode: Rounding, d: Double, square: nat, root: nat, m: int, inexact: bool, y: Double)
    requires -537 <= m <= 511 && 2 * HIDDEN <= root < 4 * HIDDEN && (root % 2 == 1 ==> inexact)
    requires 2 * Body(d) == RoundedRoot(mode, root, 1, root % 2 == 1, inexact)
                            + 2 * 0x10_0000_0000_0000 * (m + 1022)
    requires var low, c := root * Pow2(m + 1021), Pow2(m + 1021);
             Square(low) <= square < Square(low + c) && (inexact <==> square != Square(low))
    ensures Beats(mode, Magnitude(d), square, Magnitude(y))
  {
    hide BodyValue;
    RoundedRange(mode, root, inexact);
    hide Square, BodyValue, Beats, RoundedRoot;
    var c, odd := Pow2(m + 1021), root % 2 == 1;
    var rounded := RoundedRoot(mode, root, 1, odd, inexact);
    PackedValue(d, rounded, m, c, y);
    assert rounded * c > root * c ==> rounded > root by {
      MulLess(root, rounded, c);
    }
    RoundedRootScale(mode, root, c, odd, inexact);
    var low, w := root * c, rounded * c;
    RoundedBeats(mode, w, square, low, c, odd, inexact, Magnitude(y));
  }

  lemma BeatsAll(mode: Rounding, d: Double, square: nat)
    requires Finite(d) && !Negative(d)
    requires forall y: Double :: Beats(mode, Magnitude(d), square, Magnitude(y))
    ensures RootRounded(mode, d, square)
  {
    hide Square, BodyValue;
    assert Beats(mode, Magnitude(d), square, Magnitude(d));
  }

  lemma ScaledOrder(a: nat, n: nat, b: nat, c: nat)
    requires a <= n < b && c > 0
    ensures a * Square(c) <= n * Square(c) < b * Square(c)
    ensures n == a <==> n * Square(c) == a * Square(c)
  {
    SquareLess(0, c);
    hide Square;
    MulLess(a, n, Square(c));
    MulLess(n, b, Square(c));
  }

  lemma ScaledBounds(n: nat, root: nat, c: nat)
    requires Square(root) <= n < Square(root + 1) && c > 0
    ensures Square(root * c) <= n * Square(c) < Square(root * c + c)
    ensures n == Square(root) <==> n * Square(c) == Square(root * c)
  {
    hide Square;
    SquareScale(root, c);
    SquareScale(root + 1, c);
    Distribute(root, 1, c);
    ScaledOrder(Square(root), n, Square(root + 1), c);
  }

  /** From the extracted bits to the correctly rounded double. */
  lemma PackedIsRounded(mode: Rounding, x: nat, m: int, root: nat, left: nat, d: Double)
    requires HIDDEN <= x < 4 * HIDDEN && RootBits(0, 2 * x, 54) == (root, left)
    requires -537 <= m <= 511 && !Negative(d)
    requires 2 * Body(d) == RoundedRoot(mode, root, 1, root % 2 == 1, left != 0)
                            + 2 * 0x10_0000_0000_0000 * (m + 1022)
    ensures RootRounded(mode, d, Up(x, 2 * m + 2096))
  {
    hide Pow2;
    RootOf(x, root, left);
    hide RootBits, Square, BodyValue, Up;
    var square := Up(x, 2 * m + 2096);
    TargetScale(x, m);
    ScaledBounds(x * Pow2(54), root, Pow2(m + 1021));
    RoundedRange(mode, root, left != 0);
    FiniteBody(d);
    hide RoundedRoot, Beats, RootRounded;
    forall y: Double
      ensures Beats(mode, Magnitude(d), square, Magnitude(y))
    {
      PackedBeats(mode, d, square, root, m, left != 0, y);
    }
    BeatsAll(mode, d, square);
  }

  lemma StartHeading(x: nat, goal: (nat, nat))
    requires HIDDEN <= x < 4 * HIDDEN && goal == RootBits(0, 2 * x, 54)
    ensures Heading(0, 2 * x, 54, goal)
  {
    Pow52();
    assert Pow2(54) == 2 * Pow2(53);
  }

  /** Lines 142-175: both loops on a normalised number. */
  method Extract(hi: I32, lo: U32) returns (ix0: I32, ix1: U32, q: I32, q1: U32)
    requires HIDDEN <= Wide(hi, lo) < 4 * HIDDEN && hi >= 0
    ensures ix0 >= 0 && q >= 0
    ensures RootBits(0, 2 * Wide(hi, lo), 54) == (q * 0x1_0000_0000 + q1, Wide(ix0, ix1))
  {
    hide Pow2, And, Shr, RootBits, Heading;
    ghost var goal := RootBits(0, 2 * Wide(hi, lo), 54);
    StartHeading(Wide(hi, lo), goal);
    DoublePair(hi, lo);
    ix0 := hi + hi + Shr(And(lo, SIGN), 31);
    ix1 := Unsigned(lo + lo);
    var s0: I32;
    ix0, ix1, q, s0 := HighBits(ix0, ix1, goal);
    ix0, ix1, q1 := LowBits(ix0, ix1, q, s0, goal);
  }

  lemma EvenPlus(a: nat, b: nat)
    ensures (2 * a + b) % 2 == b % 2
  {
    DivUnique(2 * a + b, 2, a + b / 2, b % 2);
  }

  lemma WideParity(q: nat, q1: U32)
    ensures Wide(q, q1) % 2 == q1 % 2
  {
    EvenPlus(q * 0x8000_0000, q1);
  }

  /** Lines 142-196 on a normalised positive number. */
  method PositiveRoot(mode: Rounding, hi: I32, lo: U32, m: I32, ghost square: nat) returns (r: Result)
    requires HIDDEN <= Wide(hi, lo) < 4 * HIDDEN && hi >= 0 && -537 <= m <= 511
    requires Up(Wide(hi, lo), 2 * m + 2096) == square
    ensures r.Number? && RootRounded(mode, r.value, square)
  {
    hide Or, Up, RootBits, RootRounded, RoundedRoot;
    var ix0, ix1, q, q1 := Extract(hi, lo);
    ghost var q0, p0, root: nat := q, q1, Wide(q, q1);
    RootOf(Wide(hi, lo), root, Wide(ix0, ix1));
    ghost var left: nat := Wide(ix0, ix1);
    OrIsZero(ix0, ix1);
    q, q1 := RoundWords(mode, q, q1, Or(ix0, ix1) != 0);
    var z := Pack(q, q1, m);
    WideParity(q0, p0);
    PackedIsRounded(mode, Wide(hi, lo), m, root, left, z);
    r := Number(z);
  }

  // ---------- the routine ----------

  /** x * x + x on an infinity or a NaN. */
  function SquarePlus(x: Double): Result
    requires !Finite(x)
  {
    if IsNaN(x) || Negative(x) then NotANumber else Number(x)
  }

  /** `__ieee754_sqrt`; edom tells whether errno is set to EDOM. */
  method Sqrt(mode: Rounding, x: Double) returns (r: Result, edom: bool)
    ensures IsNaN(x) ==> r == NotANumber && edom
    ensures !Finite(x) && !IsNaN(x) ==> r == (if Negative(x) then NotANumber else Number(x)) && edom
    ensures Finite(x) && Magnitude(x) == 0 ==> r == Number(x) && !edom
    ensures Finite(x) && Magnitude(x) > 0 && Negative(x) ==> r == NotANumber && edom
    ensures Finite(x) && Magnitude(x) > 0 && !Negative(x) ==>
              r.Number? && RootRounded(mode, r.value, Target(x)) && !edom
  {
    ExponentTests(x);
    ClassTests(x);
    hide And, Or;
    if And(x.hi, EXP_MASK) == EXP_MASK {
      return SquarePlus(x), true;
    }
    if Signed(x.hi) <= 0 {
      if Or(And(x.hi, Not(SIGN)), x.lo) == 0 {
        return Number(x), false;
      } else if Signed(x.hi) < 0 {
        return NotANumber, true;
      }
    }
    var ix0, ix1, m := Normalize(x);
    r := PositiveRoot(mode, ix0, ix1, m, Target(x));
    edom := false;
  }
}
