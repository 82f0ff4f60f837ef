/** 32-bit machine words. Signed words are the subset type `I32`, so every assignment to one
    carries a proof that the C expression does not overflow; unsigned words wrap explicitly.
    Shifts and bitwise operators are defined bit by bit, and the lemmas below turn the masks
    and shifts of the sources into sums and remainders. */
module Words {
  import opened Powers

  const WORD: int := 0x1_0000_0000
  const SIGN: int := 0x8000_0000

  type U32 = w: int | 0 <= w < WORD
  type I32 = w: int | -SIGN <= w < SIGN

  /** Conversion to unsigned, arithmetic modulo 2^32. One wrap either way is spelled out, which
      spares the verifier the division. */
  function Unsigned(w: int): U32 {
    if w < 0 then (if w >= -WORD then w + WORD else w % 0x1_0000_0000)
    else if w < WORD then w
    else if w < 2 * WORD then w - WORD
    else w % 0x1_0000_0000
  }

  /** Reinterpretation of an unsigned word as a two's complement one. */
  function Signed(w: U32): (i: I32)
    ensures Unsigned(i) == w
  {
    if w < SIGN then w else w - WORD
  }

  // ---------- shifts ----------

  /** `a` doubled k times. */
  function Up(a: nat, k: nat): nat {
    if k == 0 then a else 2 * Up(a, k - 1)
  }

  /** `a` without its k low bits. */
  function Down(a: nat, k: nat): (d: nat)
    ensures d <= a
  {
    if k == 0 then a else Down(a / 2, k - 1)
  }

  /** The k low bits of `a`. */
  function Low(a: nat, k: nat): (l: nat)
    ensures l < Pow2(k) && l <= a
  {
    if k == 0 then 0 else 2 * Low(a / 2, k - 1) + a % 2
  }

  /** Shift left inside a word. Amounts of 32 and more give 0, the PowerPC meaning. */
  function Shl(w: U32, n: nat): U32 {
    Pow32();
    Low(Up(w, n), 32)
  }

  function Shr(w: nat, n: nat): (r: nat)
    ensures r <= w
  {
    Down(w, n)
  }

  lemma {:induction false} UpIsProduct(a: nat, k: nat)
    ensures Up(a, k) == a * Pow2(k)
  {
    if k == 0 {
    } else {
      UpIsProduct(a, k - 1);
      Associate(2, a, Pow2(k - 1));
      Associate(a, 2, Pow2(k - 1));
    }
  }

  lemma {:induction false} UpSum(a: nat, b: nat, k: nat)
    ensures Up(a + b, k) == Up(a, k) + Up(b, k)
  {
    if k == 0 {
    } else {
      UpSum(a, b, k - 1);
    }
  }

  lemma {:induction false} UpUp(a: nat, j: nat, k: nat)
    ensures Up(Up(a, j), k) == Up(a, j + k)
  {
    if k == 0 {
    } else {
      UpUp(a, j, k - 1);
    }
  }

  lemma {:induction false} UpMonotone(a: nat, b: nat, k: nat)
    ensures a < b ==> Up(a, k) + Pow2(k) <= Up(b, k)
    ensures a < b <==> Up(a, k) < Up(b, k)
  {
    if k == 0 {
    } else {
      UpMonotone(a, b, k - 1);
    }
  }

  lemma {:induction false} UpOne(k: nat)
    ensures Up(1, k) == Pow2(k)
  {
    if k == 0 {
    } else {
      UpOne(k - 1);
    }
  }

  lemma {:induction false} UpDouble(a: nat, k: nat)
    ensures Up(2 * a, k) == Up(a, k + 1)
  {
    if k == 0 {
    } else {
      UpDouble(a, k - 1);
    }
  }

  lemma {:induction false} UpBound(a: nat, j: nat, k: nat)
    requires a < Pow2(j)
    ensures Up(a, k) + Pow2(k) <= Pow2(j + k)
  {
    if k == 0 {
    } else {
      UpBound(a, j, k - 1);
    }
  }

  lemma {:induction false} Split(a: nat, k: nat)
    ensures a == Up(Down(a, k), k) + Low(a, k)
  {
    if k == 0 {
    } else {
      Split(a / 2, k - 1);
    }
  }

  lemma {:induction false} SplitUnique(q: nat, r: nat, k: nat)
    requires r < Pow2(k)
    ensures Down(Up(q, k) + r, k) == q && Low(Up(q, k) + r, k) == r
  {
    if k == 0 {
    } else {
      SplitUnique(q, r / 2, k - 1);
      assert (Up(q, k) + r) / 2 == Up(q, k - 1) + r / 2;
    }
  }

  lemma {:induction false} DownDown(a: nat, j: nat, k: nat)
    ensures Down(Down(a, j), k) == Down(a, j + k)
  {
    if j == 0 {
    } else {
      DownDown(a / 2, j - 1, k);
    }
  }

  lemma DownIsQuotient(a: nat, k: nat)
    ensures Down(a, k) == a / Pow2(k) && Low(a, k) == a % Pow2(k)
  {
    Split(a, k);
    UpIsProduct(Down(a, k), k);
    DivUnique(a, Pow2(k), Down(a, k), Low(a, k));
  }

  lemma DownSmall(a: nat, k: nat)
    requires a < Pow2(k)
    ensures Down(a, k) == 0 && Low(a, k) == a
  {
    Split(a, k);
    UpMonotone(0, Down(a, k), k);
  }

  lemma {:induction false} DownBound(a: nat, j: nat, k: nat)
    requires a < Pow2(j + k)
    ensures Down(a, k) < Pow2(j)
  {
    if k == 0 {
    } else {
      DownBound(a / 2, j, k - 1);
    }
  }

  // ---------- bitwise operators ----------

  function Bit(b: bool): nat {
    if b then 1 else 0
  }

  function And(a: nat, b: nat): (c: nat)
    ensures c <= a && c <= b
    decreases a
  {
    if a == 0 then 0 else 2 * And(a / 2, b / 2) + Bit(a % 2 == 1 && b % 2 == 1)
  }

  function Or(a: nat, b: nat): nat
    decreases a + b
  {
    if a == 0 && b == 0 then 0 else 2 * Or(a / 2, b / 2) + Bit(a % 2 == 1 || b % 2 == 1)
  }

  function Xor(a: nat, b: nat): nat
    decreases a + b
  {
    if a == 0 && b == 0 then 0 else 2 * Xor(a / 2, b / 2) + Bit(a % 2 != b % 2)
  }

  function Not(w: U32): U32 {
    WORD - 1 - w
  }

  // The defining equations without their base case.

  lemma AndStep(a: nat, b: nat)
    ensures And(a, b) == 2 * And(a / 2, b / 2) + Bit(a % 2 == 1 && b % 2 == 1)
  {
    assert And(0, b / 2) == 0;
  }

  lemma OrStep(a: nat, b: nat)
    ensures Or(a, b) == 2 * Or(a / 2, b / 2) + Bit(a % 2 == 1 || b % 2 == 1)
  {
    assert Or(0, 0) == 0;
  }

  lemma XorStep(a: nat, b: nat)
    ensures Xor(a, b) == 2 * Xor(a / 2, b / 2) + Bit(a % 2 != b % 2)
  {
    assert Xor(0, 0) == 0;
  }

  lemma {:induction false} AndZero(a: nat)
    ensures And(a, 0) == 0
    decreases a
  {
    if a == 0 {
    } else {
      AndZero(a / 2);
    }
  }

  lemma {:induction false} AndCommutes(a: nat, b: nat)
    ensures And(a, b) == And(b, a)
    decreases a + b
  {
    AndStep(a, b);
    AndStep(b, a);
    if a + b > 0 {
      AndCommutes(a / 2, b / 2);
    }
  }

  lemma LowStep(a: nat, k: nat)
    ensures k == 0 ==> Low(a, k) == 0 && Pow2(k) == 1
    ensures k > 0 ==> Low(a, k) == 2 * Low(a / 2, k - 1) + a % 2
    ensures k > 0 ==> (Pow2(k) - 1) / 2 == Pow2(k - 1) - 1 && (Pow2(k) - 1) % 2 == 1
  {
  }

  /** A run of low ones keeps the low bits. */
  lemma {:induction false} AndLow(a: nat, k: nat)
    ensures And(a, Pow2(k) - 1) == Low(a, k)
    decreases k
  {
    hide And, Low, Pow2;
    LowStep(a, k);
    if k == 0 {
      AndZero(a);
    } else {
      AndStep(a, Pow2(k) - 1);
      AndLow(a / 2, k - 1);
    }
  }

  /** A mask whose k low bits are clear drops the k low bits. */
  lemma {:induction false} AndShifted(a: nat, m: nat, k: nat)
    ensures And(a, Up(m, k)) == Up(And(Down(a, k), m), k)
    decreases k
  {
    if k == 0 {
    } else {
      AndStep(a, Up(m, k));
      AndShifted(a / 2, m, k - 1);
    }
  }

  /** A mask of j ones above k zeros selects that bit field in place. */
  lemma AndField(a: nat, j: nat, k: nat)
    ensures And(a, Up(Pow2(j) - 1, k)) == Up(Low(Down(a, k), j), k)
  {
    AndShifted(a, Pow2(j) - 1, k);
    AndLow(Down(a, k), j);
  }

  lemma {:induction false} UpOnes(j: nat, k: nat)
    ensures Up(Pow2(j) - 1, k) == Pow2(j + k) - Pow2(k)
  {
    if k == 0 {
    } else {
      UpOnes(j, k - 1);
    }
  }

  lemma HighPart(w: U32, k: nat)
    requires k <= 32
    ensures Low(Down(w, k), 32 - k) == Down(w, k)
  {
    Pow32();
    DownBound(w, 32 - k, k);
    DownSmall(Down(w, k), 32 - k);
  }

  /** Clearing the k low bits of a word. */
  lemma AndNotLow(w: U32, k: nat)
    requires k <= 32
    ensures Pow2(k) <= WORD && And(w, Not(Pow2(k) - 1)) == w - Low(w, k) == Up(Down(w, k), k)
  {
    hide And, Pow2, Up;
    Pow32();
    Monotone(k, 32);
    UpOnes(32 - k, k);
    AndField(w, 32 - k, k);
    HighPart(w, k);
    Split(w, k);
  }

  lemma AndOne(a: nat)
    ensures And(a, 1) == a % 2
  {
    AndStep(a, 1);
    AndZero(a / 2);
  }

  lemma {:induction false} UpZero(k: nat)
    ensures Up(0, k) == 0
  {
    if k == 0 {
    } else {
      UpZero(k - 1);
    }
  }

  /** The highest bit of a (k + 1)-bit number: extracted, removed, and tested in place. */
  lemma TopBit(w: nat, k: nat)
    requires w < Pow2(k + 1)
    ensures Down(w, k) == (if w >= Pow2(k) then 1 else 0)
    ensures Low(w, k) == (if w >= Pow2(k) then w - Pow2(k) else w)
    ensures And(w, Pow2(k)) == (if w >= Pow2(k) then Pow2(k) else 0)
  {
    UpZero(k);
    UpOne(k);
    Split(w, k);
    DownBound(w, 1, k);
    AndField(w, 1, k);
    DownSmall(Down(w, k), 1);
  }

  /** The sign-bit tests of the sources. */
  lemma AndSign(w: U32)
    ensures And(w, SIGN) == (if w >= SIGN then SIGN else 0)
    ensures Shr(w, 31) == Shr(And(w, SIGN), 31) == (if w >= SIGN then 1 else 0)
    ensures Low(w, 31) == (if w >= SIGN then w - SIGN else w)
  {
    Pow32();
    TopBit(w, 31);
    TopBit(And(w, SIGN), 31);
  }

  lemma UpSplit(a: nat, j: nat, i: nat)
    ensures Up(a, i) == Up(Down(a, j), j + i) + Up(Low(a, j), i)
  {
    var d, l := Down(a, j), Low(a, j);
    assert a == Up(d, j) + l by {
      Split(a, j);
    }
    UpSum(Up(d, j), l, i);
    UpUp(d, j, i);
  }

  lemma WordBound(l: nat, i: nat)
    requires i <= 32 && l < Pow2(32 - i)
    ensures Up(l, i) < WORD
  {
    Pow32();
    UpBound(l, 32 - i, i);
  }

  lemma UpWord(a: nat)
    ensures Up(a, 32) == a * 0x1_0000_0000
  {
    Pow32();
    UpIsProduct(a, 32);
  }

  /** What a left shift pushes out of a word is what the complementary right shift keeps. */
  lemma ShiftWord(lo: U32, i: nat, j: nat)
    requires i + j == 32
    ensures Up(lo, i) == Shr(lo, j) * 0x1_0000_0000 + Shl(lo, i)
  {
    var d, l := Down(lo, j), Low(lo, j);
    Pow32();
    UpSplit(lo, j, i);
    WordBound(l, i);
    SplitUnique(d, Up(l, i), 32);
    UpWord(d);
  }

  lemma ShiftOut(lo: U32, i: nat)
    requires i <= 32
    ensures Shr(lo, 32 - i) < Pow2(i)
  {
    Pow32();
    DownBound(lo, i, 32 - i);
  }

  lemma {:induction false} OrZero(b: nat)
    ensures Or(0, b) == b && Or(b, 0) == b
    decreases b
  {
    if b == 0 {
    } else {
      OrZero(b / 2);
    }
  }

  /** Fields that do not overlap: the `|` of the sources is a sum. */
  lemma {:induction false} OrDisjoint(a: nat, b: nat, k: nat)
    requires b < Pow2(k)
    ensures Or(Up(a, k), b) == Up(a, k) + b && Or(b, Up(a, k)) == Up(a, k) + b
    decreases k
  {
    if k == 0 {
      OrZero(a);
    } else {
      OrDisjoint(a, b / 2, k - 1);
      OrStep(Up(a, k), b);
      OrStep(b, Up(a, k));
    }
  }

  /** Shifting a word pair left: the bits that leave the low word enter the high one. */
  lemma ShiftPair(hi: nat, lo: U32, i: nat)
    requires i <= 32
    ensures Up(hi * 0x1_0000_0000 + lo, i) == (Up(hi, i) + Shr(lo, 32 - i)) * 0x1_0000_0000 + Shl(lo, i)
    ensures Or(Up(hi, i), Shr(lo, 32 - i)) == Up(hi, i) + Shr(lo, 32 - i)
  {
    hide Up, Down, Low, Pow2, Or;
    ShiftWord(lo, i, 32 - i);
    ShiftOut(lo, i);
    UpSum(hi * 0x1_0000_0000, lo, i);
    UpWord(hi);
    UpUp(hi, 32, i);
    UpUp(hi, i, 32);
    UpWord(Up(hi, i));
    OrDisjoint(hi, Shr(lo, 32 - i), i);
  }

  lemma {:induction false} OrSelf(a: nat)
    ensures Or(a, a) == a
    decreases a
  {
    if a == 0 {
    } else {
      OrSelf(a / 2);
    }
  }

  /** Putting a sign on a word. */
  lemma OrSign(h: U32, sx: U32)
    requires h < SIGN && (sx == 0 || sx == SIGN)
    ensures Or(h, sx) == h + sx && Or(sx, sx) == sx
  {
    Pow32();
    OrSelf(sx);
    UpOne(31);
    OrDisjoint(1, h, 31);
    OrZero(h);
  }

  lemma {:induction false} OrIsZero(a: nat, b: nat)
    ensures Or(a, b) == 0 <==> a == 0 && b == 0
    decreases a + b
  {
    if a == 0 && b == 0 {
    } else {
      OrIsZero(a / 2, b / 2);
    }
  }

  lemma {:induction false} XorSelf(a: nat)
    ensures Xor(a, a) == 0
    decreases a
  {
    if a == 0 {
    } else {
      XorSelf(a / 2);
    }
  }

  /** `(top + low) ^ top` removes the top field. */
  lemma {:induction false} XorTop(a: nat, b: nat, k: nat)
    requires b < Pow2(k)
    ensures Xor(Up(a, k) + b, Up(a, k)) == b
    decreases k
  {
    if k == 0 {
      XorSelf(a);
    } else {
      XorTop(a, b / 2, k - 1);
      XorStep(Up(a, k) + b, Up(a, k));
      assert (Up(a, k) + b) / 2 == Up(a, k - 1) + b / 2;
    }
  }

  // ---------- word pairs ----------

  function Wide(hi: int, lo: int): int {
    hi * 0x1_0000_0000 + lo
  }

  /** The doubling that every step of the routine performs on its word pair. */
  lemma DoublePair(hi: I32, lo: U32)
    requires 0 <= hi < SIGN / 2
    ensures Wide(hi + hi + Shr(And(lo, SIGN), 31), Unsigned(lo + lo)) == 2 * Wide(hi, lo)
    ensures 0 <= hi + hi + Shr(And(lo, SIGN), 31) < SIGN
  {
    AndSign(lo);
  }

  /** A nonzero number below 2^(k + 1) can have been doubled at most k times. */
  lemma ShiftCount(a: nat, i: nat, k: nat)
    requires 0 < a && Up(a, i) < Pow2(k + 1)
    ensures i <= k
  {
    UpOne(i);
    UpMonotone(1, a, i);
    if i > k {
      Monotone(k + 1, i);
    }
  }

  lemma {:induction false} UpGrows(a: nat, k: nat)
    ensures Up(a, k) >= a
  {
    if k == 0 {
    } else {
      UpGrows(a, k - 1);
    }
  }

  /** The low bits of a word, moved to its top. */
  lemma ShiftRemainder(hi: U32, n: nat, j: nat)
    requires n + j == 32
    ensures Shl(hi, j) == Up(Low(hi, n), j)
    ensures Up(hi, j) == Up(Down(hi, n), 32) + Shl(hi, j)
  {
    Pow32();
    UpSplit(hi, n, j);
    WordBound(Low(hi, n), j);
    SplitUnique(Down(hi, n), Up(Low(hi, n), j), 32);
  }

  /** Shifting a word pair right by less than a word. */
  lemma ShiftPairRight(hi: U32, lo: U32, n: nat)
    requires n <= 32
    ensures Down(Wide(hi, lo), n) == Wide(Shr(hi, n), Shl(hi, 32 - n) + Shr(lo, n))
    ensures Or(Shr(lo, n), Shl(hi, 32 - n)) == Or(Shl(hi, 32 - n), Shr(lo, n)) == Shl(hi, 32 - n) + Shr(lo, n) < WORD
  {
    hide Down, Low, Pow2, Up;
    var h, l, j := Low(hi, n), Down(lo, n), 32 - n;
    ShiftRemainder(hi, n, j);
    hide Or;
    assert Down(Wide(hi, lo), n) == Wide(Shr(hi, n), Shl(hi, j) + l) by {
      Split(lo, n);
      UpWord(hi);
      UpUp(hi, j, n);
      UpSum(Up(hi, j), l, n);
      UpWord(Shr(hi, n));
      SplitUnique(Up(hi, j) + l, Low(lo, n), n);
    }
    Pow32();
    DownBound(lo, j, n);
    UpBound(h, n, j);
    OrDisjoint(h, l, j);
  }

  lemma {:induction false} DownOr(a: nat, b: nat, k: nat)
    ensures Down(Or(a, b), k) == Or(Down(a, k), Down(b, k))
    decreases k
  {
    if k == 0 {
    } else {
      OrStep(a, b);
      DownOr(a / 2, b / 2, k - 1);
    }
  }

  // ---------- exclusive or ----------

  lemma {:induction false} XorBound(a: nat, b: nat, k: nat)
    requires a < Pow2(k) && b < Pow2(k)
    ensures Xor(a, b) < Pow2(k)
  {
    if k == 0 {
    } else {
      XorBound(a / 2, b / 2, k - 1);
      XorStep(a, b);
    }
  }

  lemma {:induction false} XorCommutes(a: nat, b: nat)
    ensures Xor(a, b) == Xor(b, a)
    decreases a + b
  {
    if a + b > 0 {
      XorStep(a, b);
      XorStep(b, a);
      XorCommutes(a / 2, b / 2);
    }
  }

  lemma {:induction false} XorAssociates(a: nat, b: nat, c: nat)
    ensures Xor(Xor(a, b), c) == Xor(a, Xor(b, c))
    decreases a + b + c
  {
    if a + b + c > 0 {
      XorStep(a, b);
      XorStep(b, c);
      XorStep(Xor(a, b), c);
      XorStep(a, Xor(b, c));
      XorAssociates(a / 2, b / 2, c / 2);
    }
  }

  lemma {:induction false} XorZero(a: nat)
    ensures Xor(a, 0) == a && Xor(0, a) == a
    decreases a
  {
    if a > 0 {
      XorStep(a, 0);
      XorStep(0, a);
      XorZero(a / 2);
    }
  }

  lemma {:induction false} XorDown(a: nat, b: nat, k: nat)
    ensures Down(Xor(a, b), k) == Xor(Down(a, k), Down(b, k))
    decreases k
  {
    if k == 0 {
    } else {
      XorStep(a, b);
      XorDown(a / 2, b / 2, k - 1);
    }
  }

  lemma XorPair(a: nat, x: nat, b: nat, y: nat)
    requires x < 2 && y < 2
    ensures Xor(2 * a + x, 2 * b + y) == 2 * Xor(a, b) + Bit(x != y)
  {
    hide Xor;
    XorStep(2 * a + x, 2 * b + y);
  }

  lemma LowPair(a: nat, x: nat, k: nat)
    requires x < 2 && k > 0
    ensures Low(2 * a + x, k) == 2 * Low(a, k - 1) + x
  {
    hide Pow2;
  }

  lemma {:induction false} XorLow(a: nat, b: nat, k: nat)
    ensures Low(Xor(a, b), k) == Xor(Low(a, k), Low(b, k))
    decreases k
  {
    hide Xor, Low;
    if k == 0 {
      XorZero(0);
    } else {
      var c, d, x, y := a / 2, b / 2, a % 2, b % 2;
      assert a == 2 * c + x && b == 2 * d + y;
      hide Xor, Low;
      XorPair(c, x, d, y);
      LowPair(Xor(c, d), Bit(x != y), k);
      LowPair(c, x, k);
      LowPair(d, y, k);
      XorPair(Low(c, k - 1), x, Low(d, k - 1), y);
      XorLow(c, d, k - 1);
    }
  }

  /** Only equal numbers cancel. */
  lemma XorCancels(a: nat, b: nat)
    ensures Xor(a, b) == 0 <==> a == b
  {
    XorSelf(a);
    XorSelf(b);
    XorAssociates(a, b, b);
    XorZero(a);
    XorZero(b);
  }
}
