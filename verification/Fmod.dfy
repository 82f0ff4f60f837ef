/** The shift-and-subtract remainder of src/MSL/e_fmod.c, proved exact: section 7.12.10.1 of C99. */
module Fmod {
  import opened Powers
  import opened Words
  import opened Doubles

  // ---------- the remainder on unbounded integers ----------

  /** k doubling steps, each preceded by a subtraction when b fits, and one last subtraction. */
  function Residue(a: nat, b: nat, k: nat): nat
    decreases k
  {
    var c := if a >= b then a - b else a;
    if k == 0 then c else Residue(2 * c, b, k - 1)
  }

  lemma OneMore(a: nat, b: nat, c: nat, k: nat, q: nat, rest: nat)
    requires a == c + b && Up(c, k) == q * b + rest
    ensures Up(a, k) == (q + Pow2(k)) * b + rest
  {
    hide Up, Pow2;
    UpSum(c, b, k);
    UpIsProduct(b, k);
    Distribute(q, Pow2(k), b);
  }

  lemma ResidueStep(a: nat, b: nat, k: nat)
    ensures var c := if a >= b then a - b else a;
            Residue(a, b, k) == if k == 0 then c else Residue(2 * c, b, k - 1)
  {
  }

  /** The steps compute the remainder of a * 2^k; `quotient` is the witness. */
  lemma {:induction false} ResidueIsRemainder(a: nat, b: nat, k: nat) returns (quotient: nat)
    requires a < 2 * b
    ensures Residue(a, b, k) < b && Up(a, k) == quotient * b + Residue(a, b, k)
    decreases k
  {
    var c := if a >= b then a - b else a;
    ResidueStep(a, b, k);
    if k == 0 {
      quotient := if a >= b then 1 else 0;
    } else {
      hide Residue, Up, Pow2;
      var q := ResidueIsRemainder(2 * c, b, k - 1);
      UpDouble(c, k - 1);
      quotient := if a >= b then q + Pow2(k) else q;
      if a >= b {
        OneMore(a, b, c, k, q, Residue(a, b, k));
      }
    }
  }

  lemma {:induction false} ResidueOfZero(b: nat, k: nat)
    requires b > 0
    ensures Residue(0, b, k) == 0
  {
    if k == 0 {
    } else {
      ResidueOfZero(b, k - 1);
    }
  }

  // ---------- binary exponents ----------

  /** e is the position of the leading bit of v. */
  ghost predicate Leading(v: nat, e: nat) {
    Pow2(e) <= v < Pow2(e + 1)
  }

  lemma {:induction false} LeadingUp(v: nat, e: nat, k: nat)
    ensures Leading(v, e) <==> Leading(Up(v, k), e + k)
  {
    if k == 0 {
    } else {
      LeadingUp(v, e, k - 1);
      assert Pow2(e + k) == 2 * Pow2(e + k - 1);
    }
  }

  lemma LeadingOrder(v: nat, d: nat, w: nat, e: nat)
    requires Leading(v, d) && Leading(w, e) && v >= w
    ensures d >= e
  {
    if d < e {
      Monotone(d + 1, e);
    }
  }

  /** Lines 59-61 and 68-70: counting the shifts that bring the leading bit of a word to the top.
      A set top bit makes the C int negative, which ends its loop. */
  method CountShifts(w: U32, start: I32) returns (ix: I32)
    requires w > 0 && start >= -1043
    ensures -1074 <= ix <= start && start - ix <= 31 && Leading(w, 31 - (start - ix))
  {
    ix := start;
    var i := w;
    ghost var c: nat := 0;
    while Signed(i) > 0
      invariant 0 < i == Up(w, c) && ix == start - c && c <= 31
      decreases WORD - i
    {
      Pow32();
      i := Unsigned(i + i);
      ix := ix - 1;
      c := c + 1;
      ShiftCount(w, c, 31);
    }
    Pow32();
    LeadingUp(w, 31 - c, c);
  }

  lemma LeadingWide(h: nat, l: U32, e: nat)
    requires Leading(h, e)
    ensures Leading(Wide(h, l), e + 32)
  {
    hide Pow2;
    LeadingUp(h, e, 32);
    UpWord(h);
    UpWord(h + 1);
    UpMonotone(h + 1, Pow2(e + 1), 32);
    UpOne(e + 1);
    UpUp(1, e + 1, 32);
    UpOne(e + 33);
  }

  /** Normal numbers, by their fields. */
  lemma NormalFields(d: Double)
    requires Finite(d) && Exponent(d) > 0
    ensures var s := Wide(0x10_0000 + Low(HiBody(d), 20), d.lo);
            && HIDDEN <= s < 2 * HIDDEN && HiBody(d) >= 0x10_0000 && Exponent(d) < 0x7ff
            && Magnitude(d) == Up(s, Exponent(d) - 1)
            && Leading(Magnitude(d), Exponent(d) + 51)
            && Up(Magnitude(d), 52) == Up(s, Exponent(d) + 51)
  {
    hide Pow2;
    Fields(d);
    Pow52();
    var s := Wide(0x10_0000 + Low(HiBody(d), 20), d.lo);
    assert Magnitude(d) == Up(s, Exponent(d) - 1);
    LeadingUp(s, 52, Exponent(d) - 1);
    UpUp(s, Exponent(d) - 1, 52);
  }

  lemma SubnormalFields(d: Double)
    requires Exponent(d) == 0
    ensures Magnitude(d) == Wide(HiBody(d), d.lo) < HIDDEN && HiBody(d) < 0x10_0000
  {
    Fields(d);
  }

  lemma ExponentZero(d: Double)
    ensures HiBody(d) < 0x10_0000 <==> Exponent(d) == 0
    ensures Exponent(d) == Shr(HiBody(d), 20)
  {
    Fields(d);
  }

  lemma ShiftHigh(h: U32)
    requires 0 < h < 0x10_0000
    ensures 0 < Shl(h, 11) == Up(h, 11)
  {
    Pow20();
    Pow32();
    UpBound(h, 20, 11);
    UpMonotone(0, h, 11);
    UpZero(11);
    DownSmall(Up(h, 11), 32);
  }

  /** The leading position of a shifted word is at least the shift. */
  lemma LeadingAtLeast(h: nat, k: nat, e: nat)
    requires h > 0 && Leading(Up(h, k), e)
    ensures e >= k && Leading(h, e - k)
  {
    UpMonotone(1, h, k);
    UpOne(k);
    LeadingOrder(Up(h, k), e, Pow2(k), k);
    LeadingUp(h, e - k, k);
  }

  lemma SubnormalLeading(v: nat, e: nat)
    requires v < HIDDEN && Leading(v, e)
    ensures e < 52
  {
    Pow52();
    if e >= 52 {
      Monotone(52, e);
    }
  }

  /** Lines 56-72: the binary exponent of a nonzero double, normal or not. */
  method Ilogb(h: U32, l: U32, ghost d: Double) returns (ix: I32)
    requires Finite(d) && Magnitude(d) > 0 && h == HiBody(d) && l == d.lo
    ensures -1074 <= ix <= 1023 && Leading(Magnitude(d), ix + 1074)
    ensures ix >= -1022 <==> Exponent(d) > 0
  {
    hide Leading, Up, Magnitude, Low, Exponent, Shl, Shr, Down, Finite, HiBody;
    if h < 0x10_0000 {
      ExponentZero(d);
      SubnormalFields(d);
      if h == 0 {
        ix := CountShifts(l, -1043);
      } else {
        ShiftHigh(h);
        ix := CountShifts(Shl(h, 11), -1022);
        LeadingAtLeast(h, 11, ix + 1053);
        LeadingWide(h, l, ix + 1042);
      }
      SubnormalLeading(Magnitude(d), ix + 1074);
    } else {
      ExponentZero(d);
      NormalFields(d);
      ix := Shr(h, 20) - 1023;
    }
  }

  lemma LeadingUnique(v: nat, d: nat, e: nat)
    requires Leading(v, d) && Leading(v, e)
    ensures d == e
  {
    LeadingOrder(v, d, v, e);
    LeadingOrder(v, e, v, d);
  }

  lemma LeadingBit(h: U32)
    ensures Or(0x0010_0000, And(0x000f_ffff, h)) == 0x10_0000 + Low(h, 20)
    ensures Low(h, 20) < 0x10_0000
  {
    Pow20();
    AndCommutes(0x000f_ffff, h);
    AndLow(h, 20);
    UpOne(20);
    OrDisjoint(1, Low(h, 20), 20);
  }

  lemma AlignedShort(h: U32, l: U32, n: nat)
    requires n <= 32 && Up(Wide(h, l), n) < 2 * HIDDEN
    ensures Up(Wide(h, l), n) == Wide(Or(Shl(h, n), Shr(l, 32 - n)), Shl(l, n))
  {
    ShiftPair(h, l, n);
    Pow32();
    assert Up(h, n) < WORD;
    DownSmall(Up(h, n), 32);
  }

  lemma UpWordGrows(h: nat, n: nat)
    requires n >= 32
    ensures Up(h, n) >= h * 0x1_0000_0000
  {
    UpUp(h, n - 32, 32);
    UpWord(Up(h, n - 32));
    UpGrows(h, n - 32);
  }

  lemma AlignedLong(h: U32, l: U32, n: nat)
    requires n >= 32 && Up(Wide(h, l), n) < 2 * HIDDEN
    ensures Up(Wide(h, l), n) == Wide(Shl(l, n - 32), 0)
  {
    UpGrows(h, n - 32);
    UpSum(h * 0x1_0000_0000, l, n);
    UpWord(h);
    UpUp(h, 32, n);
    UpUp(h, n, 32);
    UpWord(Up(h, n));
    UpUp(l, n - 32, 32);
    UpWord(Up(l, n - 32));
    UpWordGrows(h, n);
    Pow32();
    DownSmall(Up(l, n - 32), 32);
  }

  /** The shifted words of a subnormal, short shift or long. */
  lemma AlignedWords(h: U32, l: U32, n: nat, e: nat)
    requires Wide(h, l) < HIDDEN && Leading(Wide(h, l), e) && n == 52 - e
    ensures var v := Up(Wide(h, l), n);
            && HIDDEN <= v < 2 * HIDDEN && Up(v, e) == Up(Wide(h, l), 52)
            && (n <= 31 ==> v == Wide(Or(Shl(h, n), Shr(l, 32 - n)), Shl(l, n)))
            && (n > 31 ==> v == Wide(Shl(l, n - 32), 0))
  {
    LeadingUp(Wide(h, l), e, n);
    Pow52();
    UpUp(Wide(h, l), n, e);
    if n <= 31 {
      AlignedShort(h, l, n);
    } else {
      AlignedLong(h, l, n);
    }
  }

  /** Lines 75-98: the significand, with its leading bit at bit 20 of the high word. */
  method Align(h: U32, l: U32, ix: I32, ghost d: Double) returns (hx: I32, lx: U32)
    requires Finite(d) && Magnitude(d) > 0 && h == HiBody(d) && l == d.lo
    requires -1074 <= ix <= 1023 && Leading(Magnitude(d), ix + 1074)
    requires ix >= -1022 <==> Exponent(d) > 0
    ensures hx >= 0 && HIDDEN <= Wide(hx, lx) < 2 * HIDDEN
    ensures Up(Magnitude(d), 52) == Up(Wide(hx, lx), ix + 1074)
  {
    hide Up, Low, Leading, Magnitude, Exponent, Finite, And;
    if ix >= -1022 {
      NormalFields(d);
      LeadingUnique(Magnitude(d), ix + 1074, Exponent(d) + 51);
      LeadingBit(h);
      hx := Or(0x0010_0000, And(0x000f_ffff, h));
      lx := l;
    } else {
      SubnormalFields(d);
      var n: nat := -1022 - ix;
      AlignedWords(h, l, n, ix + 1074);
      if n <= 31 {
        hx := Or(Shl(h, n), Shr(l, 32 - n));
        lx := Shl(l, n);
      } else {
        hx := Shl(l, n - 32);
        lx := 0;
      }
    }
  }

  // ---------- the loop ----------

  /** Two-word subtraction with borrow; the sign of the high word is the sign of the difference. */
  lemma Difference(hx: int, lx: U32, hy: int, ly: U32)
    ensures var hz, lz := hx - hy - (if lx < ly then 1 else 0), Unsigned(lx - ly);
            Wide(hz, lz) == Wide(hx, lx) - Wide(hy, ly) && (hz < 0 <==> Wide(hx, lx) < Wide(hy, ly))
  {
  }

  lemma DoubleSmall(hx: nat, lx: U32)
    ensures Shr(lx, 31) <= 1
    ensures Wide(hx + hx + Shr(lx, 31), Unsigned(lx + lx)) == 2 * Wide(hx, lx)
  {
    AndSign(lx);
  }

  /** Lines 103-109: one turn of the loop; zero reports that nothing is left. */
  method SubtractAndShift(hx0: I32, lx0: U32, hy: I32, ly: U32) returns (zero: bool, hx: I32, lx: U32)
    requires hx0 >= 0 && hy >= 0 && HIDDEN <= Wide(hy, ly) < 2 * HIDDEN && Wide(hx0, lx0) < 2 * Wide(hy, ly)
    ensures zero ==> Wide(hx0, lx0) == Wide(hy, ly)
    ensures !zero ==>
              && hx >= 0
              && Wide(hx, lx)
                 == 2 * (Wide(hx0, lx0) - (if Wide(hx0, lx0) >= Wide(hy, ly) then Wide(hy, ly) else 0))
  {
    hide Shr, Bit, Or;
    hx, lx, zero := hx0, lx0, false;
    Difference(hx, lx, hy, ly);
    var hz: I32, lz: U32 := hx - hy, Unsigned(lx - ly);
    if lx < ly {
      hz := hz - 1;
    }
    if hz < 0 {
      DoubleSmall(hx, lx);
      hx := hx + hx + Shr(lx, 31);
      lx := Unsigned(lx + lx);
    } else {
      OrIsZero(hz, lz);
      if Or(hz, lz) == 0 {
        zero := true;
        return;
      }
      DoubleSmall(hz, lz);
      hx := hz + hz + Shr(lz, 31);
      lx := Unsigned(lz + lz);
    }
  }

  /** Lines 100-112: shift and subtract n times, then subtract once more; done reports the early exit
      on a zero difference. */
  method ShiftSubtract(hx0: I32, lx0: U32, hy: I32, ly: U32, n0: nat) returns (done: bool, hx: I32, lx: U32)
    requires hx0 >= 0 && hy >= 0 && HIDDEN <= Wide(hy, ly) < 2 * HIDDEN
    requires Wide(hx0, lx0) < 2 * Wide(hy, ly)
    ensures done ==> Residue(Wide(hx0, lx0), Wide(hy, ly), n0) == 0
    ensures !done ==> hx >= 0 && Residue(Wide(hx0, lx0), Wide(hy, ly), n0) == Wide(hx, lx)
  {
    hide Residue;
    ghost var b: nat := Wide(hy, ly);
    var n: nat := n0;
    hx, lx, done := hx0, lx0, false;
    while n != 0
      invariant hx >= 0 && Wide(hx, lx) < 2 * b && n <= n0 && !done
      invariant Residue(Wide(hx0, lx0), b, n0) == Residue(Wide(hx, lx), b, n)
    {
      ResidueStep(Wide(hx, lx), b, n);
      n := n - 1;
      done, hx, lx := SubtractAndShift(hx, lx, hy, ly);
      if done {
        ResidueOfZero(b, n);
        return;
      }
    }
    ResidueStep(Wide(hx, lx), b, 0);
    Difference(hx, lx, hy, ly);
    var hz: I32, lz: U32 := hx - hy, Unsigned(lx - ly);
    if lx < ly {
      hz := hz - 1;
    }
    if hz >= 0 {
      hx, lx := hz, lz;
    }
  }

  // ---------- back to a double ----------

  /** A nonzero value below the leading position of its exponent leaves room to shift. */
  lemma RoomToShift(v: nat, r: nat, e: nat)
    requires v > 0 && Up(v, 52) == Up(r, e) && r < HIDDEN
    ensures e > 0 && Up(v, 52) == Up(2 * r, e - 1)
  {
    Pow52();
    UpMonotone(1, v, 52);
    UpOne(52);
    if e > 0 {
      UpDouble(r, e - 1);
    }
  }

  /** Lines 117-120: the remainder is normalised and its exponent follows. */
  method NormalizeRemainder(hx0: I32, lx0: U32, iy0: I32, ghost v: nat) returns (hx: I32, lx: U32, iy: I32)
    requires hx0 >= 0 && Wide(hx0, lx0) < 2 * HIDDEN && v > 0
    requires -1074 <= iy0 <= 1023 && Up(v, 52) == Up(Wide(hx0, lx0), iy0 + 1074)
    ensures 0x10_0000 <= hx < 0x20_0000 && -1074 <= iy <= 1023
    ensures Up(v, 52) == Up(Wide(hx, lx), iy + 1074)
  {
    hide Shr, Up;
    hx, lx, iy := hx0, lx0, iy0;
    while hx < 0x0010_0000
      invariant 0 <= hx < 0x20_0000 && -1074 <= iy <= 1023
      invariant Up(v, 52) == Up(Wide(hx, lx), iy + 1074)
      decreases iy + 1074
    {
      RoomToShift(v, Wide(hx, lx), iy + 1074);
      DoubleSmall(hx, lx);
      hx := hx + hx + Shr(lx, 31);
      lx := Unsigned(lx + lx);
      iy := iy - 1;
    }
  }

  /** The shift back to a subnormal drops only zero bits. */
  lemma ExactShift(v: nat, r: nat, n: nat, e: nat)
    requires n + e == 52 && Up(v, 52) == Up(r, e)
    ensures r == Up(v, n) && Down(r, n) == v && Low(r, n) == 0
  {
    UpUp(v, n, e);
    UpMonotone(r, Up(v, n), e);
    UpMonotone(Up(v, n), r, e);
    SplitUnique(v, 0, n);
  }

  lemma ShrWord(h: U32, n: nat)
    ensures Shr(h, n) <= h
  {
  }

  lemma HighShiftedOut(h: U32, n: nat)
    requires h < 0x20_0000 && n >= 21
    ensures Shr(h, n) == 0
  {
    Pow20();
    Monotone(21, n);
    DownSmall(h, n);
  }

  lemma HighOnly(h: U32, l: U32, n: nat)
    requires n >= 32
    ensures Down(Wide(h, l), n) == Shr(h, n - 32)
  {
    Pow32();
    UpWord(h);
    SplitUnique(h, l, 32);
    DownDown(Wide(h, l), 32, n - 32);
  }

  /** Lines 126-137: the words of a subnormal result, with the sign put back. */
  method PackSubnormal(hx0: I32, lx0: U32, n: nat, sx: U32) returns (z: Double)
    requires 0 <= hx0 < 0x20_0000 && 0 < n <= 52 && (sx == 0 || sx == SIGN)
    ensures Body(z) == Down(Wide(hx0, lx0), n) && (Negative(z) <==> sx == SIGN)
  {
    hide Or, Shl, Shr, Down;
    var hx: U32, lx: U32 := hx0, lx0;
    if n <= 20 {
      ShiftPairRight(hx, lx, n);
      ShrWord(hx, n);
      lx := Or(Shr(lx, n), Shl(hx, 32 - n));
      hx := Shr(hx, n);
      OrSign(hx, sx);
    } else if n <= 31 {
      ShiftPairRight(hx, lx, n);
      HighShiftedOut(hx, n);
      OrSign(0, sx);
      lx := Or(Shl(hx, 32 - n), Shr(lx, n));
      hx := sx;
    } else {
      HighOnly(hx, lx, n);
      OrSign(0, sx);
      lx := Shr(hx, n - 32);
      hx := sx;
    }
    z := Double(Or(hx, sx), lx);
  }

  lemma PlaceExponent(fraction: nat, e: nat)
    requires fraction < 0x10_0000 && e < 0x800
    ensures Or(fraction, Shl(e, 20)) == fraction + e * 0x10_0000 == fraction + Shl(e, 20)
  {
    Pow20();
    Pow32();
    UpIsProduct(e, 20);
    DownSmall(Up(e, 20), 32);
    OrDisjoint(e, fraction, 20);
  }

  /** Lines 122-124: a normal result. */
  method PackNormal(hx: I32, lx: U32, iy: I32, sx: U32) returns (z: Double)
    requires 0x10_0000 <= hx < 0x20_0000 && -1022 <= iy <= 1023 && (sx == 0 || sx == SIGN)
    ensures Body(z) == Wide(hx, lx) + 0x10_0000_0000_0000 * (iy + 1022) && (Negative(z) <==> sx == SIGN)
  {
    hide Or, Shl;
    PlaceExponent(hx - 0x10_0000, iy + 1023);
    OrSign(hx + 0x10_0000 * (iy + 1022), sx);
    hide Or, Shl;
    var h: U32 := Or(hx - 0x0010_0000, Shl(iy + 1023, 20));
    z := Double(Or(h, sx), lx);
  }

  lemma NormalValue(z: Double, v: nat, r: nat, e: nat)
    requires HIDDEN <= r < 2 * HIDDEN && e <= 2045
    requires Up(v, 52) == Up(r, e + 52) && Body(z) == r + 0x10_0000_0000_0000 * e
    ensures Finite(z) && Magnitude(z) == v
  {
    hide Pow2;
    FiniteBody(z);
    Assemble(r, e);
    UpUp(r, e, 52);
    UpMonotone(v, Up(r, e), 52);
    UpMonotone(Up(r, e), v, 52);
  }

  lemma SubnormalValue(z: Double, v: nat, r: nat, n: nat, e: nat)
    requires n + e == 52 && n > 0 && r < 2 * HIDDEN
    requires Up(v, 52) == Up(r, e) && Body(z) == Down(r, n)
    ensures Finite(z) && Magnitude(z) == v
  {
    ExactShift(v, r, n, e);
    FiniteBody(z);
    UpDouble(v, n - 1);
    UpGrows(2 * v, n - 1);
    Subnormal(v);
  }

  /** Lines 117-139: from the remainder words to the result. */
  method PackRemainder(hx0: I32, lx0: U32, iy0: I32, sx: U32, ghost v: nat) returns (z: Double)
    requires hx0 >= 0 && Wide(hx0, lx0) < 2 * HIDDEN && v > 0 && (sx == 0 || sx == SIGN)
    requires -1074 <= iy0 <= 1023 && Up(v, 52) == Up(Wide(hx0, lx0), iy0 + 1074)
    ensures Finite(z) && Magnitude(z) == v && (Negative(z) <==> sx == SIGN)
  {
    var hx, lx, iy := NormalizeRemainder(hx0, lx0, iy0, v);
    if iy >= -1022 {
      z := PackNormal(hx, lx, iy, sx);
      NormalValue(z, v, Wide(hx, lx), iy + 1022);
    } else {
      z := PackSubnormal(hx, lx, -1022 - iy, sx);
      SubnormalValue(z, v, Wide(hx, lx), -1022 - iy, iy + 1074);
    }
  }

  // ---------- the routine ----------

  lemma UpScale(q: nat, b: nat, k: nat)
    ensures Up(q * b, k) == q * Up(b, k)
  {
    UpIsProduct(q * b, k);
    UpIsProduct(b, k);
    Associate(q, b, Pow2(k));
  }

  /** The aligned significands and their exponents give the remainder of the values. */
  lemma RemainderValue(vx: nat, vy: nat, a: nat, b: nat, n: nat, e: nat)
    requires Up(vx, 52) == Up(a, n + e) && Up(vy, 52) == Up(b, e) && a < 2 * b && vy > 0
    ensures Residue(a, b, n) < b && Up(vx % vy, 52) == Up(Residue(a, b, n), e)
  {
    hide Pow2, Up;
    var q := ResidueIsRemainder(a, b, n);
    var rest := Residue(a, b, n);
    hide Up, Residue;
    calc {
      Up(vx, 52);
      { UpUp(a, n, e); UpSum(q * b, rest, e); }
      Up(q * b, e) + Up(rest, e);
      { UpScale(q, b, e); UpScale(q, vy, 52); }
      Up(q * vy, 52) + Up(rest, e);
    }
    UpMonotone(rest, b, e);
    UpMonotone(q * vy, vx, 52);
    UpMonotone(vx, q * vy, 52);
    UpSum(q * vy, vx - q * vy, 52);
    UpMonotone(vx - q * vy, vy, 52);
    UpMonotone(vy, vx - q * vy, 52);
    DivUnique(vx, vy, q, vx - q * vy);
  }

  lemma ZeroValue(sx: U32)
    requires sx == 0 || sx == SIGN
    ensures var z := Double(sx, 0); Finite(z) && Magnitude(z) == 0 && (Negative(z) <==> sx == SIGN)
  {
    var z := Double(sx, 0);
    assert Body(z) == 0;
    FiniteBody(z);
    Subnormal(0);
  }

  lemma ZeroRemainder(v: nat, e: nat)
    requires Up(v, 52) == Up(0, e)
    ensures v == 0
  {
    UpZero(e);
    UpGrows(v, 52);
  }

  lemma NonZeroRemainder(v: nat, r: nat, e: nat)
    requires Up(v, 52) == Up(r, e) && r > 0
    ensures v > 0
  {
    UpGrows(r, e);
    UpZero(52);
  }

  /** Lines 56-139 when |x| > |y|. */
  method Reduce(hx0: U32, lx0: U32, hy0: U32, ly0: U32, sx: U32, ghost x: Double, ghost y: Double) returns (z: Double)
    requires Finite(x) && hx0 == HiBody(x) && lx0 == x.lo && Finite(y) && hy0 == HiBody(y) && ly0 == y.lo
    requires 0 < Magnitude(y) <= Magnitude(x) && (sx == 0 || sx == SIGN)
    ensures Finite(z) && Magnitude(z) == Magnitude(x) % Magnitude(y) && (Negative(z) <==> sx == SIGN)
  {
    hide Up, Residue, Finite, Magnitude, Negative, HiBody, Pow2;
    var ix := Ilogb(hx0, lx0, x);
    var iy := Ilogb(hy0, ly0, y);
    LeadingOrder(Magnitude(x), ix + 1074, Magnitude(y), iy + 1074);
    var hx, lx := Align(hx0, lx0, ix, x);
    var hy, ly := Align(hy0, ly0, iy, y);
    RemainderValue(Magnitude(x), Magnitude(y), Wide(hx, lx), Wide(hy, ly), ix - iy, iy + 1074);
    ghost var v := Magnitude(x) % Magnitude(y);
    var rx, rl, done := 0, 0, false;
    done, rx, rl := ShiftSubtract(hx, lx, hy, ly, ix - iy);
    OrIsZero(if done then 0 else rx, rl);
    if done || Or(rx, rl) == 0 {
      ZeroRemainder(v, iy + 1074);
      ZeroValue(sx);
      return Double(sx, 0);
    }
    NonZeroRemainder(v, Wide(rx, rl), iy + 1074);
    z := PackRemainder(rx, rl, iy, sx, v);
  }

  /** Unsigned negation of a word. */
  function Negated(w: U32): U32 {
    if w == 0 then 0 else WORD - w
  }

  lemma FoldedWord(l: U32)
    ensures Shr(Or(l, Negated(l)), 31) == (if l == 0 then 0 else 1)
  {
    DownOr(l, Negated(l), 31);
    AndSign(l);
    AndSign(Negated(l));
    OrZero(0);
    OrZero(1);
    OrSelf(1);
  }

  lemma OrBit(h: nat)
    ensures Or(h, 1) == h - h % 2 + 1
  {
    OrStep(h, 1);
    OrZero(h / 2);
  }

  /** Line 48: the NaN test on y folds the low word into one bit. */
  lemma NaNTest(y: Double)
    ensures Or(HiBody(y), Shr(Or(y.lo, Negated(y.lo)), 31)) > 0x7ff0_0000 <==> IsNaN(y)
  {
    var h, fold := HiBody(y), Shr(Or(y.lo, Negated(y.lo)), 31);
    FoldedWord(y.lo);
    OrBit(h);
    OrZero(h);
    hide Or, Shr;
    assert fold == 0 ==> Or(h, fold) == h;
    assert fold == 1 ==> Or(h, fold) == h - h % 2 + 1;
  }

  /** What lines 42-44 compute, in terms of the two doubles. */
  lemma SignSplit(x: Double, y: Double)
    ensures And(x.hi, SIGN) == (if Negative(x) then SIGN else 0)
    ensures Xor(x.hi, And(x.hi, SIGN)) == HiBody(x) && And(y.hi, 0x7fff_ffff) == HiBody(y)
    ensures Or(HiBody(y), y.lo) == 0 <==> Magnitude(y) == 0
    ensures HiBody(x) >= 0x7ff0_0000 <==> !Finite(x)
    ensures (HiBody(y) >= 0x7ff0_0000 <==> !Finite(y)) && !(Finite(y) && IsNaN(y))
    ensures Or(HiBody(y), Shr(Or(y.lo, Negated(y.lo)), 31)) > 0x7ff0_0000 <==> IsNaN(y)
  {
    hide Finite, Pow2, Up;
    ExponentTests(x);
    ExponentTests(y);
    Pow32();
    UpOne(31);
    UpZero(31);
    XorTop(if Negative(x) then 1 else 0, HiBody(x), 31);
    ClassTests(y);
    FiniteBody(x);
    FiniteBody(y);
    NaNTest(y);
  }

  /** Comparing words compares magnitudes; smaller ones are their own remainders. */
  lemma BodyComparison(x: Double, y: Double)
    requires Magnitude(y) > 0
    ensures HiBody(x) < HiBody(y) || (HiBody(x) == HiBody(y) && x.lo < y.lo) ==>
              Magnitude(x) % Magnitude(y) == Magnitude(x)
    ensures HiBody(x) == HiBody(y) && x.lo == y.lo ==> Magnitude(x) % Magnitude(y) == 0
    ensures HiBody(x) > HiBody(y) || (HiBody(x) == HiBody(y) && x.lo > y.lo) ==> Magnitude(x) > Magnitude(y)
  {
    hide BodyValue;
    if Body(x) < Body(y) {
      BodyOrder(Body(x), Body(y));
      DivUnique(Magnitude(x), Magnitude(y), 0, Magnitude(x));
    } else if Body(x) == Body(y) {
      DivUnique(Magnitude(x), Magnitude(y), 1, 0);
    } else {
      BodyOrder(Body(y), Body(x));
    }
  }

  /** `__ieee754_fmod`: exact for all finite x and nonzero y, and the sign is the sign of x. */
  method Fmod(x: Double, y: Double) returns (r: Result)
    ensures Magnitude(y) == 0 || !Finite(x) || IsNaN(y) ==> r == NotANumber
    ensures Magnitude(y) != 0 && Finite(x) && !Finite(y) && !IsNaN(y) ==> r == Number(x)
    ensures Magnitude(y) != 0 && Finite(x) && Finite(y) ==>
              && r.Number? && Finite(r.value) && (Negative(r.value) <==> Negative(x))
              && Magnitude(r.value) == Magnitude(x) % Magnitude(y)
  {
    SignSplit(x, y);
    hide And, Or, Xor, Shr, Magnitude, Finite, IsNaN, Negative, HiBody, Negated;
    var hx: U32, lx, hy: U32, ly := x.hi, x.lo, y.hi, y.lo;
    var sx: U32 := And(hx, SIGN);
    hx := Xor(hx, sx);
    hy := And(hy, 0x7fff_ffff);
    if Or(hy, ly) == 0 || hx >= 0x7ff0_0000 || Or(hy, Shr(Or(ly, Negated(ly)), 31)) > 0x7ff0_0000 {
      return NotANumber;
    }
    BodyComparison(x, y);
    if hx <= hy {
      if hx < hy || lx < ly {
        return Number(x);
      }
      if lx == ly {
        ZeroValue(sx);
        return Number(Double(sx, 0));
      }
    }
    var z := Reduce(hx, lx, hy, ly, sx, x, y);
    r := Number(z);
  }

  lemma NegateProduct(a: int, b: int)
    ensures (-a) * b == -(a * b) && a * (-b) == -(a * b) && (-a) * (-b) == a * b
  {
  }

  /** Section 7.12.10.1 of C99 in its own words: x - n * y for an integer n, with the sign of x and
      a magnitude below that of y. */
  lemma RemainderLaw(x: Double, y: Double, z: Double) returns (n: int)
    requires Magnitude(y) > 0 && (Negative(z) <==> Negative(x))
    requires Magnitude(z) == Magnitude(x) % Magnitude(y)
    ensures Units(z) == Units(x) - n * Units(y) && Magnitude(z) < Magnitude(y)
  {
    hide Magnitude, Negative;
    var m, v := Magnitude(y), Magnitude(x);
    var q := v / m;
    assert v == q * m + Magnitude(z);
    NegateProduct(q, m);
    n := if Negative(x) == Negative(y) then q else -q;
  }
}
