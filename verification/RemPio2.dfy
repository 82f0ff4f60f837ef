/** The integer arithmetic of the reduction modulo pi/2, src/MSL/k_rem_pio2.c: products are distilled into
    24-bit limbs, the quotient is split off, and the rest is taken to the nearest multiple. The doubles of
    these steps hold integers, or integers in units of a power of two, so integers stand for them. */
module RemPio2 {
  import opened Powers
  import opened Words

  // ---------- limbs ----------

  /** Limbs in ascending order, below a top part of weight 2^(24 |s|). */
  function LimbsOn(s: seq<int>, top: int): int {
    if s == [] then top else LimbsOn(s[..|s| - 1], s[|s| - 1] + 0x100_0000 * top)
  }

  function Zeros(n: nat): (s: seq<int>)
    ensures |s| == n
  {
    seq(n, _ => 0)
  }

  ghost predicate Limbs(s: seq<int>) {
    forall i :: 0 <= i < |s| ==> 0 <= s[i] < 0x100_0000
  }

  lemma LimbsSnoc(s: seq<int>, a: int, top: int)
    ensures LimbsOn(s + [a], top) == LimbsOn(s, a + 0x100_0000 * top)
  {
    assert (s + [a])[..|s|] == s;
  }

  lemma ZerosSnoc(n: nat, top: int)
    ensures LimbsOn(Zeros(n + 1), top) == LimbsOn(Zeros(n), 0x100_0000 * top)
  {
    assert Zeros(n + 1) == Zeros(n) + [0];
    LimbsSnoc(Zeros(n), 0, top);
  }

  lemma NoLimbs(top: int)
    ensures LimbsOn([], top) == top
  {
  }

  /** Top parts add up. */
  lemma {:induction false} TopAdds(s: seq<int>, a: int, b: int)
    ensures LimbsOn(s, a + b) == LimbsOn(s, b) + LimbsOn(Zeros(|s|), a)
    decreases |s|
  {
    hide LimbsOn;
    if s == [] {
      NoLimbs(a + b);
      NoLimbs(a);
      NoLimbs(b);
      assert Zeros(0) == [];
    } else {
      var n := |s| - 1;
      assert s == s[..n] + [s[n]];
      LimbsSnoc(s[..n], s[n], a + b);
      LimbsSnoc(s[..n], s[n], b);
      ZerosSnoc(n, a);
      TopAdds(s[..n], 0x100_0000 * a, s[n] + 0x100_0000 * b);
    }
  }

  /** A multiple on top is a multiple of the unit. */
  lemma {:induction false} TopTimes(n: nat, m: int, one: int)
    ensures LimbsOn(Zeros(n), one * m) == LimbsOn(Zeros(n), one) * m
    decreases n
  {
    hide LimbsOn;
    if n == 0 {
      assert Zeros(0) == [];
      NoLimbs(one * m);
      NoLimbs(one);
    } else {
      ZerosSnoc(n - 1, one * m);
      ZerosSnoc(n - 1, one);
      Associate(0x100_0000, one, m);
      TopTimes(n - 1, m, 0x100_0000 * one);
    }
  }

  lemma {:induction false} ZerosGrow(n: nat, a: int, b: int)
    requires a <= b
    ensures LimbsOn(Zeros(n), a) <= LimbsOn(Zeros(n), b)
    decreases n
  {
    hide LimbsOn;
    if n == 0 {
      assert Zeros(0) == [];
      NoLimbs(a);
      NoLimbs(b);
    } else {
      ZerosSnoc(n - 1, a);
      ZerosSnoc(n - 1, b);
      ZerosGrow(n - 1, 0x100_0000 * a, 0x100_0000 * b);
    }
  }

  /** Limbs below never reach the next unit. */
  lemma {:induction false} LimbsBound(s: seq<int>, top: int)
    requires Limbs(s)
    ensures LimbsOn(Zeros(|s|), top) <= LimbsOn(s, top) < LimbsOn(Zeros(|s|), top + 1)
    decreases |s|
  {
    hide LimbsOn;
    if s == [] {
      assert Zeros(0) == [];
      NoLimbs(top);
      NoLimbs(top + 1);
    } else {
      var n := |s| - 1;
      assert s == s[..n] + [s[n]];
      LimbsSnoc(s[..n], s[n], top);
      ZerosSnoc(n, top);
      ZerosSnoc(n, top + 1);
      LimbsBound(s[..n], s[n] + 0x100_0000 * top);
      ZerosGrow(n, 0x100_0000 * top, s[n] + 0x100_0000 * top);
      ZerosGrow(n, s[n] + 0x100_0000 * top + 1, 0x100_0000 * (top + 1));
    }
  }

  // ---------- distilling ----------

  /** The total of the products q[0], ..., q[j], each of which weighs 2^24 times the next. */
  function Total(q: seq<int>, j: int): int
    requires -1 <= j < |q|
    decreases j + 1
  {
    if j < 0 then 0 else q[j] + 0x100_0000 * Total(q, j - 1)
  }

  lemma TotalStep(q: seq<int>, j: int)
    requires -1 <= j < |q|
    ensures Total(q, j) == if j < 0 then 0 else q[j] + 0x100_0000 * Total(q, j - 1)
  {
  }

  /** Lines 193-198: limbs come off the end of q, carries go on to the next product; the total stays. For
      products below 2^50, as sums of three products of 24-bit factors are, every intermediate value is
      an exact double and every conversion fits an int. */
  method Distill(q: array<int>, iq: array<int>, jz: nat) returns (z: int)
    requires jz < q.Length && jz <= iq.Length && q != iq
    requires forall j :: 0 <= j <= jz ==> 0 <= q[j] < 0x4_0000_0000_0000
    modifies iq
    ensures LimbsOn(iq[..jz], z) == Total(q[..], jz) && Limbs(iq[..jz])
    ensures 0 <= z < 0x8_0000_0000_0000
  {
    hide LimbsOn, Total;
    z := q[jz];
    var i, j := 0, jz;
    TotalStep(q[..], jz);
    NoLimbs(Total(q[..], jz));
    assert iq[..0] == [];
    while j > 0
      invariant 0 <= j <= jz && i + j == jz && 0 <= z < 0x8_0000_0000_0000
      invariant LimbsOn(iq[..i], z + 0x100_0000 * Total(q[..], j - 1)) == Total(q[..], jz) && Limbs(iq[..i])
    {
      ghost var before := iq[..i];
      var fw := z / 0x100_0000;
      iq[i] := z - 0x100_0000 * fw;
      assert iq[..i + 1] == before + [iq[i]];
      z := q[j - 1] + fw;
      TotalStep(q[..], j - 1);
      LimbsSnoc(before, iq[i], z + 0x100_0000 * Total(q[..], j - 2));
      i, j := i + 1, j - 1;
    }
    TotalStep(q[..], -1);
  }

  // ---------- one minus the fraction ----------

  predicate SomeNonzero(s: seq<int>) {
    exists i :: 0 <= i < |s| && s[i] != 0
  }

  function ComplementLimb(a: int, carry: bool): int {
    if carry then 0xff_ffff - a else if a != 0 then 0x100_0000 - a else a
  }

  /** The limbs after the complement loop. */
  function Complement(s: seq<int>): (c: seq<int>)
    ensures |c| == |s|
  {
    if s == [] then []
    else Complement(s[..|s| - 1]) + [ComplementLimb(s[|s| - 1], SomeNonzero(s[..|s| - 1]))]
  }

  lemma NonzeroSnoc(s: seq<int>, a: int)
    ensures SomeNonzero(s + [a]) <==> SomeNonzero(s) || a != 0
  {
    if SomeNonzero(s) {
      var i :| 0 <= i < |s| && s[i] != 0;
      assert (s + [a])[i] != 0;
    }
    assert (s + [a])[|s|] == a;
  }

  lemma ComplementSnoc(s: seq<int>, a: int)
    ensures Complement(s + [a]) == Complement(s) + [ComplementLimb(a, SomeNonzero(s))]
    ensures SomeNonzero(s + [a]) <==> SomeNonzero(s) || a != 0
  {
    hide SomeNonzero, ComplementLimb;
    assert (s + [a])[..|s|] == s;
    NonzeroSnoc(s, a);
  }

  lemma NoComplement()
    ensures Complement([]) == [] && !SomeNonzero([])
  {
  }

  /** Limbs and their complement fill the unit; the carry is clear exactly if all limbs are zero. */
  lemma {:induction false} ComplementValue(s: seq<int>, f: int, one: int)
    ensures LimbsOn(Complement(s), one - f - (if SomeNonzero(s) then 1 else 0)) + LimbsOn(s, f)
         == LimbsOn(Zeros(|s|), one)
    decreases |s|
  {
    hide LimbsOn, Complement, SomeNonzero;
    if s == [] {
      NoComplement();
      NoLimbs(one - f);
      NoLimbs(f);
      NoLimbs(one);
      assert Zeros(0) == [];
    } else {
      var n := |s| - 1;
      var low, a := s[..n], s[n];
      assert s == low + [a];
      ComplementSnoc(low, a);
      LimbsSnoc(Complement(low), ComplementLimb(a, SomeNonzero(low)), one - f - (if SomeNonzero(s) then 1 else 0));
      LimbsSnoc(low, a, f);
      ZerosSnoc(n, one);
      ComplementValue(low, a + 0x100_0000 * f, 0x100_0000 * one);
    }
  }

  lemma {:induction false} ComplementLimbs(s: seq<int>)
    requires Limbs(s)
    ensures Limbs(Complement(s))
    decreases |s|
  {
    hide SomeNonzero;
    if s != [] {
      ComplementLimbs(s[..|s| - 1]);
    }
  }

  /** Lines 215-223. */
  method ComplementLoop(iq: array<int>, jz: nat) returns (carry: bool)
    requires jz <= iq.Length
    modifies iq
    ensures iq[..jz] == Complement(old(iq[..jz])) && carry == SomeNonzero(old(iq[..jz]))
  {
    hide Complement, SomeNonzero;
    ghost var was := iq[..jz];
    carry := false;
    NoComplement();
    var i := 0;
    assert was[..0] == [] && iq[..0] == [];
    while i < jz
      invariant 0 <= i <= jz && iq[..i] == Complement(was[..i]) && carry == SomeNonzero(was[..i])
      invariant forall k :: i <= k < jz ==> iq[k] == was[k]
    {
      ghost var before := iq[..i];
      assert was[..i + 1] == was[..i] + [was[i]];
      ComplementSnoc(was[..i], was[i]);
      var j := iq[i];
      if !carry {
        if j != 0 {
          carry := true;
          iq[i] := 0x100_0000 - j;
        }
      } else {
        iq[i] := 0xff_ffff - j;
      }
      assert iq[..i + 1] == before + [iq[i]];
      i := i + 1;
    }
    assert was[..jz] == was;
  }

  // ---------- the nearest multiple ----------

  /** What the whole multiples are counted in, above the limbs that hold only fraction. */
  function One(q0: int): (one: nat)
    ensures one >= 1
  {
    if q0 >= 2 then 0x40_0000 else if q0 == 1 then 0x80_0000 else if q0 == 0 then 0x100_0000 else Pow2(-q0)
  }

  /** The number of limbs that hold only fraction: with q0 >= 0 the last limb holds whole multiples too. */
  function FractionLimbs(jz: nat, q0: int): nat
    requires jz > 0
  {
    if q0 >= 0 then jz - 1 else jz
  }

  /** The unit: 2^(24 jz - q0), the value of one multiple of pi/2 in the weight of the lowest limb. */
  function Unit(jz: nat, q0: int): int
    requires jz > 0
  {
    LimbsOn(Zeros(FractionLimbs(jz, q0)), One(q0))
  }

  lemma LimbWeight(k: nat)
    ensures Pow2(k + 24) == 0x100_0000 * Pow2(k)
  {
    Pow16();
    Add(16, 8);
    Add(24, k);
  }

  lemma {:induction false} ZerosPower(n: nat, one: nat, k: nat)
    requires one == Pow2(k)
    ensures LimbsOn(Zeros(n), one) == Pow2(24 * n + k)
    decreases n
  {
    hide LimbsOn, Pow2;
    if n == 0 {
      assert Zeros(0) == [];
      NoLimbs(one);
    } else {
      ZerosSnoc(n - 1, one);
      LimbWeight(k);
      ZerosPower(n - 1, 0x100_0000 * one, k + 24);
    }
  }

  lemma PowerOfZero()
    ensures Pow2(0) == 1
  {
  }

  lemma Pow22()
    ensures Pow2(22) == 0x40_0000 && Pow2(23) == 0x80_0000
  {
    Pow16();
    Add(16, 7);
    Add(7, 15);
  }

  lemma OneIsPower(q0: int)
    requires q0 <= 2
    ensures One(q0) == Pow2(if q0 >= 0 then 24 - q0 else -q0)
  {
    hide Pow2;
    Pow22();
    LimbWeight(0);
    assert Pow2(0) == 1 by {
      PowerOfZero();
    }
  }

  /** The unit is a power of two. */
  lemma UnitIsPower(jz: nat, q0: int)
    requires jz > 0 && q0 <= 2
    ensures Unit(jz, q0) == Pow2(24 * jz - q0)
  {
    hide LimbsOn, Pow2;
    OneIsPower(q0);
    ZerosPower(FractionLimbs(jz, q0), One(q0), if q0 >= 0 then 24 - q0 else -q0);
  }

  /** A fraction: limbs below a rest that is counted in 1/One(q0) for negative q0, and is zero otherwise. */
  ghost predicate IsFraction(s: seq<int>, rest: int, q0: int) {
    && |s| > 0 && Limbs(s)
    && (if q0 >= 0 then rest == 0 && s[|s| - 1] < One(q0) else 0 <= rest < One(q0))
  }

  /** The highest part of a fraction, which decides whether it reaches one half. */
  function Highest(s: seq<int>, rest: int, q0: int): int
    requires |s| > 0
  {
    if q0 >= 0 then s[|s| - 1] else rest
  }

  lemma FractionOn(s: seq<int>, rest: int, q0: int)
    requires IsFraction(s, rest, q0)
    ensures LimbsOn(s, rest) == LimbsOn(s[..FractionLimbs(|s|, q0)], Highest(s, rest, q0))
  {
    hide LimbsOn;
    var n := |s| - 1;
    if q0 >= 0 {
      assert s == s[..n] + [s[n]];
      LimbsSnoc(s[..n], s[n], rest);
    } else {
      assert s[..|s|] == s;
    }
  }

  lemma EvenOne(q0: int)
    requires q0 <= 2
    ensures One(q0) % 2 == 0 && One(q0) >= 2
  {
  }

  /** A fraction lies below the unit, and reaches its half exactly if its highest part does. */
  lemma FractionHalf(s: seq<int>, rest: int, q0: int)
    requires IsFraction(s, rest, q0) && q0 <= 2
    ensures 0 <= LimbsOn(s, rest) < Unit(|s|, q0)
    ensures 2 * LimbsOn(s, rest) >= Unit(|s|, q0) <==> 2 * Highest(s, rest, q0) >= One(q0)
  {
    FractionOn(s, rest, q0);
    var low, f, one := s[..FractionLimbs(|s|, q0)], Highest(s, rest, q0), One(q0);
    EvenOne(q0);
    hide LimbsOn, One;
    var half := one / 2;
    LimbsBound(low, f);
    ZerosGrow(|low|, 0, f);
    ZerosGrow(|low|, f + 1, one);
    TopTimes(|low|, 2, half);
    TopTimes(|low|, 0, half);
    if f >= half {
      ZerosGrow(|low|, half, f);
    } else {
      ZerosGrow(|low|, f + 1, half);
    }
  }

  /** Splitting whole multiples off the highest part. */
  lemma SplitOff(low: seq<int>, one: int, m: int, f: int)
    ensures LimbsOn(low, one * m + f) == LimbsOn(Zeros(|low|), one) * m + LimbsOn(low, f)
  {
    TopAdds(low, one * m, f);
    TopTimes(|low|, m, one);
  }

  lemma DivMod(a: int, m: nat)
    requires m > 0
    ensures a == m * (a / m) + a % m && 0 <= a % m < m
  {
  }

  lemma Positive8(q: int, one: nat, r: int)
    requires one > 0 && q == r / one && r >= 0
    ensures q >= 0
  {
  }

  /** Taking eights and then ones off. */
  lemma EightsAndOnes(z: nat, one: nat)
    requires one > 0
    ensures var r := z % (8 * one);
            z == one * (8 * (z / (8 * one)) + r / one) + r % one && 0 <= r % one < one && 0 <= r / one < 8
  {
    var k := z / (8 * one);
    var r := z % (8 * one);
    DivMod(z, 8 * one);
    DivMod(r, one);
    assert (8 * one) * k == one * (8 * k) by {
      Associate(one, 8, k);
    }
    MulLess(r / one, 8, one);
    Positive8(r / one, one, r);
    Distribute(8 * k, r / one, one);
  }

  /** Lines 201-204: whole multiples above the limbs, modulo eight. */
  method TrimEights(z: nat, q0: int) returns (n: nat, rest: nat, ghost k: nat)
    requires q0 <= 2
    ensures n < 8
    ensures q0 >= 0 ==> rest == 0 && 8 * k + n == if q0 == 2 then 4 * z else if q0 == 1 then 2 * z else z
    ensures q0 < 0 ==> rest < Pow2(-q0) && z == Pow2(-q0) * (8 * k + n) + rest
  {
    hide Pow2;
    var scaled: nat := if q0 == 2 then 4 * z else if q0 == 1 then 2 * z else z;
    var unit := if q0 >= 0 then 1 else Pow2(-q0);
    EightsAndOnes(scaled, unit);
    k := scaled / (8 * unit);
    scaled := scaled % (8 * unit);
    n := scaled / unit;
    rest := scaled % unit;
  }

  /** Lines 205-212: with q0 > 0 the last limb holds whole multiples too. */
  method TrimTop(iq: array<int>, jz: nat, n0: nat, rest: nat, q0: int) returns (n: nat, ih: nat)
    requires 0 < jz <= iq.Length && q0 <= 2 && 0 <= iq[jz - 1] < 0x100_0000 && (q0 >= 0 ==> rest == 0)
    modifies iq
    ensures iq[..jz] == old(iq[..jz])[jz - 1 := iq[jz - 1]] && n >= n0
    ensures q0 == 2 ==> 0 <= iq[jz - 1] < 0x40_0000 && old(iq[jz - 1]) == 0x40_0000 * (n - n0) + iq[jz - 1]
    ensures q0 == 1 ==> 0 <= iq[jz - 1] < 0x80_0000 && old(iq[jz - 1]) == 0x80_0000 * (n - n0) + iq[jz - 1]
    ensures q0 <= 0 ==> n == n0 && iq[jz - 1] == old(iq[jz - 1])
    ensures ih > 0 <==> 2 * (if q0 >= 0 then iq[jz - 1] else rest) >= One(q0)
    ensures ih == 2 <==> ih > 0 && q0 < 0
  {
    hide Pow2;
    n, ih := n0, 0;
    if q0 > 0 {
      var i := if q0 == 1 then iq[jz - 1] / 0x80_0000 else iq[jz - 1] / 0x40_0000;
      n := n + i;
      iq[jz - 1] := iq[jz - 1] - (if q0 == 1 then i * 0x80_0000 else i * 0x40_0000);
      ih := if q0 == 1 then iq[jz - 1] / 0x40_0000 else iq[jz - 1] / 0x20_0000;
    } else if q0 == 0 {
      ih := iq[jz - 1] / 0x80_0000;
    } else if 2 * rest >= Pow2(-q0) {
      ih := 2;
    }
  }

  /** The highest part before is the multiples and the highest part after. */
  lemma SplitDone(was: seq<int>, now: seq<int>, z: nat, q0: int, m: nat, rest: int)
    requires Limbs(was) && q0 <= 2 && |now| == |was| > 0
    requires var n := |was| - 1; var t, t' := was[n], now[n];
             && now == was[..n] + [t'] && (q0 >= 0 ==> rest == 0)
             && (q0 == 2 ==> 0 <= t' < 0x40_0000 && t + 0x100_0000 * z == 0x40_0000 * m + t')
             && (q0 == 1 ==> 0 <= t' < 0x80_0000 && t + 0x100_0000 * z == 0x80_0000 * m + t')
             && (q0 == 0 ==> t' == t && z == m)
             && (q0 < 0 ==> t' == t && 0 <= rest < Pow2(-q0) && z == Pow2(-q0) * m + rest)
    ensures LimbsOn(was, z) == Unit(|was|, q0) * m + LimbsOn(now, rest)
    ensures IsFraction(now, rest, q0) && Highest(now, rest, q0) == if q0 >= 0 then now[|was| - 1] else rest
  {
    hide LimbsOn, Pow2;
    var n := |was| - 1;
    assert was == was[..n] + [was[n]] && was[..|was|] == was;
    assert now[..n] == was[..n];
    LimbsSnoc(was[..n], was[n], z);
    FractionOn(now, rest, q0);
    SplitOff(was[..FractionLimbs(|was|, q0)], One(q0), m, Highest(now, rest, q0));
  }

  /** Lines 201-212. Whole multiples are split off: their number modulo 8, and whether the fraction that
      is left reaches one half. */
  method SplitQuotient(iq: array<int>, jz: nat, z: nat, q0: int) returns (n: nat, ih: nat, rest: nat, ghost k: nat)
    requires 0 < jz <= iq.Length && q0 <= 2 && Limbs(iq[..jz])
    modifies iq
    ensures LimbsOn(old(iq[..jz]), z) == Unit(jz, q0) * (8 * k + n) + LimbsOn(iq[..jz], rest)
    ensures IsFraction(iq[..jz], rest, q0)
    ensures ih > 0 <==> 2 * Highest(iq[..jz], rest, q0) >= One(q0)
    ensures ih == 2 <==> ih > 0 && q0 < 0
  {
    hide LimbsOn, Pow2, Unit, IsFraction, Highest, One;
    ghost var was := iq[..jz];
    assert iq[jz - 1] == was[jz - 1];
    n, rest, k := TrimEights(z, q0);
    n, ih := TrimTop(iq, jz, n, rest, q0);
    assert iq[..jz] == was[..jz - 1] + [iq[jz - 1]];
    SplitDone(was, iq[..jz], z, q0, 8 * k + n, rest);
  }

  lemma MaskedBits(c: nat, k: nat)
    ensures And(c, Pow2(k) - 1) == c % Pow2(k)
  {
    hide And, Low, Down, Pow2;
    AndLow(c, k);
    DownIsQuotient(c, k);
  }

  /** The mask on the last limb takes the whole multiples off its complement. */
  lemma MaskTop(t: nat, carry: bool, q0: int)
    requires 0 <= q0 <= 2 && 0 < t < One(q0)
    ensures ComplementLimb(t, carry) >= 0
    ensures (if q0 == 1 then And(ComplementLimb(t, carry), 0x7f_ffff)
             else if q0 == 2 then And(ComplementLimb(t, carry), 0x3f_ffff)
             else ComplementLimb(t, carry)) == One(q0) - t - (if carry then 1 else 0)
  {
    hide And, Pow2;
    Pow22();
    if q0 > 0 {
      MaskedBits(ComplementLimb(t, carry), 24 - q0);
    }
  }

  /** With q0 >= 0 the last limb is the highest part, and the mask takes the whole multiples off it. */
  lemma ComplementedTop(s: seq<int>, q0: int, c: seq<int>)
    requires IsFraction(s, 0, q0) && 0 <= q0 <= 2 && 2 * Highest(s, 0, q0) >= One(q0)
    requires var n := |s| - 1; var t := Complement(s)[n];
             && t >= 0
             && c == (if q0 == 1 then Complement(s)[n := And(t, 0x7f_ffff)]
                      else if q0 == 2 then Complement(s)[n := And(t, 0x3f_ffff)] else Complement(s))
    ensures LimbsOn(c, 0) == Unit(|s|, q0) - LimbsOn(s, 0)
    ensures IsFraction(c, 0, q0)
  {
    hide LimbsOn, Complement, SomeNonzero, And, Pow2;
    var n, low := |s| - 1, s[..|s| - 1];
    assert s == low + [s[n]];
    LimbsSnoc(low, s[n], 0);
    ComplementLimbs(s);
    ComplementSnoc(low, s[n]);
    ComplementValue(low, s[n], One(q0));
    MaskTop(s[n], SomeNonzero(low), q0);
    assert c == Complement(low) + [c[n]];
    LimbsSnoc(Complement(low), c[n], 0);
  }

  /** The loop, the mask and the rest: together they turn a fraction of at least one half into what it lacks
      to the unit. */
  lemma Complemented(s: seq<int>, rest: int, q0: int, c: seq<int>, rest': int)
    requires IsFraction(s, rest, q0) && q0 <= 2 && 2 * Highest(s, rest, q0) >= One(q0)
    requires var n := |s| - 1; var t := Complement(s)[n];
             && t >= 0
             && c == (if q0 == 1 then Complement(s)[n := And(t, 0x7f_ffff)]
                      else if q0 == 2 then Complement(s)[n := And(t, 0x3f_ffff)] else Complement(s))
    requires rest' == if q0 < 0 then One(q0) - rest - (if SomeNonzero(s) then 1 else 0) else rest
    ensures LimbsOn(c, rest') == Unit(|s|, q0) - LimbsOn(s, rest)
    ensures IsFraction(c, rest', q0)
  {
    hide LimbsOn, Complement, SomeNonzero, And, One, Limbs;
    if q0 >= 0 {
      ComplementedTop(s, q0, c);
    } else {
      ComplementLimbs(s);
      ComplementValue(s, rest, One(q0));
    }
  }

  lemma ComplementTop(s: seq<int>)
    requires Limbs(s) && |s| > 0
    ensures Complement(s)[|s| - 1] >= 0
  {
    ComplementLimbs(s);
  }

  /** Lines 214-236, for a fraction of at least one half. */
  method TakeComplement(iq: array<int>, jz: nat, rest: int, q0: int) returns (rest': int)
    requires 0 < jz <= iq.Length && q0 <= 2 && IsFraction(iq[..jz], rest, q0)
    requires 2 * Highest(iq[..jz], rest, q0) >= One(q0)
    modifies iq
    ensures LimbsOn(iq[..jz], rest') == Pow2(24 * jz - q0) - LimbsOn(old(iq[..jz]), rest)
    ensures IsFraction(iq[..jz], rest', q0)
  {
    hide LimbsOn, Complement, SomeNonzero, And, Pow2, Unit;
    UnitIsPower(jz, q0);
    ghost var was := iq[..jz];
    ComplementTop(was);
    var carry := ComplementLoop(iq, jz);
    if q0 > 0 {
      if q0 == 1 {
        iq[jz - 1] := And(iq[jz - 1], 0x7f_ffff);
      } else {
        iq[jz - 1] := And(iq[jz - 1], 0x3f_ffff);
      }
    }
    rest' := rest;
    if q0 < 0 {
      rest' := One(q0) - rest';
      if carry {
        rest' := rest' - 1;
      }
    }
    Complemented(was, rest, q0, iq[..jz], rest');
  }

  /** Lines 193-236: the products are reduced to the nearest multiple. Their total is n units modulo eight
      units, plus or minus what the limbs and the rest hold, which is at most half a unit. */
  method Reduce(q: array<int>, iq: array<int>, jz: nat, q0: int)
    returns (n: nat, negative: bool, rest: int, ghost k: nat)
    requires 0 < jz < q.Length && jz <= iq.Length && q != iq && q0 <= 2
    requires forall j :: 0 <= j <= jz ==> 0 <= q[j] < 0x4_0000_0000_0000
    modifies iq
    ensures Total(q[..], jz)
         == Pow2(24 * jz - q0) * (8 * k + n) + (if negative then -LimbsOn(iq[..jz], rest) else LimbsOn(iq[..jz], rest))
    ensures 0 <= 2 * LimbsOn(iq[..jz], rest) <= Pow2(24 * jz - q0)
    ensures IsFraction(iq[..jz], rest, q0)
  {
    hide LimbsOn, Unit, One, Highest, IsFraction, Total, Pow2;
    UnitIsPower(jz, q0);
    var z := Distill(q, iq, jz);
    var ih;
    n, ih, rest, k := SplitQuotient(iq, jz, z, q0);
    FractionHalf(iq[..jz], rest, q0);
    negative := ih > 0;
    if ih > 0 {
      Distribute(8 * k + n, 1, Unit(jz, q0));
      n := n + 1;
      rest := TakeComplement(iq, jz, rest, q0);
    }
  }

  lemma NonzeroExists(s: seq<int>)
    requires SomeNonzero(s)
    ensures |s| > 0
  {
  }

  /** Lines 258-271: leading zero limbs are dropped, or the rest becomes one or two more limbs. The value and
      the weight of the lowest limb stay, and the highest limb is not zero. */
  method Settle(iq: array<int>, jz: nat, rest: nat, q0: int) returns (jz': nat, q0': int)
    requires jz + 1 < iq.Length && Limbs(iq[..jz]) && rest < 0x1_0000_0000_0000
    requires rest == 0 ==> SomeNonzero(iq[..jz])
    modifies iq
    ensures jz' < iq.Length && LimbsOn(iq[..jz' + 1], 0) == LimbsOn(old(iq[..jz]), rest)
    ensures Limbs(iq[..jz' + 1]) && iq[jz'] != 0
    ensures q0' - 24 * jz' == q0 - 24 * jz
  {
    hide LimbsOn, SomeNonzero;
    ghost var was := iq[..jz];
    if rest == 0 {
      NonzeroExists(was);
      jz', q0' := jz - 1, q0 - 24;
      assert iq[..jz' + 1] == was;
      while iq[jz'] == 0
        invariant 0 <= jz' < jz && SomeNonzero(iq[..jz' + 1]) && LimbsOn(iq[..jz' + 1], 0) == LimbsOn(was, 0)
        invariant q0' - 24 * jz' == q0 - 24 * jz && iq[..jz] == was
        decreases jz'
      {
        assert iq[..jz' + 1] == iq[..jz'] + [0];
        NonzeroSnoc(iq[..jz'], 0);
        LimbsSnoc(iq[..jz'], 0, 0);
        NonzeroExists(iq[..jz']);
        jz', q0' := jz' - 1, q0' - 24;
      }
    } else {
      jz', q0' := jz, q0;
      if rest >= 0x100_0000 {
        var fw := rest / 0x100_0000;
        iq[jz'] := rest - 0x100_0000 * fw;
        jz', q0' := jz' + 1, q0' + 24;
        iq[jz'] := fw;
        assert iq[..jz' + 1] == (was + [iq[jz]]) + [fw];
        LimbsSnoc(was + [iq[jz]], fw, 0);
        LimbsSnoc(was, iq[jz], fw);
      } else {
        iq[jz'] := rest;
        assert iq[..jz' + 1] == was + [rest];
        LimbsSnoc(was, rest, 0);
      }
    }
  }
}
