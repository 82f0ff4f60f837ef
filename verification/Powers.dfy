/** Powers of two, and the few facts about products and quotients that the word-level proofs use. */
module Powers {
  function Pow2(n: nat): (p: nat)
    ensures p >= 1
  {
    if n == 0 then 1 else 2 * Pow2(n - 1)
  }

  lemma Distribute(a: int, b: int, m: int)
    ensures (a + b) * m == a * m + b * m
  {
  }

  lemma Associate(a: int, b: int, c: int)
    ensures a * (b * c) == (a * b) * c
  {
  }

  lemma Positive(d: int, m: nat)
    requires d > 0 && m > 0
    ensures d * m >= m && d * m >= d
  {
    Distribute(d - 1, 1, m);
    assert (d - 1) * m >= 0;
    assert d * (m - 1) >= 0;
    Distribute(m - 1, 1, d);
  }

  lemma MulLess(a: int, b: int, m: nat)
    requires m > 0
    ensures a < b <==> a * m < b * m
    ensures a <= b <==> a * m <= b * m
    ensures a < b ==> a * m + m <= b * m
  {
    Distribute(b - a, a, m);
    if a < b {
      Positive(b - a, m);
    } else if b < a {
      Positive(a - b, m);
      Distribute(a - b, b, m);
    }
  }

  lemma {:induction false} Add(a: nat, b: nat)
    ensures Pow2(a + b) == Pow2(a) * Pow2(b)
  {
    if a == 0 {
    } else {
      Add(a - 1, b);
      assert Pow2(a + b) == 2 * Pow2(a - 1 + b);
      Associate(2, Pow2(a - 1), Pow2(b));
    }
  }

  lemma {:induction false} Monotone(a: nat, b: nat)
    requires a <= b
    ensures Pow2(a) <= Pow2(b)
    decreases b
  {
    if a == b {
    } else {
      Monotone(a, b - 1);
    }
  }

  // The constants written out in the sources.

  lemma Pow16()
    ensures Pow2(7) == 0x80 && Pow2(8) == 0x100 && Pow2(15) == 0x8000 && Pow2(16) == 0x1_0000
  {
    Add(8, 8);
  }

  lemma Pow20()
    ensures Pow2(11) == 0x800 && Pow2(20) == 0x10_0000 && Pow2(21) == 0x20_0000
  {
    assert Pow2(10) == 0x400;
    Add(10, 10);
  }

  lemma Pow32()
    ensures Pow2(31) == 0x8000_0000 && Pow2(32) == 0x1_0000_0000
  {
    Pow20();
    Add(20, 11);
  }

  lemma Pow52()
    ensures Pow2(52) == 0x10_0000_0000_0000 && Pow2(53) == 0x20_0000_0000_0000
  {
    Pow20();
    Pow32();
    Add(32, 20);
  }

  /** A quotient and a remainder pin each other down. */
  lemma DivUnique(a: nat, m: nat, q: nat, r: nat)
    requires m > 0 && r < m && a == q * m + r
    ensures a / m == q && a % m == r
  {
    var t := a / m;
    assert a == t * m + a % m;
    if q < t {
      MulLess(q, t, m);
      assert false;
    } else if t < q {
      MulLess(t, q, m);
      assert false;
    }
  }
}
