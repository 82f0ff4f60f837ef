/** The bit-serial CRC-16 of src/RVLFaceLib/RFL_Database.c, generator x^16 + x^12 + x^5 + 1 (the
    polynomial of section 2 of ITU-T V.41). Message bits enter at the low end of the register. */
module Crc {
  import opened Powers
  import opened Words

  type U8 = w: int | 0 <= w < 0x100
  type U16 = w: int | 0 <= w < 0x1_0000

  const GENERATOR: U16 := 0x1021

  // ---------- the register ----------

  /** The exclusive or of two 16-bit words. */
  function Xor16(a: U16, b: U16): U16 {
    Pow16();
    XorBound(a, b, 16);
    Xor(a, b)
  }

  /** One round of the inner loop: shift, reduce when a one falls out, let the message bit in. */
  function Step(crc: U16, bit: bool): U16 {
    var shifted: U16 := if crc >= 0x8000 then Xor16(2 * crc - 0x1_0000, GENERATOR) else 2 * crc;
    if bit then Xor16(shifted, 1) else shifted
  }

  function Run(bits: seq<bool>, crc: U16): U16 {
    if bits == [] then crc else Run(bits[1..], Step(crc, bits[0]))
  }

  /** The n bits of w, most significant first. */
  function MsbBits(w: nat, n: nat): (bits: seq<bool>)
    ensures |bits| == n
  {
    if n == 0 then [] else [w >= Pow2(n - 1)] + MsbBits(Low(w, n - 1), n - 1)
  }

  function Bits(buffer: seq<U8>): (bits: seq<bool>)
    ensures |bits| == 8 * |buffer|
  {
    if buffer == [] then [] else MsbBits(buffer[0], 8) + Bits(buffer[1..])
  }

  /** The checksum of a buffer. */
  function Check(buffer: seq<U8>): U16 {
    Run(Bits(buffer), 0)
  }

  lemma {:induction false} RunAppend(a: seq<bool>, b: seq<bool>, crc: U16)
    ensures Run(a + b, crc) == Run(b, Run(a, crc))
  {
    if a == [] {
      assert a + b == b;
    } else {
      assert (a + b)[1..] == a[1..] + b;
      RunAppend(a[1..], b, Step(crc, a[0]));
    }
  }

  lemma {:induction false} BitsAppend(a: seq<U8>, b: seq<U8>)
    ensures Bits(a + b) == Bits(a) + Bits(b)
  {
    if a == [] {
      assert a + b == b;
    } else {
      assert (a + b)[1..] == a[1..] + b;
      BitsAppend(a[1..], b);
    }
  }

  // ---------- the one-shot loop ----------

  /** `data & 0x80` and `data <<= 1` on a byte. */
  lemma ByteTop(data: U8)
    ensures And(data, 0x80) != 0 <==> data >= 0x80
  {
    Pow16();
    TopBit(data, 7);
  }

  lemma RegisterTop(crc: U16)
    ensures And(crc, 0x8000) != 0 <==> crc >= 0x8000
  {
    Pow16();
    TopBit(crc, 15);
  }

  /** Shifting a 16-bit or an 8-bit variable left by one drops its top bit. */
  lemma Truncated(crc: U16, data: U8)
    ensures 2 * crc % 0x1_0000 == (if crc >= 0x8000 then 2 * crc - 0x1_0000 else 2 * crc)
    ensures 2 * data % 0x100 == (if data >= 0x80 then 2 * data - 0x100 else 2 * data)
  {
  }

  /** The top bit of the shifted byte is the next message bit. */
  lemma TopOfByte(rest: nat, j: nat, data: U8)
    requires j < 8 && rest < Pow2(8 - j) && data == Up(rest, j)
    ensures data >= 0x80 <==> rest >= Pow2(7 - j)
    ensures Up(Low(rest, 7 - j), j + 1) == (if data >= 0x80 then 2 * data - 0x100 else 2 * data)
  {
    Pow16();
    var p := Pow2(7 - j);
    TopBit(rest, 7 - j);
    UpOne(7 - j);
    UpUp(1, 7 - j, j);
    UpOne(7);
    assert Up(p, j) == 0x80;
    hide Low, Down, Pow2;
    UpMonotone(rest, p, j);
    if rest >= p {
      UpSum(rest - p, p, j);
    }
  }

  lemma NextBit(w: nat, n: nat, crc: U16)
    requires n > 0
    ensures Run(MsbBits(w, n), crc) == Run(MsbBits(Low(w, n - 1), n - 1), Step(crc, w >= Pow2(n - 1)))
  {
    assert MsbBits(w, n)[1..] == MsbBits(Low(w, n - 1), n - 1);
  }

  /** Lines 650-664: the inner loop on one byte. */
  method FeedByte(crc0: U16, byte: U8) returns (crc: U16)
    ensures crc == Run(MsbBits(byte, 8), crc0)
  {
    hide Pow2, And, Low, MsbBits;
    crc := crc0;
    var data: U8 := byte;
    var j := 0;
    ghost var rest: nat := byte;
    Pow16();
    hide And, Up, Low, MsbBits, Run, Xor16;
    while j < 8
      invariant 0 <= j <= 8 && rest < Pow2(8 - j)
      invariant data == Up(rest, j)
      invariant Run(MsbBits(byte, 8), crc0) == Run(MsbBits(rest, 8 - j), crc)
    {
      ByteTop(data);
      RegisterTop(crc);
      Truncated(crc, data);
      TopOfByte(rest, j, data);
      NextBit(rest, 8 - j, crc);
      if And(crc, 0x8000) != 0 {
        crc := 2 * crc % 0x1_0000;
        crc := Xor16(crc, 0x1021);
      } else {
        crc := 2 * crc % 0x1_0000;
      }
      if And(data, 0x80) != 0 {
        crc := Xor16(crc, 0x1);
      }
      data := 2 * data % 0x100;
      rest := Low(rest, 7 - j);
      j := j + 1;
    }
  }

  function Xors(a: seq<bool>, b: seq<bool>): (c: seq<bool>)
    requires |a| == |b|
    ensures |c| == |a|
  {
    seq(|a|, i requires 0 <= i < |a| => a[i] != b[i])
  }

  function Zeros(n: nat): (z: seq<bool>)
    ensures |z| == n
  {
    seq(n, _ => false)
  }

  /** The 17 coefficients of x^16 + x^12 + x^5 + 1, highest first. */
  function GeneratorBits(): (bits: seq<bool>)
    ensures |bits| == 17
  {
    seq(17, i => i == 16 - 16 || i == 16 - 12 || i == 16 - 5 || i == 16 - 0)
  }

  /** The product of a polynomial over GF(2) and the generator, by schoolbook multiplication. */
  function TimesGenerator(q: seq<bool>): (product: seq<bool>)
    ensures |product| == |q| + 16
  {
    if q == [] then Zeros(16)
    else
      var rest := [false] + TimesGenerator(q[1..]);
      if q[0] then Xors(GeneratorBits() + Zeros(|q| - 1), rest) else rest
  }

  /** A buffer of n bytes is a multiple of the generator plus r. Sixteen zeros in front do not change the polynomial,
      and make room for a remainder in short buffers. */
  ghost predicate IsRemainder(buffer: seq<U8>, r: U16) {
    exists q :: |q| == 8 * |buffer| &&
      Zeros(16) + Bits(buffer) == Xors(TimesGenerator(q), Zeros(|q|) + MsbBits(r, 16))
  }

  lemma StepZero(crc: U16)
    ensures Step(crc, false) == 0 <==> crc == 0
  {
    if crc >= 0x8000 {
      XorCancels(2 * crc - 0x1_0000, GENERATOR);
    }
  }

  /** Zero bits move the register without losing anything: only zero becomes zero. */
  lemma {:induction false} ZerosKeep(n: nat, crc: U16)
    ensures Run(Zeros(n), crc) == 0 <==> crc == 0
  {
    if n == 0 {
    } else {
      assert Zeros(n)[1..] == Zeros(n - 1);
      StepZero(crc);
      ZerosKeep(n - 1, Step(crc, false));
    }
  }

  function Incoming(bit: bool): U16 {
    if bit then 1 else 0
  }

  lemma StepUnreduced(crc: U16, bit: bool)
    requires crc < 0x8000
    ensures Step(crc, bit) == 2 * crc + Incoming(bit)
  {
    XorStep(2 * crc, 1);
    XorZero(crc);
  }

  /** Up to sixteen bits enter the register unreduced. */
  lemma {:induction false} ShortRun(w: nat, n: nat, crc: U16)
    requires w < Pow2(n) && Up(crc, n) + w < 0x1_0000
    ensures Run(MsbBits(w, n), crc) == Up(crc, n) + w
  {
    hide Low, MsbBits, Xor;
    if n == 0 {
    } else {
      var bit := w >= Pow2(n - 1);
      NextBit(w, n, crc);
      hide Run, MsbBits, Step, Low, Down;
      UpDouble(crc, n - 1);
      UpGrows(2 * crc, n - 1);
      StepUnreduced(crc, bit);
      TopBit(w, n - 1);
      UpSum(2 * crc, Incoming(bit), n - 1);
      UpOne(n - 1);
      UpZero(n - 1);
      ShortRun(Low(w, n - 1), n - 1, Step(crc, bit));
    }
  }

  lemma TailRun(n: nat, w: U16)
    ensures Run(Zeros(n) + MsbBits(w, 16), 0) == w
  {
    RunAppend(Zeros(n), MsbBits(w, 16), 0);
    ZerosKeep(n, 0);
    Pow16();
    UpZero(16);
    ShortRun(w, 16, 0);
  }

  function Reduction(crc: U16): U16 {
    if crc >= 0x8000 then GENERATOR else 0
  }

  lemma StepForm(crc: U16, bit: bool)
    ensures Step(crc, bit) == Xor(Xor(2 * Low(crc, 15), Reduction(crc)), Incoming(bit))
  {
    Pow16();
    TopBit(crc, 15);
    XorZero(2 * crc);
    XorZero(Xor(2 * Low(crc, 15), Reduction(crc)));
  }

  lemma ReductionLinear(c: U16, d: U16)
    ensures Reduction(Xor16(c, d)) == Xor(Reduction(c), Reduction(d))
  {
    hide Xor;
    Pow16();
    TopBit(c, 15);
    TopBit(d, 15);
    TopBit(Xor16(c, d), 15);
    XorDown(c, d, 15);
    XorSelf(GENERATOR);
    XorZero(GENERATOR);
    XorZero(0);
    XorSelf(1);
    XorZero(1);
  }

  lemma XorSwap(a: nat, b: nat, c: nat, d: nat)
    ensures Xor(Xor(a, b), Xor(c, d)) == Xor(Xor(a, c), Xor(b, d))
  {
    XorAssociates(a, b, Xor(c, d));
    XorAssociates(b, c, d);
    XorCommutes(b, c);
    XorAssociates(c, b, d);
    XorAssociates(a, c, Xor(b, d));
  }

  lemma XorDoubles(a: nat, b: nat)
    ensures Xor(2 * a, 2 * b) == 2 * Xor(a, b)
  {
    XorStep(2 * a, 2 * b);
  }

  lemma XorIncoming(x: bool, y: bool)
    ensures Incoming(x != y) == Xor(Incoming(x), Incoming(y))
  {
    XorSelf(1);
    XorZero(1);
    XorZero(0);
  }

  lemma StepLinear(c: U16, d: U16, x: bool, y: bool)
    ensures Step(Xor16(c, d), x != y) == Xor16(Step(c, x), Step(d, y))
  {
    hide Pow2, Step, Reduction, Incoming, Xor, Low;
    var s, t := 2 * Low(c, 15), 2 * Low(d, 15);
    XorLow(c, d, 15);
    XorDoubles(Low(c, 15), Low(d, 15));
    XorIncoming(x, y);
    StepForm(c, x);
    StepForm(d, y);
    StepForm(Xor16(c, d), x != y);
    ReductionLinear(c, d);
    XorSwap(s, t, Reduction(c), Reduction(d));
    XorSwap(Xor(s, Reduction(c)), Xor(t, Reduction(d)), Incoming(x), Incoming(y));
  }

  lemma {:induction false} Linear(a: seq<bool>, b: seq<bool>, c: U16, d: U16)
    requires |a| == |b|
    ensures Run(Xors(a, b), Xor16(c, d)) == Xor16(Run(a, c), Run(b, d))
  {
    hide Step, Xor16;
    if a == [] {
    } else {
      StepLinear(c, d, a[0], b[0]);
      assert Xors(a, b)[1..] == Xors(a[1..], b[1..]);
      Linear(a[1..], b[1..], Step(c, a[0]), Step(d, b[0]));
    }
  }

  lemma RunXors(a: seq<bool>, b: seq<bool>)
    requires |a| == |b|
    ensures Run(Xors(a, b), 0) == Xor16(Run(a, 0), Run(b, 0))
  {
    XorZero(0);
    Linear(a, b, 0, 0);
  }

  lemma ConcatTop(a: nat, m: nat, b: nat, n: nat)
    requires m > 0 && a < Pow2(m) && b < Pow2(n)
    ensures Up(a, n) + b >= Pow2(m + n - 1) <==> a >= Pow2(m - 1)
    ensures Low(Up(a, n) + b, m + n - 1) == Up(Low(a, m - 1), n) + b
  {
    hide Pow2, Low, Up, Down, And;
    var p, w := Pow2(m - 1), Up(a, n) + b;
    hide Low, Down, Up;
    UpOne(m - 1);
    UpUp(1, m - 1, n);
    UpOne(m - 1 + n);
    UpMonotone(a, p, n);
    UpBound(a, m, n);
    TopBit(w, m + n - 1);
    TopBit(a, m - 1);
    if a >= p {
      UpSum(a - p, p, n);
    } else {
      UpBound(a, m - 1, n);
    }
  }

  lemma {:induction false} MsbConcat(a: nat, m: nat, b: nat, n: nat)
    requires a < Pow2(m) && b < Pow2(n)
    ensures MsbBits(Up(a, n) + b, m + n) == MsbBits(a, m) + MsbBits(b, n)
  {
    hide Low;
    if m == 0 {
      UpZero(n);
    } else {
      ConcatTop(a, m, b, n);
      MsbConcat(Low(a, m - 1), m - 1, b, n);
    }
  }

  lemma {:induction false} ZeroBits(n: nat)
    ensures MsbBits(0, n) == Zeros(n)
  {
    if n == 0 {
    } else {
      DownSmall(0, n - 1);
      ZeroBits(n - 1);
      assert Zeros(n) == [false] + Zeros(n - 1);
    }
  }

  lemma OneBit()
    ensures MsbBits(1, 1) == [true]
  {
  }

  lemma UnitBits(n: nat)
    ensures MsbBits(1, n + 1) == Zeros(n) + [true]
  {
    hide MsbBits, Low;
    ZeroBits(n);
    UpZero(1);
    MsbConcat(0, n, 1, 1);
    OneBit();
  }

  lemma ConstantBytes(zero: nat)
    requires zero == 0
    ensures MsbBits(0x10, 8) == Zeros(3) + [true] + Zeros(4)
    ensures MsbBits(0x21, 8) == Zeros(2) + [true] + Zeros(4) + [true]
  {
    hide MsbBits, Low;
    assert Up(1, 4) == 16 && Up(2, 4) == 32 && Up(1, 1) == 2 && Pow2(4) == 16 && Pow2(3) == 8;
    UnitBits(3);
    UnitBits(2);
    ZeroBits(4);
    ZeroBits(1);
    MsbConcat(1, 4, zero, 4);
    MsbConcat(2, 4, 1, 4);
    MsbConcat(1, 3, zero, 1);
    assert Zeros(2) + [true] + Zeros(1) + (Zeros(3) + [true]) == Zeros(2) + [true] + Zeros(4) + [true];
  }

  /** The constant of the source holds the coefficients below the leading one. */
  lemma GeneratorConstant()
    ensures GeneratorBits()[1..] == MsbBits(GENERATOR, 16)
  {
    hide MsbBits;
    Pow16();
    UpIsProduct(0x10, 8);
    MsbConcat(0x10, 8, 0x21, 8);
    ConstantBytes(0);
    assert GeneratorBits()[1..] == (Zeros(3) + [true] + Zeros(4)) + (Zeros(2) + [true] + Zeros(4) + [true]);
  }

  lemma CancellingStep()
    ensures Step(0x8810, true) == 0
  {
    hide Step, Xor, Low, Down, And;
    var w: U16 := 0x8810;
    Pow16();
    TopBit(w, 15);
    StepForm(w, true);
    var h := 0x810;
    assert Xor(2 * h + 0, 2 * h + 1) == 1 by {
      XorPair(h, 0, h, 1);
      XorSelf(h);
    }
    XorSelf(1);
  }

  lemma LastStep()
    ensures Run(MsbBits(1, 1), 0x8810) == 0
  {
    OneBit();
    CancellingStep();
    hide Step, MsbBits;
    assert Run([true], 0x8810) == Run([], Step(0x8810, true));
  }

  /** The leading one and the generator below it cancel on the last of the 17 bits. */
  lemma OneThenGenerator()
    ensures Run(MsbBits(GENERATOR, 16), Step(0, true)) == 0
  {
    XorZero(1);
    Pow16();
    UpOne(15);
    MsbConcat(0x810, 15, 1, 1);
    RunAppend(MsbBits(0x810, 15), MsbBits(1, 1), 1);
    ShortRun(0x810, 15, 1);
    LastStep();
  }

  lemma GeneratorVanishes(n: nat)
    ensures Run(GeneratorBits() + Zeros(n), 0) == 0
  {
    hide MsbBits;
    RunAppend(GeneratorBits(), Zeros(n), 0);
    GeneratorConstant();
    OneThenGenerator();
    ZerosKeep(n, 0);
  }

  /** Multiples of the generator have checksum zero. */
  lemma {:induction false} MultiplesVanish(q: seq<bool>)
    ensures Run(TimesGenerator(q), 0) == 0
  {
    hide Step, Xor, MsbBits;
    if q == [] {
      ZerosKeep(16, 0);
    } else {
      var rest := [false] + TimesGenerator(q[1..]);
      assert rest[1..] == TimesGenerator(q[1..]);
      StepZero(0);
      MultiplesVanish(q[1..]);
      GeneratorVanishes(|q| - 1);
      RunXors(GeneratorBits() + Zeros(|q| - 1), rest);
      XorZero(0);
    }
  }

  /** One row of the division: the leading bit is cleared by subtracting the generator. */
  function Reduced(message: seq<bool>): (rest: seq<bool>)
    requires |message| >= 17
    ensures |rest| == |message|
  {
    if message[0] then Xors(message, GeneratorBits() + Zeros(|message| - 17)) else message
  }

  /** Long division by the generator. */
  function Quotient(message: seq<bool>): (q: seq<bool>)
    requires |message| >= 16
    ensures |q| == |message| - 16
    decreases |message|
  {
    if |message| == 16 then []
    else
      [message[0]] + Quotient(Reduced(message)[1..])
  }

  lemma ReducedRun(message: seq<bool>)
    requires |message| >= 17
    ensures Run(Reduced(message)[1..], 0) == Run(message, 0)
  {
    var g, rest := GeneratorBits() + Zeros(|message| - 17), Reduced(message);
    assert Run(rest, 0) == Run(message, 0) by {
      GeneratorVanishes(|message| - 17);
      RunXors(message, g);
      XorZero(Run(message, 0));
    }
    assert !rest[0];
    StepZero(0);
  }

  /** The definitions of the three functions on a message of more than 16 bits. */
  lemma DivisionParts(message: seq<bool>, q: seq<bool>, g: seq<bool>)
    requires |message| >= 17 && |q| == |message| - 17 && Quotient(Reduced(message)[1..]) == q
    requires g == GeneratorBits() + Zeros(|q|)
    ensures g[0] && |g| == |message|
    ensures Reduced(message) == if message[0] then Xors(message, g) else message
    ensures TimesGenerator(Quotient(message)) ==
            if message[0] then Xors(g, [false] + TimesGenerator(q)) else [false] + TimesGenerator(q)
  {
    hide Xors, Zeros, MsbBits;
    assert Quotient(message) == [message[0]] + q && Quotient(message)[1..] == q;
  }

  lemma ZerosFirst(n: nat, r: seq<bool>)
    ensures [false] + (Zeros(n) + r) == Zeros(n + 1) + r
  {
  }

  /** Undoing one row of the division. */
  lemma RowBack(message: seq<bool>, g: seq<bool>, reduced: seq<bool>, low: seq<bool>, padded: seq<bool>)
    requires |message| == |g| == |reduced| > 0 && |low| == |padded| == |message| - 1 && g[0]
    requires reduced == if message[0] then Xors(message, g) else message
    requires reduced[1..] == Xors(low, padded)
    ensures message == Xors(if message[0] then Xors(g, [false] + low) else [false] + low, [false] + padded)
  {
    var rest, product := [false] + low, if message[0] then Xors(g, [false] + low) else [false] + low;
    forall i | 0 <= i < |message|
      ensures message[i] == (product[i] != ([false] + padded)[i])
    {
      if i > 0 {
        assert reduced[i] == reduced[1..][i - 1];
      }
    }
  }

  lemma DivisionStep(message: seq<bool>, q: seq<bool>, r: seq<bool>)
    requires |message| >= 17 && |r| == 16 && |q| == |message| - 17
    requires Quotient(Reduced(message)[1..]) == q
    requires Reduced(message)[1..] == Xors(TimesGenerator(q), Zeros(|q|) + r)
    ensures message == Xors(TimesGenerator(Quotient(message)), Zeros(|message| - 16) + r)
  {
    var g := GeneratorBits() + Zeros(|q|);
    DivisionParts(message, q, g);
    hide Quotient, TimesGenerator, Reduced, Xors, Zeros, GeneratorBits;
    RowBack(message, g, Reduced(message), TimesGenerator(q), Zeros(|q|) + r);
    ZerosFirst(|q|, r);
  }

  lemma {:induction false} ValueOf(bits: seq<bool>) returns (w: nat)
    ensures w < Pow2(|bits|) && MsbBits(w, |bits|) == bits
  {
    if bits == [] {
      w := 0;
    } else {
      var v := ValueOf(bits[1..]);
      var n := |bits| - 1;
      w := if bits[0] then Pow2(n) + v else v;
      TopBit(w, n);
    }
  }

  /** Sixteen bits are the bits of the register they leave. */
  lemma SixteenBits(message: seq<bool>)
    requires |message| == 16
    ensures MsbBits(Run(message, 0), 16) == message
  {
    var w := ValueOf(message);
    Pow16();
    UpZero(16);
    ShortRun(w, 16, 0);
  }

  /** The checksum is the remainder: every message of n + 16 bits is its quotient times the generator
      plus a remainder of 16 bits, and that remainder is what the register ends with. */
  lemma {:induction false} ChecksumIsRemainder(message: seq<bool>)
    requires |message| >= 16
    ensures var r := MsbBits(Run(message, 0), 16);
            message == Xors(TimesGenerator(Quotient(message)), Zeros(|message| - 16) + r)
    decreases |message|
  {
    hide Run, MsbBits;
    if |message| == 16 {
      SixteenBits(message);
      assert Xors(Zeros(16), Zeros(0) + message) == message;
    } else {
      hide Reduced;
      ReducedRun(message);
      ChecksumIsRemainder(Reduced(message)[1..]);
      DivisionStep(message, Quotient(Reduced(message)[1..]), MsbBits(Run(message, 0), 16));
    }
  }

  lemma LeadingZeros(bits: seq<bool>)
    ensures Run(Zeros(16) + bits, 0) == Run(bits, 0)
  {
    RunAppend(Zeros(16), bits, 0);
    ZerosKeep(16, 0);
  }

  /** The checksum of a buffer is its remainder, and the only one. */
  lemma CheckIsRemainder(buffer: seq<U8>, r: U16)
    ensures IsRemainder(buffer, r) <==> r == Check(buffer)
  {
    hide Run, MsbBits, Bits, Quotient, TimesGenerator;
    var message := Zeros(16) + Bits(buffer);
    LeadingZeros(Bits(buffer));
    ChecksumIsRemainder(message);
    if r == Check(buffer) {
      assert |Quotient(message)| == 8 * |buffer|;
    }
    if IsRemainder(buffer, r) {
      var q :| |q| == 8 * |buffer| && message == Xors(TimesGenerator(q), Zeros(|q|) + MsbBits(r, 16));
      RunXors(TimesGenerator(q), Zeros(|q|) + MsbBits(r, 16));
      MultiplesVanish(q);
      TailRun(|q|, r);
      XorZero(r);
    }
  }

  /** `RFLiCalculateCRC`: the remainder of the buffer, read as a polynomial, by the generator. */
  method CalculateCRC(p: seq<U8>) returns (crc: U16)
    ensures crc == Check(p) && IsRemainder(p, crc)
  {
    CheckIsRemainder(p, Check(p));
    hide IsRemainder;
    crc := 0;
    var i := 0;
    while i < |p|
      invariant 0 <= i <= |p|
      invariant Check(p) == Run(Bits(p[i..]), crc)
    {
      RunAppend(MsbBits(p[i], 8), Bits(p[i + 1..]), crc);
      assert p[i..][1..] == p[i + 1..];
      crc := FeedByte(crc, p[i]);
      i := i + 1;
    }
  }

  // ---------- linearity ----------

  // ---------- error detection ----------

  /** A message of n bits in which only the bits of w, placed at position at, are set. */
  function Pattern(at: nat, w: nat, width: nat, after: nat): (bits: seq<bool>)
    ensures |bits| == at + width + after
  {
    Zeros(at) + MsbBits(w, width) + Zeros(after)
  }

  lemma SameXor(c: nat, d: nat)
    ensures Xor(c, d) == c <==> d == 0
  {
    XorZero(c);
    if Xor(c, d) == c {
      XorAssociates(c, c, d);
      XorSelf(c);
      XorZero(d);
    }
  }

  /** Every burst of at most sixteen bits is caught, wherever it falls and however long the message:
      the corrupted message checks like the sound one only if nothing was corrupted. */
  lemma BurstDetected(message: seq<bool>, at: nat, w: nat, width: nat, after: nat)
    requires width <= 16 && w < Pow2(width) && |message| == at + width + after
    ensures Run(Xors(message, Pattern(at, w, width, after)), 0) == Run(message, 0) <==> w == 0
  {
    hide Run;
    var e := Pattern(at, w, width, after);
    XorZero(0);
    Linear(message, e, 0, 0);
    RunAppend(Zeros(at) + MsbBits(w, width), Zeros(after), 0);
    RunAppend(Zeros(at), MsbBits(w, width), 0);
    ZerosKeep(at, 0);
    Pow16();
    Monotone(width, 16);
    UpZero(width);
    ShortRun(w, width, 0);
    ZerosKeep(after, w);
    SameXor(Run(message, 0), Run(e, 0));
  }

  /** The parity of a number. */
  function Odd(a: nat): bool {
    if a == 0 then false else Odd(a / 2) != (a % 2 == 1)
  }

  function OddCount(bits: seq<bool>): bool {
    if bits == [] then false else OddCount(bits[1..]) != bits[0]
  }

  lemma OddStep(a: nat)
    ensures Odd(a) == (Odd(a / 2) != (a % 2 == 1))
  {
  }

  lemma {:induction false} OddXor(a: nat, b: nat)
    ensures Odd(Xor(a, b)) == (Odd(a) != Odd(b))
    decreases a + b
  {
    if a + b > 0 {
      XorStep(a, b);
      OddStep(a);
      OddStep(b);
      OddStep(Xor(a, b));
      OddXor(a / 2, b / 2);
    } else {
      XorZero(0);
    }
  }

  lemma {:induction false} OddTop(a: nat, k: nat)
    requires Pow2(k) <= a < Pow2(k + 1)
    ensures Odd(a - Pow2(k)) == !Odd(a)
  {
    OddStep(a);
    OddStep(a - Pow2(k));
    if k == 0 {
    } else {
      OddTop(a / 2, k - 1);
    }
  }

  /** The generator has four terms, so a step flips the parity exactly when a one comes in. */
  lemma StepParity(crc: U16, bit: bool)
    ensures Odd(Step(crc, bit)) == (Odd(crc) != bit)
  {
    OddStep(2 * crc);
    assert Odd(1) && Odd(GENERATOR);
    if crc >= 0x8000 {
      Pow16();
      OddTop(2 * crc, 16);
      OddXor(2 * crc - 0x1_0000, GENERATOR);
    }
    OddXor(Step(crc, false), 1);
  }

  lemma {:induction false} RunParity(bits: seq<bool>, crc: U16)
    ensures Odd(Run(bits, crc)) == (Odd(crc) != OddCount(bits))
  {
    hide Step, Odd;
    if bits == [] {
    } else {
      StepParity(crc, bits[0]);
      RunParity(bits[1..], Step(crc, bits[0]));
    }
  }

  /** Every corruption of an odd number of bits is caught. */
  lemma OddErrorsDetected(message: seq<bool>, error: seq<bool>)
    requires |error| == |message| && OddCount(error)
    ensures Run(Xors(message, error), 0) != Run(message, 0)
  {
    XorZero(0);
    Linear(message, error, 0, 0);
    RunParity(error, 0);
    SameXor(Run(message, 0), Run(error, 0));
  }

  // ---------- storing the checksum ----------

  lemma TwoBytes(high: U8, low: U8)
    ensures Bits([high, low]) == MsbBits(0x100 * high + low, 16)
  {
    Pow16();
    UpIsProduct(high, 8);
    MsbConcat(high, 8, low, 8);
    assert [high, low][1..] == [low] && [low][1..] == [];
  }

  lemma XorsTail(a: seq<bool>, b: seq<bool>)
    ensures Xors(a + Zeros(|b|), Zeros(|a|) + b) == a + b
  {
  }

  lemma BitsWithTail(bits: seq<bool>, w: U16)
    ensures Run(bits + MsbBits(w, 16), 0) == Xor16(Run(bits + Zeros(16), 0), w)
  {
    TailRun(|bits|, w);
    hide Run, MsbBits, Xor16;
    XorsTail(bits, MsbBits(w, 16));
    RunXors(bits + Zeros(16), Zeros(|bits|) + MsbBits(w, 16));
  }

  lemma TailBits(data: seq<U8>, high: U8, low: U8)
    ensures Bits(data + [high, low]) == Bits(data) + MsbBits(0x100 * high + low, 16)
  {
    BitsAppend(data, [high, low]);
    TwoBytes(high, low);
  }

  lemma ZeroTail(data: seq<U8>, zero: U8, width: nat)
    requires zero == 0 && width == 16
    ensures Bits(data + [zero, zero]) == Bits(data) + Zeros(width)
  {
    hide MsbBits, Bits;
    TailBits(data, zero, zero);
    ZeroBits(width);
  }

  /** The two bytes at the end of a buffer enter the checksum as they are. */
  lemma CheckWithTail(data: seq<U8>, high: U8, low: U8)
    ensures Check(data + [high, low]) == Xor16(Check(data + [0, 0]), 0x100 * high + low)
  {
    hide Run, MsbBits, Bits, Xor16;
    TailBits(data, high, low);
    ZeroTail(data, 0, 16);
    BitsWithTail(Bits(data), 0x100 * high + low);
  }

  /** Storing a checksum big-endian in the last two bytes: the buffer then passes the boot check, and
      no other value of those bytes does. */
  lemma StoredChecksumPasses(data: seq<U8>, stored: U16)
    ensures Check(data + [stored / 0x100, stored % 0x100]) == 0 <==> stored == Check(data + [0, 0])
  {
    CheckWithTail(data, stored / 0x100, stored % 0x100);
    XorCancels(Check(data + [0, 0]), stored);
  }

  // ---------- the remainder of a division of polynomials ----------

  // ---------- buffers ----------

  lemma ByteOfBits(byte: U8)
    ensures Run(MsbBits(byte, 8), 0) == byte
  {
    Pow16();
    UpZero(8);
    ShortRun(byte, 8, 0);
  }

  /** Buffers with the same bits are the same. */
  lemma {:induction false} SameBits(a: seq<U8>, b: seq<U8>)
    requires Bits(a) == Bits(b)
    ensures a == b
  {
    hide MsbBits, Run;
    if a != [] {
      ByteOfBits(a[0]);
      ByteOfBits(b[0]);
      assert Bits(a)[..8] == MsbBits(a[0], 8) && Bits(a)[8..] == Bits(a[1..]);
      assert Bits(b)[..8] == MsbBits(b[0], 8) && Bits(b)[8..] == Bits(b[1..]);
      SameBits(a[1..], b[1..]);
      assert a == [a[0]] + a[1..] && b == [b[0]] + b[1..];
    }
  }

  lemma XorsBack(a: seq<bool>, b: seq<bool>)
    requires |a| == |b|
    ensures Xors(a, Xors(a, b)) == b && (Xors(a, b) == Zeros(|a|) <==> a == b)
  {
    if Xors(a, b) == Zeros(|a|) {
      forall i | 0 <= i < |a|
        ensures a[i] == b[i]
      {
        assert Xors(a, b)[i] == Zeros(|a|)[i];
      }
    }
  }

  /** An error within a window is a pattern of the bits in the window. */
  lemma Windowed(e: seq<bool>, at: nat, end: nat) returns (w: nat)
    requires at <= end <= |e| && forall i :: 0 <= i < |e| && !(at <= i < end) ==> !e[i]
    ensures w < Pow2(end - at) && e == Pattern(at, w, end - at, |e| - end) && (w == 0 ==> e == Zeros(|e|))
  {
    hide MsbBits;
    w := ValueOf(e[at..end]);
    ZeroBits(end - at);
    var p := Pattern(at, w, end - at, |e| - end);
    assert forall i :: at <= i < end ==> p[i] == e[at..end][i - at];
  }

  /** Buffers that differ only within sixteen consecutive bits have the same checksum only if they are the same. */
  lemma BufferBurst(a: seq<U8>, b: seq<U8>, at: nat)
    requires |a| == |b| && at <= 8 * |a|
    requires forall i :: 0 <= i < 8 * |a| && !(at <= i < at + 16) ==> Bits(a)[i] == Bits(b)[i]
    ensures Check(a) == Check(b) <==> a == b
  {
    hide MsbBits, Bits, Run, Pattern, Zeros, Pow2;
    var m, e := Bits(a), Xors(Bits(a), Bits(b));
    var end := if at + 16 <= |m| then at + 16 else |m|;
    var w := Windowed(e, at, end);
    XorsBack(m, Bits(b));
    BurstDetected(m, at, w, end - at, |m| - end);
    if w == 0 {
      SameBits(a, b);
    }
  }

  /** Buffers that differ in an odd number of bits have different checksums. */
  lemma BufferOddErrors(a: seq<U8>, b: seq<U8>)
    requires |a| == |b| && OddCount(Xors(Bits(a), Bits(b)))
    ensures Check(a) != Check(b)
  {
    hide Bits, Run, OddCount;
    XorsBack(Bits(a), Bits(b));
    OddErrorsDetected(Bits(a), Xors(Bits(a), Bits(b)));
  }
}
