/** What the clock decides in the shuffle of src/RVLFaceLib/RFL_MiddleDatabase.c:345-395: which places are exchanged,
    which candidate is drawn first, and which orders never come. */
module ShuffleDraws {
  import opened Powers
  import opened Words
  import opened HiddenTable
  import opened Faces
  import opened RandomPage

  // ---------- the generator ----------

  /** The generator after i steps from the clock. */
  function RandAt(tick: U32, i: nat): U32 {
    if i == 0 then tick else NextRand(RandAt(tick, i - 1))
  }

  /** The inverse of the multiplier modulo 2^32. */
  const UNDO := 0x7cbe_9e4b

  /** A step in which the sum is c modulo 2^32, and the product of c has this quotient and this remainder. */
  lemma StepIs(rand: U32, c: nat, q: nat, next: U32)
    requires c < 0x1_0000_0000 && (rand + 0x046AC055 == c || rand + 0x046AC055 == c + 0x1_0000_0000)
    requires 0x04F8BB63 * c == q * 0x1_0000_0000 + next
    ensures NextRand(rand) == next
  {
    DivUnique(rand + 0x046AC055, 0x1_0000_0000, if rand + 0x046AC055 == c then 0 else 1, c);
    DivUnique(0x04F8BB63 * c, 0x1_0000_0000, q, next);
  }

  lemma Divided(a: nat, m: nat) returns (q: nat, r: nat)
    requires m > 0
    ensures a == q * m + r && r < m
  {
    q, r := a / m, a % m;
  }

  /** Every value of the generator comes from one before it. */
  lemma StepBack(value: U32) returns (rand: U32)
    ensures NextRand(rand) == value
  {
    hide NextRand;
    var q, x := Divided(UNDO * value, 0x1_0000_0000);
    rand := if x >= 0x046A_C055 then x - 0x046A_C055 else x + 0x1_0000_0000 - 0x046A_C055;
    var k := 40644210 * value - 0x04F8_BB63 * q;
    assert 0x04F8_BB63 * x == k * 0x1_0000_0000 + value;
    assert k >= 0;
    StepIs(rand, x, k, value);
  }

  /** Every value is reached after i steps from some clock. */
  lemma {:induction false} ClockFor(value: U32, i: nat) returns (tick: U32)
    ensures RandAt(tick, i) == value
    decreases i
  {
    hide NextRand;
    if i == 0 {
      tick := value;
    } else {
      var before := StepBack(value);
      tick := ClockFor(before, i - 1);
    }
  }

  // ---------- the exchanges ----------

  /** The number that picks the partner: the halves of the generator value are added. */
  function Mixed(rand: U32): nat {
    (rand / 0x1_0000 + rand) % 0x1_0000
  }

  /** Every place but the first can be the partner of the first one, and so on: the value j, or j - 1 behind place i,
      picks place j. */
  lemma TargetReached(i: nat, j: nat, count: nat) returns (rand: U32)
    requires i < count - 1 && j < count && i != j && count <= 0x1_0000
    ensures Target(rand, i, count) == j
  {
    rand := if j > i then j - 1 else j;
    DivUnique(rand, 0x1_0000, 0, rand);
    SmallRemainder(rand, count - 1);
  }

  /** The array after the first i exchanges. */
  function After(a: seq<int>, tick: U32, i: nat): (b: seq<int>)
    requires i == 0 || i < |a|
    ensures |b| == |a|
  {
    if i == 0 then a else Swap(After(a, tick, i - 1), i - 1, Target(RandAt(tick, i - 1), i - 1, |a|))
  }

  lemma {:induction false} ShuffledAfter(a: seq<int>, tick: U32, i: nat)
    requires i == 0 || i < |a|
    ensures Shuffled(a, 0, tick) == Shuffled(After(a, tick, i), i, RandAt(tick, i))
  {
    hide Swap, NextRand;
    if i > 0 {
      ShuffledAfter(a, tick, i - 1);
    }
  }

  /** The shuffle is its |a| - 1 exchanges. */
  lemma ShuffledIsAfter(a: seq<int>, tick: U32)
    requires |a| > 0
    ensures Shuffled(a, 0, tick) == After(a, tick, |a| - 1)
  {
    hide After, RandAt;
    ShuffledAfter(a, tick, |a| - 1);
  }

  /** At every exchange of a run, every other place is the partner for some clock: then the two change places. */
  lemma EveryExchange(a: seq<int>, i: nat, j: nat) returns (tick: U32)
    requires i < |a| - 1 && j < |a| && i != j && |a| <= 0x1_0000
    ensures After(a, tick, i + 1)[i] == After(a, tick, i)[j] && After(a, tick, i + 1)[j] == After(a, tick, i)[i]
    ensures forall k :: 0 <= k < |a| && k != i && k != j ==> After(a, tick, i + 1)[k] == After(a, tick, i)[k]
  {
    hide RandAt;
    var rand := TargetReached(i, j, |a|);
    tick := ClockFor(rand, i);
    assert After(a, tick, i + 1) == Swap(After(a, tick, i), i, j);
  }

  lemma FirstTarget(tick: U32, count: nat)
    requires count > 1
    ensures Target(tick, 0, count) == 1 + (tick / 0x1_0000 + tick) % 0x1_0000 % (count - 1)
  {
  }

  lemma SecondRand(tick: U32)
    ensures RandAt(tick, 0) == tick
    ensures RandAt(tick, 1) == (0x04F8BB63 * ((tick + 0x046AC055) % 0x1_0000_0000)) % 0x1_0000_0000
  {
    assert RandAt(tick, 0) == tick;
  }

  /** The first exchange, for every clock: it brings the candidate with this number to the front, and the second one
      goes on with this value of the generator. */
  lemma FirstExchange(a: seq<int>, tick: U32)
    requires |a| > 1
    ensures var k := 1 + (tick / 0x1_0000 + tick) % 0x1_0000 % (|a| - 1);
            k < |a| && After(a, tick, 1) == a[0 := a[k]][k := a[0]]
    ensures RandAt(tick, 1) == (0x04F8BB63 * ((tick + 0x046AC055) % 0x1_0000_0000)) % 0x1_0000_0000
    ensures Shuffled(a, 0, tick) == Shuffled(After(a, tick, 1), 1, RandAt(tick, 1))
  {
    hide Shuffled, Target, NextRand;
    FirstTarget(tick, |a|);
    SecondRand(tick);
    ShuffledAfter(a, tick, 1);
    assert After(a, tick, 0) == a;
  }

  // ---------- the first draw ----------

  /** A later exchange comes back to the front. */
  predicate Returns(tick: U32, i: nat, count: nat)
    requires count > 1
  {
    i > 0 && Mixed(RandAt(tick, i)) % (count - 1) == 0
  }

  /** What an exchange does to the front of the array. */
  lemma FrontAfter(a: seq<int>, tick: U32, i: nat)
    requires 0 < i < |a| - 1
    ensures After(a, tick, i + 1)[0] == if Returns(tick, i, |a|) then After(a, tick, i)[i] else After(a, tick, i)[0]
  {
    hide RandAt;
    var t := Target(RandAt(tick, i), i, |a|);
    assert After(a, tick, i + 1) == Swap(After(a, tick, i), i, t);
    assert t == 0 <==> Returns(tick, i, |a|);
  }

  lemma {:induction false} FrontFrom(a: seq<int>, tick: U32, i: nat) returns (last: nat)
    requires 0 < i < |a|
    ensures last < i && (last > 0 ==> Returns(tick, last, |a|))
    ensures forall j :: last < j < i ==> !Returns(tick, j, |a|)
    ensures After(a, tick, i)[0] == if last == 0 then After(a, tick, 1)[0] else After(a, tick, last)[last]
    decreases i
  {
    hide Returns, After;
    if i == 1 {
      last := 0;
    } else {
      FrontAfter(a, tick, i - 1);
      if Returns(tick, i - 1, |a|) {
        last := i - 1;
      } else {
        last := FrontFrom(a, tick, i - 1);
      }
    }
  }

  /** Who is drawn first, for every clock: the candidate that the first exchange brought to the front, unless a later
      exchange comes back to the front; then the one that stood at the place of the last such exchange. */
  lemma FirstDraw(a: seq<int>, tick: U32) returns (last: nat)
    requires |a| > 1
    ensures last < |a| - 1 && (last > 0 ==> Returns(tick, last, |a|))
    ensures forall j :: last < j < |a| - 1 ==> !Returns(tick, j, |a|)
    ensures var k := 1 + (tick / 0x1_0000 + tick) % 0x1_0000 % (|a| - 1);
            k < |a| && Shuffled(a, 0, tick)[0] == if last == 0 then a[k] else After(a, tick, last)[last]
  {
    hide Returns, Shuffled, RandAt, After;
    FirstExchange(a, tick);
    ShuffledIsAfter(a, tick);
    last := FrontFrom(a, tick, |a| - 1);
  }

  /** No return to the front in the given number of exchanges. */
  predicate Avoids(rand: U32, count: nat, steps: nat)
    requires count > 1
    decreases steps
  {
    steps == 0 || (Mixed(NextRand(rand)) % (count - 1) != 0 && Avoids(NextRand(rand), count, steps - 1))
  }

  lemma {:induction false} AvoidsReturns(tick: U32, i: nat, count: nat, steps: nat)
    requires count > 1 && Avoids(RandAt(tick, i), count, steps)
    ensures forall j :: i < j <= i + steps ==> !Returns(tick, j, count)
    decreases steps
  {
    hide NextRand, Mixed;
    if steps > 0 {
      AvoidsReturns(tick, i + 1, count, steps - 1);
    }
  }

  lemma Now(tick: U32)
    ensures RandAt(tick, 0) == tick
  {
  }

  /** A clock that draws candidate k first. */
  lemma DrawnFirst(a: seq<int>, k: nat, tick: U32)
    requires 0 < k < |a| && Mixed(tick) % (|a| - 1) == k - 1 && Avoids(tick, |a|, |a| - 2)
    ensures Shuffled(a, 0, tick)[0] == a[k]
  {
    hide Shuffled, RandAt, After, Avoids;
    assert RandAt(tick, 0) == tick by {
      Now(tick);
    }
    AvoidsReturns(tick, 0, |a|, |a| - 2);
    var last := FirstDraw(a, tick);
  }

  lemma Stops(rand: U32, count: nat)
    requires count > 1
    ensures Avoids(rand, count, 0)
  {
  }

  lemma AvoidsNext(rand: U32, count: nat, steps: nat)
    requires count > 1 && Mixed(NextRand(rand)) % (count - 1) != 0 && Avoids(NextRand(rand), count, steps)
    ensures Avoids(rand, count, steps + 1)
  {
    hide NextRand, Mixed;
  }

  lemma HalvesSum(high: nat, low: nat, carry: nat, sum: nat)
    requires high < 0x1_0000 && low < 0x1_0000 && sum < 0x1_0000 && low + high == carry * 0x1_0000 + sum
    ensures Mixed(high * 0x1_0000 + low) == sum
  {
    var next := high * 0x1_0000 + low;
    DivUnique(next, 0x1_0000, high, low);
    DivUnique(next + high, 0x1_0000, high + carry, sum);
  }

  /** One step that does not come back to the front. The sum in the step is c, its product has the quotient q and a
      remainder of these halves, and their sum is not a multiple. */
  lemma Goes(rand: U32, c: nat, q: nat, high: nat, low: nat, carry: nat, sum: nat, count: nat, steps: nat)
    requires c < 0x1_0000_0000 && (rand + 0x046AC055 == c || rand + 0x046AC055 == c + 0x1_0000_0000)
    requires 0x04F8BB63 * c == q * 0x1_0000_0000 + (high * 0x1_0000 + low) && high < 0x1_0000 && low < 0x1_0000
    requires low + high == carry * 0x1_0000 + sum && sum < 0x1_0000 && count > 1 && sum % (count - 1) != 0
    requires Avoids(high * 0x1_0000 + low, count, steps)
    ensures Avoids(rand, count, steps + 1)
  {
    hide Avoids, NextRand, Mixed;
    HalvesSum(high, low, carry, sum);
    StepIs(rand, c, q, high * 0x1_0000 + low);
    AvoidsNext(rand, count, steps);
  }

  lemma SmallClock(tick: U32, w: nat, rem: nat, count: nat)
    requires count > 1 && rem < count - 1 && tick == w * (count - 1) + rem < 0x1_0000
    ensures Mixed(tick) % (count - 1) == rem
  {
    DivUnique(tick, 0x1_0000, 0, tick);
    DivUnique(tick, count - 1, w, rem);
  }

  lemma FirstOf3(k: nat) returns (tick: U32)
    requires 0 < k < 3
    ensures Mixed(tick) % 2 == k - 1 && Avoids(tick, 3, 1)
  {
    hide Avoids, Mixed;
    match k {
      case 1 =>
        tick := 0;
        SmallClock(tick, 0, 0, 3);
        Stops(1444837343, 3);
        Goes(0, 74104917, 1439143, 22046, 30687, 0, 52733, 3, 0);
      case 2 =>
        tick := 1;
        SmallClock(tick, 0, 1, 3);
        Stops(1528247106, 3);
        Goes(1, 74104918, 1439143, 23319, 13122, 0, 36441, 3, 0);
    }
  }

  lemma FirstOf4(k: nat) returns (tick: U32)
    requires 0 < k < 4
    ensures Mixed(tick) % 3 == k - 1 && Avoids(tick, 4, 2)
  {
    hide Avoids, Mixed;
    match k {
      case 1 =>
        tick := 0;
        SmallClock(tick, 0, 0, 4);
        Stops(2172565532, 4);
        Goes(1444837343, 1518942260, 29498388, 33150, 47132, 1, 14746, 4, 0);
        Goes(0, 74104917, 1439143, 22046, 30687, 0, 52733, 4, 1);
      case 2 =>
        tick := 7;
        SmallClock(tick, 2, 1, 4);
        Stops(1481847323, 4);
        Goes(2028705684, 2102810601, 40837315, 22611, 12827, 0, 35438, 4, 0);
        Goes(7, 74104924, 1439143, 30955, 38804, 1, 4223, 4, 1);
      case 3 =>
        tick := 5;
        SmallClock(tick, 1, 2, 4);
        Stops(4133462409, 4);
        Goes(1861886158, 1935991075, 37597621, 63071, 41353, 1, 38888, 4, 0);
        Goes(5, 74104922, 1439143, 28410, 8398, 0, 36808, 4, 1);
    }
  }

  lemma FirstOf5(k: nat) returns (tick: U32)
    requires 0 < k < 5
    ensures Mixed(tick) % 4 == k - 1 && Avoids(tick, 5, 3)
  {
    hide Avoids, Mixed;
    match k {
      case 1 =>
        tick := 0;
        SmallClock(tick, 0, 0, 5);
        Stops(3317440179, 5);
        Goes(2172565532, 2246670449, 43631123, 50620, 7859, 0, 58479, 5, 0);
        Goes(1444837343, 1518942260, 29498388, 33150, 47132, 1, 14746, 5, 1);
        Goes(0, 74104917, 1439143, 22046, 30687, 0, 52733, 5, 2);
      case 2 =>
        tick := 1;
        SmallClock(tick, 0, 1, 5);
        Stops(3596215790, 5);
        Goes(846757989, 920862906, 17883478, 54873, 58862, 1, 48199, 5, 0);
        Goes(1528247106, 1602352023, 31118235, 12920, 32869, 0, 45789, 5, 1);
        Goes(1, 74104918, 1439143, 23319, 13122, 0, 36441, 5, 2);
      case 3 =>
        tick := 6;
        SmallClock(tick, 1, 2, 5);
        Stops(695126549, 5);
        Goes(2807654866, 2881759783, 55964780, 10606, 51733, 0, 62339, 5, 0);
        Goes(1945295921, 2019400838, 39217468, 42841, 27090, 1, 4395, 5, 1);
        Goes(6, 74104923, 1439143, 29682, 56369, 1, 20515, 5, 2);
      case 4 =>
        tick := 11;
        SmallClock(tick, 2, 3, 5);
        Stops(2089004604, 5);
        Goes(473584447, 547689364, 10636318, 31875, 44604, 1, 10943, 5, 0);
        Goes(2362344736, 2436449653, 47316702, 7226, 21311, 0, 28537, 5, 1);
        Goes(11, 74104928, 1439143, 36046, 34080, 1, 4590, 5, 2);
    }
  }

  lemma FirstOf6(k: nat) returns (tick: U32)
    requires 0 < k < 6
    ensures Mixed(tick) % 5 == k - 1 && Avoids(tick, 6, 4)
  {
    hide Avoids, Mixed;
    match k {
      case 1 =>
        tick := 5;
        SmallClock(tick, 1, 0, 6);
        Stops(3342323757, 6);
        Goes(416350938, 490455855, 9524823, 50999, 53293, 1, 38756, 6, 0);
        Goes(4133462409, 4207567326, 81712425, 6353, 730, 0, 7083, 6, 1);
        Goes(1861886158, 1935991075, 37597621, 63071, 41353, 1, 38888, 6, 2);
        Goes(5, 74104922, 1439143, 28410, 8398, 0, 36808, 6, 3);
      case 2 =>
        tick := 1;
        SmallClock(tick, 0, 1, 6);
        Stops(1550269673, 6);
        Goes(3596215790, 3670320707, 71278908, 23655, 15593, 0, 39248, 6, 0);
        Goes(846757989, 920862906, 17883478, 54873, 58862, 1, 48199, 6, 1);
        Goes(1528247106, 1602352023, 31118235, 12920, 32869, 0, 45789, 6, 2);
        Goes(1, 74104918, 1439143, 23319, 13122, 0, 36441, 6, 3);
      case 3 =>
        tick := 17;
        SmallClock(tick, 3, 2, 6);
        Stops(128551417, 6);
        Goes(3761658270, 3835763187, 74491859, 1961, 35321, 0, 37282, 6, 0);
        Goes(1108673781, 1182778698, 22969974, 57398, 22942, 1, 14804, 6, 1);
        Goes(2862803314, 2936908231, 57035782, 16917, 1269, 0, 18186, 6, 2);
        Goes(17, 74104934, 1439143, 43682, 59762, 1, 37908, 6, 3);
      case 4 =>
        tick := 3;
        SmallClock(tick, 0, 3, 6);
        Stops(2446296715, 6);
        Goes(4153767012, 4227871929, 82106747, 37327, 34443, 1, 6234, 6, 0);
        Goes(2490110199, 2564215116, 49797951, 63381, 29796, 1, 27641, 6, 1);
        Goes(1695066632, 1769171549, 34357928, 37996, 4343, 0, 42339, 6, 2);
        Goes(3, 74104920, 1439143, 25864, 43528, 1, 3856, 6, 3);
      case 5 =>
        tick := 14;
        SmallClock(tick, 2, 4, 6);
        Stops(931994502, 6);
        Goes(2925331437, 2999436354, 58250100, 14221, 7046, 0, 21267, 6, 0);
        Goes(791129114, 865234031, 16803146, 44637, 1005, 0, 45642, 6, 1);
        Goes(2612574025, 2686678942, 52176242, 12071, 44058, 0, 56129, 6, 2);
        Goes(14, 74104931, 1439143, 39864, 46921, 1, 21249, 6, 3);
    }
  }

  lemma FirstOf2() returns (tick: U32)
    ensures Mixed(tick) % 1 == 0 && Avoids(tick, 2, 0)
  {
    tick := 0;
  }

  /** With up to six candidates, every one behind the first is drawn first for some clock. */
  lemma EveryoneFirst(a: seq<int>, k: nat) returns (tick: U32)
    requires 0 < k < |a| <= 6
    ensures Shuffled(a, 0, tick)[0] == a[k]
  {
    hide Shuffled, Avoids, Mixed;
    if |a| == 2 {
      tick := FirstOf2();
    } else if |a| == 3 {
      tick := FirstOf3(k);
    } else if |a| == 4 {
      tick := FirstOf4(k);
    } else if |a| == 5 {
      tick := FirstOf5(k);
    } else {
      tick := FirstOf6(k);
    }
    DrawnFirst(a, k, tick);
  }

  lemma OfThree(rand: U32)
    ensures Target(rand, 0, 3) == 1 + Mixed(rand) % 2
    ensures Target(rand, 1, 3) == if Mixed(rand) % 2 == 0 then 0 else 2
  {
  }

  /** Three candidates are only ever rotated; these two bits of the clock say how far. */
  lemma ShuffleOfThree(a: int, b: int, c: int, tick: U32)
    ensures Shuffled([a, b, c], 0, tick) ==
            match (Mixed(tick) % 2, Mixed(NextRand(tick)) % 2)
            case (0, 0) => [a, b, c]
            case (1, 1) => [c, a, b]
            case _ => [b, c, a]
  {
    hide NextRand, Mixed;
    var s, t := Target(tick, 0, 3), Target(NextRand(tick), 1, 3);
    OfThree(tick);
    OfThree(NextRand(tick));
    var x := [a, b, c];
    assert Swap(x, 0, s) == if s == 1 then [b, a, c] else [c, b, a];
    assert Shuffled(x, 0, tick) == Shuffled(Swap(x, 0, s), 1, NextRand(tick));
    assert Shuffled(Swap(x, 0, s), 1, NextRand(tick))
        == Shuffled(Swap(Swap(x, 0, s), 1, t), 2, NextRand(NextRand(tick))) == Swap(Swap(x, 0, s), 1, t);
  }

  // ---------- the orders that never come ----------

  /** Whether the number of elements above x is odd. */
  function OddAbove(s: seq<int>, x: int): bool {
    if s == [] then false
    else
      var n := |s| - 1;
      OddAbove(s[..n], x) != (s[n] > x)
  }

  /** Whether the number of pairs in the wrong order is odd. */
  function OddOrder(s: seq<int>): bool {
    if s == [] then false
    else
      var n := |s| - 1;
      OddOrder(s[..n]) != OddAbove(s[..n], s[n])
  }

  lemma OddAboveSnoc(s: seq<int>, y: int, x: int)
    ensures OddAbove(s + [y], x) == (OddAbove(s, x) != (y > x))
  {
    assert (s + [y])[..|s|] == s;
  }

  lemma OddOrderSnoc(s: seq<int>, y: int)
    ensures OddOrder(s + [y]) == (OddOrder(s) != OddAbove(s, y))
  {
    assert (s + [y])[..|s|] == s;
  }

  lemma {:induction false} AboveFlip(p: seq<int>, x: int, y: int, q: seq<int>, z: int)
    ensures OddAbove(p + [x, y] + q, z) == OddAbove(p + [y, x] + q, z)
    decreases |q|
  {
    hide OddAbove;
    if q == [] {
      OddAboveSnoc(p, x, z);
      OddAboveSnoc(p + [x], y, z);
      OddAboveSnoc(p, y, z);
      OddAboveSnoc(p + [y], x, z);
      assert p + [x, y] + q == p + [x] + [y] && p + [y, x] + q == p + [y] + [x];
    } else {
      var n := |q| - 1;
      AboveFlip(p, x, y, q[..n], z);
      OddAboveSnoc(p + [x, y] + q[..n], q[n], z);
      OddAboveSnoc(p + [y, x] + q[..n], q[n], z);
      assert q == q[..n] + [q[n]];
      assert p + [x, y] + q == p + [x, y] + q[..n] + [q[n]] && p + [y, x] + q == p + [y, x] + q[..n] + [q[n]];
    }
  }

  /** Two neighbours that change places turn the order over. */
  lemma {:induction false} NeighboursFlip(p: seq<int>, x: int, y: int, q: seq<int>)
    requires x != y
    ensures OddOrder(p + [x, y] + q) != OddOrder(p + [y, x] + q)
    decreases |q|
  {
    hide OddOrder, OddAbove;
    if q == [] {
      OddOrderSnoc(p, x);
      OddOrderSnoc(p + [x], y);
      OddOrderSnoc(p, y);
      OddOrderSnoc(p + [y], x);
      OddAboveSnoc(p, x, y);
      OddAboveSnoc(p, y, x);
      assert p + [x, y] + q == p + [x] + [y] && p + [y, x] + q == p + [y] + [x];
    } else {
      var n := |q| - 1;
      NeighboursFlip(p, x, y, q[..n]);
      AboveFlip(p, x, y, q[..n], q[n]);
      OddOrderSnoc(p + [x, y] + q[..n], q[n]);
      OddOrderSnoc(p + [y, x] + q[..n], q[n]);
      assert q == q[..n] + [q[n]];
      assert p + [x, y] + q == p + [x, y] + q[..n] + [q[n]] && p + [y, x] + q == p + [y, x] + q[..n] + [q[n]];
    }
  }

  lemma NextFlip(s: seq<int>, i: nat)
    requires Distinct(s) && i + 1 < |s|
    ensures OddOrder(Swap(s, i, i + 1)) != OddOrder(s)
  {
    hide OddOrder;
    NeighboursFlip(s[..i], s[i], s[i + 1], s[i + 2..]);
    assert s == s[..i] + [s[i], s[i + 1]] + s[i + 2..];
    assert Swap(s, i, i + 1) == s[..i] + [s[i + 1], s[i]] + s[i + 2..];
  }

  lemma SwapAround(s: seq<int>, i: nat, j: nat)
    requires i < j < |s|
    ensures Swap(s, j, i) == Swap(s, i, j)
    ensures i + 1 < j ==> Swap(Swap(Swap(s, j - 1, j), i, j - 1), j - 1, j) == Swap(s, i, j)
  {
  }

  /** So do any two. */
  lemma {:induction false} SwapFlip(s: seq<int>, i: nat, j: nat)
    requires Distinct(s) && i < j < |s|
    ensures OddOrder(Swap(s, i, j)) != OddOrder(s) && Swap(s, j, i) == Swap(s, i, j)
    decreases j
  {
    hide OddOrder, Swap, Distinct;
    SwapAround(s, i, j);
    if j == i + 1 {
      NextFlip(s, i);
    } else {
      var t := Swap(s, j - 1, j);
      NextFlip(s, j - 1);
      SwapKeeps(s, j - 1, j);
      SwapFlip(t, i, j - 1);
      SwapKeeps(t, i, j - 1);
      NextFlip(Swap(t, i, j - 1), j - 1);
    }
  }

  lemma {:induction false} ShuffleFlips(a: seq<int>, i: nat, rand: U32)
    requires Distinct(a) && i < |a|
    ensures OddOrder(Shuffled(a, i, rand)) == (OddOrder(a) != ((|a| - 1 - i) % 2 == 1))
    decreases |a| - i
  {
    hide OddOrder, Swap, Distinct, NextRand, Target;
    if i < |a| - 1 {
      var t := Target(rand, i, |a|);
      if t < i {
        SwapFlip(a, t, i);
      } else {
        SwapFlip(a, i, t);
      }
      SwapKeeps(a, i, t);
      ShuffleFlips(Swap(a, i, t), i + 1, NextRand(rand));
    }
  }

  lemma {:induction false} NoneAbove(s: seq<int>, x: int)
    requires forall i :: 0 <= i < |s| ==> s[i] < x
    ensures !OddAbove(s, x)
    decreases |s|
  {
    if s != [] {
      NoneAbove(s[..|s| - 1], x);
    }
  }

  lemma {:induction false} AscendingOrder(s: seq<int>)
    requires forall i, j :: 0 <= i < j < |s| ==> s[i] < s[j]
    ensures !OddOrder(s)
    decreases |s|
  {
    if s != [] {
      AscendingOrder(s[..|s| - 1]);
      NoneAbove(s[..|s| - 1], s[|s| - 1]);
    }
  }

  /** Half of the orders never come: whatever the clock shows, the number of pairs of candidates that are drawn in the
      wrong order is odd exactly if the number of candidates is even. */
  lemma HalfOfTheOrders(t: seq<TableData>, sex: Sex, tick: U32)
    requires Candidates(t, sex) != []
    ensures OddOrder(Shuffled(Candidates(t, sex), 0, tick)) <==> |Candidates(t, sex)| % 2 == 0
  {
    hide OddOrder, Shuffled;
    AscendingOrder(Candidates(t, sex));
    ShuffleFlips(Candidates(t, sex), 0, tick);
  }
}
