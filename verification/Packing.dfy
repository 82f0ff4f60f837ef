/** Bit fields packed into a word, the first field highest, as the target's compiler lays them out. */
module Packing {
  import opened Powers
  import opened Words

  function Total(widths: seq<nat>): nat {
    if widths == [] then 0 else widths[0] + Total(widths[1..])
  }

  predicate Fits(values: seq<nat>, widths: seq<nat>) {
    |values| == |widths| && forall i :: 0 <= i < |values| ==> values[i] < Pow2(widths[i])
  }

  function Pack(values: seq<nat>, widths: seq<nat>): nat
    requires |values| == |widths|
  {
    if values == [] then 0 else Up(values[0], Total(widths[1..])) + Pack(values[1..], widths[1..])
  }

  function Unpack(word: nat, widths: seq<nat>): (values: seq<nat>)
    ensures |values| == |widths|
  {
    if widths == [] then []
    else [Down(word, Total(widths[1..]))] + Unpack(Low(word, Total(widths[1..])), widths[1..])
  }

  lemma {:induction false} PackBound(values: seq<nat>, widths: seq<nat>)
    requires Fits(values, widths)
    ensures Pack(values, widths) < Pow2(Total(widths))
  {
    if values == [] {
    } else {
      PackBound(values[1..], widths[1..]);
      UpBound(values[0], widths[0], Total(widths[1..]));
    }
  }

  /** Reading the fields back. */
  lemma {:induction false} UnpackPack(values: seq<nat>, widths: seq<nat>)
    requires Fits(values, widths)
    ensures Unpack(Pack(values, widths), widths) == values
  {
    if values == [] {
    } else {
      PackBound(values[1..], widths[1..]);
      SplitUnique(values[0], Pack(values[1..], widths[1..]), Total(widths[1..]));
      UnpackPack(values[1..], widths[1..]);
    }
  }

  /** Every word is made of its fields. */
  lemma {:induction false} PackUnpack(word: nat, widths: seq<nat>)
    requires word < Pow2(Total(widths))
    ensures Fits(Unpack(word, widths), widths) && Pack(Unpack(word, widths), widths) == word
  {
    if widths == [] {
    } else {
      var n := Total(widths[1..]);
      Split(word, n);
      DownBound(word, widths[0], n);
      PackUnpack(Low(word, n), widths[1..]);
    }
  }

  /** Masking off the last field leaves the word of the others: the comparison under a padding mask
      compares exactly the fields in front. */
  lemma {:induction false} DropLast(values: seq<nat>, widths: seq<nat>, last: nat, width: nat)
    requires Fits(values, widths) && last < Pow2(width)
    ensures Down(Pack(values + [last], widths + [width]), width) == Pack(values, widths)
    ensures Total(widths + [width]) == Total(widths) + width
  {
    hide Down, Low, Pow2;
    if values == [] {
      assert (values + [last])[1..] == [] && (widths + [width])[1..] == [];
      DownSmall(last, width);
    } else {
      var v, w := values[1..], widths[1..];
      assert (values + [last])[1..] == v + [last] && (widths + [width])[1..] == w + [width];
      DropLast(v, w, last, width);
      var rest := Pack(v + [last], w + [width]);
      UpUp(values[0], Total(w), width);
      Split(rest, width);
      UpSum(Up(values[0], Total(w)), Down(rest, width), width);
      SplitUnique(Up(values[0], Total(w)) + Down(rest, width), Low(rest, width), width);
    }
  }

  lemma PackInjective(a: seq<nat>, b: seq<nat>, widths: seq<nat>)
    requires Fits(a, widths) && Fits(b, widths) && Pack(a, widths) == Pack(b, widths)
    ensures a == b
  {
    UnpackPack(a, widths);
    UnpackPack(b, widths);
  }

  // ---------- single fields ----------

  lemma {:induction false} LowOfLow(a: nat, n: nat, k: nat)
    requires k <= n
    ensures Low(Low(a, n), k) == Low(a, k)
    decreases k
  {
    hide Low;
    LowStep(a, k);
    LowStep(a, n);
    LowStep(Low(a, n), k);
    if k > 0 {
      LowOfLow(a / 2, n - 1, k - 1);
    }
  }

  lemma {:induction false} LowOfDown(a: nat, n: nat, k: nat, j: nat)
    requires j + k <= n
    ensures Low(Down(Low(a, n), k), j) == Low(Down(a, k), j)
    decreases k
  {
    if k == 0 {
      LowOfLow(a, n, j);
    } else {
      LowOfDown(a / 2, n - 1, k - 1, j);
    }
  }

  lemma {:induction false} TotalFrom(widths: seq<nat>, k: nat)
    requires k < |widths|
    ensures widths[k] + Total(widths[k + 1..]) <= Total(widths)
  {
    if k > 0 {
      assert widths[1..][k..] == widths[k + 1..];
      TotalFrom(widths[1..], k - 1);
    }
  }

  /** A field is the word shifted down by the widths of the fields behind it, modulo its own width. */
  lemma {:induction false} FieldBits(word: nat, widths: seq<nat>, k: nat)
    requires k < |widths| && word < Pow2(Total(widths))
    ensures Unpack(word, widths)[k] == word / Pow2(Total(widths[k + 1..])) % Pow2(widths[k])
    decreases k
  {
    hide Low, Down, Pow2;
    var n, m := Total(widths[1..]), Total(widths[k + 1..]);
    DownIsQuotient(word, m);
    DownIsQuotient(Down(word, m), widths[k]);
    if k == 0 {
      DownBound(word, widths[0], n);
      DownSmall(Down(word, n), widths[0]);
    } else {
      assert widths[1..][k..] == widths[k + 1..];
      FieldBits(Low(word, n), widths[1..], k - 1);
      TotalFrom(widths[1..], k - 1);
      DownIsQuotient(Low(word, n), m);
      DownIsQuotient(Down(Low(word, n), m), widths[k]);
      LowOfDown(word, n, m, widths[k]);
    }
  }
}
