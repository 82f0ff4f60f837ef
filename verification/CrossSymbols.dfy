/** The search of tools/cross_symbol.py: the longest run of symbols that matches the reference from a base
    symbol on, found with a cursor that goes back on a mismatch. */
module CrossSymbols {
  datatype Symbol = Symbol(size: int, section: string, address: int)
  datatype Match = Match(address: int, length: nat)
  datatype Result<T> = Found(value: T) | KeyError

  predicate SameShape(a: Symbol, b: Symbol) {
    a.size == b.size && a.section == b.section
  }

  /** The length of the run that starts at place s and matches the reference from place b on. */
  function RunLength(ref: seq<Symbol>, b: nat, current: seq<Symbol>, s: nat): (n: nat)
    ensures n > 0 ==> b + n <= |ref| && s + n <= |current|
    decreases |ref| - b
  {
    if b < |ref| && s < |current| && SameShape(current[s], ref[b])
    then 1 + RunLength(ref, b + 1, current, s + 1) else 0
  }

  /** The n places from s on match the reference from place b on. */
  ghost predicate Agree(ref: seq<Symbol>, b: nat, current: seq<Symbol>, s: nat, n: nat) {
    b + n <= |ref| && s + n <= |current| && forall j :: s <= j < s + n ==> SameShape(current[j], ref[b + (j - s)])
  }

  /** A run matches in each place and is cut off by a mismatch or the end of a list. */
  lemma {:induction false} RunLengthIs(ref: seq<Symbol>, b: nat, current: seq<Symbol>, s: nat, n: nat)
    requires Agree(ref, b, current, s, n)
    ensures RunLength(ref, b, current, s) >= n
    ensures RunLength(ref, b, current, s) == n <==>
      b + n == |ref| || s + n == |current| || !SameShape(current[s + n], ref[b + n])
    decreases n
  {
    hide SameShape;
    if n > 0 {
      assert SameShape(current[s], ref[b]);
      RunLengthIs(ref, b + 1, current, s + 1, n - 1);
    }
  }

  lemma {:induction false} RunBounded(ref: seq<Symbol>, b: nat, current: seq<Symbol>, s: nat)
    requires b <= |ref| && s <= |current|
    ensures RunLength(ref, b, current, s) <= |ref| - b
    ensures RunLength(ref, b, current, s) <= |current| - s
  {
  }

  ghost predicate IsFirst(ref: seq<Symbol>, b: nat, current: seq<Symbol>, m: Match, s: nat)
    requires s < |current|
  {
    RunLength(ref, b, current, s) == m.length && m.address == current[s].address
    && forall r :: 0 <= r < s ==> RunLength(ref, b, current, r) < m.length
  }

  /** The answer: the longest run and the address of its first occurrence. */
  ghost predicate IsLongest(ref: seq<Symbol>, b: nat, current: seq<Symbol>, m: Match) {
    && (forall s :: 0 <= s < |current| ==> RunLength(ref, b, current, s) <= m.length)
    && (m.length == 0 ==> m.address == 0)
    && (m.length > 0 ==> exists s :: 0 <= s < |current| && IsFirst(ref, b, current, m, s))
  }

  /** The best run so far is the first of its length; it may be the one that is still growing. */
  ghost predicate BestSoFar(ref: seq<Symbol>, b: nat, current: seq<Symbol>, best: nat, longest: nat, address: int,
                            start: nat, matched: nat) {
    && best < |current| && best <= start && address == current[best].address
    && (forall r :: 0 <= r < best ==> RunLength(ref, b, current, r) < longest)
    && (if best == start then matched == longest else RunLength(ref, b, current, best) == longest)
  }

  /** Neither the end of the list nor the end of the reference leaves a longer run behind. */
  lemma Finished(ref: seq<Symbol>, b: nat, current: seq<Symbol>, i: nat, matched: nat, longest: nat)
    requires matched <= i <= |current| && b + matched <= |ref| && (i == |current| || b + matched == |ref|)
    requires matched <= longest
    requires Agree(ref, b, current, i - matched, matched)
    requires forall s :: 0 <= s < i - matched ==> RunLength(ref, b, current, s) <= longest
    ensures forall s :: 0 <= s < |current| ==> RunLength(ref, b, current, s) <= longest
    ensures i - matched < |current| ==> RunLength(ref, b, current, i - matched) == matched
  {
    hide SameShape, RunLength;
    RunLengthIs(ref, b, current, i - matched, matched);
    forall s | 0 <= s < |current|
      ensures RunLength(ref, b, current, s) <= longest
    {
      RunBounded(ref, b, current, s);
    }
  }

  /** `cross_symbols`. The cursor goes back to the second place of a run that broke off, so that no
      overlapping run is missed; where the reference ends, no longer run is possible. */
  method CrossSymbols(ref: seq<Symbol>, addresses: map<int, nat>, current: seq<Symbol>, base: int)
    returns (result: Result<Match>)
    requires forall a :: a in addresses ==> addresses[a] < |ref|
    ensures base !in addresses <==> result.KeyError?
    ensures result.Found? ==> IsLongest(ref, addresses[base], current, result.value)
  {
    hide SameShape, RunLength;
    if base !in addresses {
      return KeyError;
    }
    var refIdx := addresses[base];
    var longest, longestAddress, matched, matchedAddress, i := 0, 0, 0, 0, 0;
    ghost var best: nat := 0;
    while i < |current|
      invariant 0 <= matched <= i <= |current| && refIdx + matched <= |ref|
      invariant Agree(ref, refIdx, current, i - matched, matched)
      invariant matched > 0 ==> matchedAddress == current[i - matched].address
      invariant forall s :: 0 <= s < i - matched ==> RunLength(ref, refIdx, current, s) <= longest
      invariant matched <= longest
      invariant longest == 0 ==> longestAddress == 0
      invariant longest > 0 ==> BestSoFar(ref, refIdx, current, best, longest, longestAddress, i - matched, matched)
      decreases |current| - (i - matched), |current| - i
    {
      var sym := current[i];
      ghost var start := i - matched;
      RunLengthIs(ref, refIdx, current, start, matched);
      if refIdx + matched >= |ref| {
        break;
      }
      var refSym := ref[refIdx + matched];
      if SameShape(sym, refSym) {
        if matched == 0 {
          matchedAddress := sym.address;
        }
        matched := matched + 1;
        RunLengthIs(ref, refIdx, current, start, matched);
        if matched > longest {
          longest := matched;
          longestAddress := matchedAddress;
          best := start;
        }
      } else if matched != 0 {
        i := i - matched;
        matched := 0;
        matchedAddress := 0;
      }
      i := i + 1;
    }
    Finished(ref, refIdx, current, i, matched, longest);
    assert longest > 0 ==> IsFirst(ref, refIdx, current, Match(longestAddress, longest), best);
    result := Found(Match(longestAddress, longest));
  }
}
