/** How a page reader walks through its list when some of its loads fail: which entries its pages show, and which
    ones the cursor passes without showing them. */
module PageWalks {
  import opened HiddenTable
  import opened Pages
  import opened Status

  /** Whether a failing load can leave its record in the buffer: only the close failed. */
  predicate LeavesRecord(o: Outcome) {
    match o
    case Refused(_, _) => false
    case Lost(_, _, taken) => taken
    case Ended(read, _, _, _) => read == Success
  }

  /** Whether load number n of a page sets the cursor back. A refusal of the first load never does: it comes back
      to the update, and not to the callback. */
  predicate TurnsBack(n: nat, o: Outcome) {
    EndsBusy(o) && (n > 0 || !o.Refused?)
  }

  /** What a run of updates has come to: the position behind the cursor, the slots whose loads went into pages, and
      those that no page shows although the cursor has passed them. */
  datatype Walk = Walk(next: nat, shown: seq<int>, lost: seq<int>)

  /** One more update, for any outcomes of its loads. */
  function Paged(w: Walk, outcomes: seq<Outcome>, size: nat, o: seq<int>): (w': Walk)
    requires w.next <= |o|
    ensures w'.next <= |o|
  {
    var e := Min(w.next + size, |o|);
    var n := Good(outcomes, 0, e - w.next);
    if w.next + n == e then Walk(e, w.shown + o[w.next..e], w.lost)
    else if TurnsBack(n, OutcomeAt(outcomes, n)) then w
    else Walk(w.next + n + 1, w.shown + o[w.next..w.next + n], w.lost + [o[w.next + n]])
  }

  /** A run of updates over the list o. */
  function Walked(plan: seq<seq<Outcome>>, size: nat, o: seq<int>): (w: Walk)
    ensures w.next <= |o|
    decreases |plan|
  {
    if plan == [] then Walk(0, [], [])
    else Paged(Walked(plan[..|plan| - 1], size, o), plan[|plan| - 1], size, o)
  }

  /** The list without the given slots. */
  function Without(o: seq<int>, lost: seq<int>): (rest: seq<int>)
  {
    if o == [] then []
    else
      var n := |o| - 1;
      if o[n] in lost then Without(o[..n], lost) else Without(o[..n], lost) + [o[n]]
  }

  lemma WalkedSnoc(plan: seq<seq<Outcome>>, i: nat, size: nat, o: seq<int>)
    requires i < |plan|
    ensures Walked(plan[..i + 1], size, o) == Paged(Walked(plan[..i], size, o), plan[i], size, o)
  {
    hide Paged;
    assert plan[..i + 1][..i] == plan[..i];
  }

  lemma WalkedNone(size: nat, o: seq<int>)
    ensures Walked([], size, o) == Walk(0, [], [])
  {
  }

  /** What an update adds depends only on the position it starts from. */
  lemma PagedFrom(w: Walk, outcomes: seq<Outcome>, size: nat, o: seq<int>)
    requires w.next <= |o|
    ensures var added := Paged(Walk(w.next, [], []), outcomes, size, o);
            Paged(w, outcomes, size, o) == Walk(added.next, w.shown + added.shown, w.lost + added.lost)
  {
    hide Good, TurnsBack;
  }

  lemma {:induction false} WithoutSnoc(o: seq<int>, s: int, lost: seq<int>)
    ensures Without(o + [s], lost) == Without(o, lost) + (if s in lost then [] else [s])
  {
    assert (o + [s])[..|o|] == o;
  }

  lemma WithoutNone(lost: seq<int>)
    ensures Without([], lost) == []
  {
  }

  lemma {:induction false} WithoutAppend(a: seq<int>, b: seq<int>, lost: seq<int>)
    ensures Without(a + b, lost) == Without(a, lost) + Without(b, lost)
    decreases |b|
  {
    hide Without;
    if b == [] {
      assert a + b == a;
      WithoutNone(lost);
    } else {
      var n := |b| - 1;
      WithoutAppend(a, b[..n], lost);
      WithoutSnoc(b[..n], b[n], lost);
      WithoutSnoc(a + b[..n], b[n], lost);
      assert b == b[..n] + [b[n]] && a + b == (a + b[..n]) + [b[n]];
    }
  }

  /** Slots that do not occur make no difference. */
  lemma {:induction false} WithoutMore(o: seq<int>, lost: seq<int>, more: seq<int>)
    requires forall i :: 0 <= i < |more| ==> more[i] !in o
    ensures Without(o, lost + more) == Without(o, lost)
    decreases |o|
  {
    if o != [] {
      WithoutMore(o[..|o| - 1], lost, more);
    }
  }

  lemma {:induction false} NoneOf(o: seq<int>, lost: seq<int>)
    requires forall i :: 0 <= i < |o| ==> o[i] !in lost
    ensures Without(o, lost) == o
    decreases |o|
  {
    if o != [] {
      NoneOf(o[..|o| - 1], lost);
    }
  }

  lemma PagedCases(p: nat, outcomes: seq<Outcome>, size: nat, o: seq<int>)
    requires p <= |o|
    ensures var w := Paged(Walk(p, [], []), outcomes, size, o);
            var e := Min(p + size, |o|);
            var n := Good(outcomes, 0, e - p);
            if p + n == e then w.next == e && w.shown == o[p..e]
            else if TurnsBack(n, OutcomeAt(outcomes, n)) then w.next == p && w.shown == []
            else w.next == p + n + 1 && w.shown == o[p..p + n]
  {
    hide Good, TurnsBack;
  }

  /** What an update adds: a stretch of the list, behind which one entry may be passed over. */
  lemma PagedAdds(p: nat, outcomes: seq<Outcome>, size: nat, o: seq<int>)
    requires p <= |o|
    ensures var w := Paged(Walk(p, [], []), outcomes, size, o);
            && p <= w.next && w.shown + w.lost == o[p..w.next] && |w.lost| <= 1
            && (w.lost == [] || w.lost == [o[w.next - 1]])
  {
    hide Good, TurnsBack;
  }

  lemma {:induction false} LostIn(plan: seq<seq<Outcome>>, size: nat, o: seq<int>)
    ensures var w := Walked(plan, size, o);
            |w.lost| <= |plan| && forall i :: 0 <= i < |w.lost| ==> w.lost[i] in o[..w.next]
    decreases |plan|
  {
    hide Paged;
    if plan != [] {
      var n := |plan| - 1;
      LostIn(plan[..n], size, o);
      var w, w' := Walked(plan[..n], size, o), Walked(plan, size, o);
      PagedFrom(w, plan[n], size, o);
      PagedAdds(w.next, plan[n], size, o);
      assert o[..w'.next] == o[..w.next] + o[w.next..w'.next];
    }
  }

  lemma AddedWithout(shown: seq<int>, one: seq<int>, lost: seq<int>)
    requires |one| <= 1 && (forall i :: 0 <= i < |shown| ==> shown[i] !in lost) && (one != [] ==> one[0] in lost)
    ensures Without(shown + one, lost) == shown
  {
    hide Without;
    NoneOf(shown, lost);
    if one == [] {
      assert shown + one == shown;
    } else {
      assert one == [one[0]];
      WithoutSnoc(shown, one[0], lost);
    }
  }

  /** For any outcomes, the pages show the list up to the cursor without the entries that were lost, each once and
      in order. An update loses at most one entry. */
  lemma {:induction false} WalkCovers(plan: seq<seq<Outcome>>, size: nat, o: seq<int>)
    requires Distinct(o)
    ensures var w := Walked(plan, size, o);
            w.shown == Without(o[..w.next], w.lost) && |w.shown| + |w.lost| == w.next && |w.lost| <= |plan|
    decreases |plan|
  {
    hide Paged, Without;
    LostIn(plan, size, o);
    if plan == [] {
      WithoutNone([]);
    } else {
      var n := |plan| - 1;
      WalkCovers(plan[..n], size, o);
      LostIn(plan[..n], size, o);
      var w, w' := Walked(plan[..n], size, o), Walked(plan, size, o);
      var added := Paged(Walk(w.next, [], []), plan[n], size, o);
      PagedFrom(w, plan[n], size, o);
      PagedAdds(w.next, plan[n], size, o);
      assert o[..w'.next] == o[..w.next] + (added.shown + added.lost);
      WithoutMore(o[..w.next], w.lost, added.lost);
      WithoutAppend(o[..w.next], added.shown + added.lost, w'.lost);
      forall i | 0 <= i < |added.shown|
        ensures added.shown[i] !in w'.lost
      {
        assert added.shown[i] == (added.shown + added.lost)[i] == o[w.next + i];
      }
      AddedWithout(added.shown, added.lost, w'.lost);
    }
  }

  /** An update that starts at position p of a list of length n comes to its end, or turns back. */
  predicate Keeps(p: nat, outcomes: seq<Outcome>, size: nat, n: nat)
    requires p <= n
  {
    var e := Min(p + size, n);
    var good := Good(outcomes, 0, e - p);
    p + good == e || TurnsBack(good, OutcomeAt(outcomes, good))
  }

  lemma PagedKeeps(w: Walk, outcomes: seq<Outcome>, size: nat, o: seq<int>)
    requires w.next <= |o|
    ensures Paged(w, outcomes, size, o).lost == w.lost <==> Keeps(w.next, outcomes, size, |o|)
    ensures w.lost <= Paged(w, outcomes, size, o).lost
  {
    hide Good, TurnsBack;
  }

  /** Every update of the run comes to its end, or turns back. */
  predicate Unbroken(plan: seq<seq<Outcome>>, size: nat, o: seq<int>)
    decreases |plan|
  {
    plan == [] ||
    var n := |plan| - 1;
    Unbroken(plan[..n], size, o) && Keeps(Walked(plan[..n], size, o).next, plan[n], size, |o|)
  }

  lemma {:induction false} LostNone(plan: seq<seq<Outcome>>, size: nat, o: seq<int>)
    ensures Walked(plan, size, o).lost == [] <==> Unbroken(plan, size, o)
    decreases |plan|
  {
    hide Paged, Keeps;
    if plan != [] {
      var n := |plan| - 1;
      LostNone(plan[..n], size, o);
      PagedKeeps(Walked(plan[..n], size, o), plan[n], size, o);
    }
  }

  /** The pages show the list without a gap exactly if every update that fails turns back. */
  lemma NothingLost(plan: seq<seq<Outcome>>, size: nat, o: seq<int>)
    requires Distinct(o)
    ensures var w := Walked(plan, size, o);
            w.shown == o[..w.next] <==> Unbroken(plan, size, o)
  {
    hide Walked, Keeps, Without, Unbroken;
    LostNone(plan, size, o);
    WalkCovers(plan, size, o);
    var w := Walked(plan, size, o);
    if w.lost == [] {
      NoneOf(o[..w.next], []);
    }
  }

  lemma BusyLoad(first: Outcome, o: seq<int>, size: nat)
    requires o != [] && size > 0 && Fails(first)
    ensures Walked([[first]], size, o) == if TurnsBack(0, first) then Walk(0, [], []) else Walk(1, [], [o[0]])
  {
    hide TurnsBack, Fails;
    assert [[first]][..0] == [] && OutcomeAt([first], 0) == first;
    WalkedNone(size, o);
    WalkedSnoc([[first]], 0, size, o);
    assert [[first]][..1] == [[first]];
    assert o[0..0] == [];
  }

  /** A first load that fails as busy: its entry is lost when the read failed or the open was refused, and is not
      when only the close failed. */
  lemma BusyLoads(o: seq<int>, size: nat)
    requires o != [] && size > 0
    ensures Walked([[Ended(NANDCommandfail, NAND_BUSY, Success, 0)]], size, o) == Walk(1, [], [o[0]])
    ensures Walked([[Refused(NANDCommandfail, NAND_BUSY)]], size, o) == Walk(1, [], [o[0]])
    ensures Walked([[Ended(Success, 0, NANDCommandfail, NAND_BUSY)]], size, o) == Walk(0, [], [])
  {
    BusyLoad(Ended(NANDCommandfail, NAND_BUSY, Success, 0), o, size);
    BusyLoad(Refused(NANDCommandfail, NAND_BUSY), o, size);
    BusyLoad(Ended(Success, 0, NANDCommandfail, NAND_BUSY), o, size);
  }
}
