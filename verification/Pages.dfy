/** What the paged readers of src/RVLFaceLib/RFL_MiddleDatabase.c have to deliver: the accepted records of
    consecutive stretches of the list, in either direction. */
module Pages {
  import opened CreateIds
  import opened Faces
  import opened HiddenTable
  import opened HiddenWriter

  // ---------- the list in reading order ----------

  function Reversed(s: seq<int>): (r: seq<int>)
    ensures |r| == |s| && forall i :: 0 <= i < |s| ==> r[i] == s[|s| - 1 - i]
  {
    seq(|s|, i requires 0 <= i < |s| => s[|s| - 1 - i])
  }

  /** Oldest first, or newest first. */
  function Reading(order: seq<int>, newer: bool): (o: seq<int>)
    ensures |o| == |order|
  {
    if newer then Reversed(order) else order
  }

  /** `RFLiGetHiddenNext` and `RFLiGetHiddenPrev`; -1 as an unsigned index is out of range. */
  function Neighbour(t: seq<TableData>, index: int, newer: bool): int {
    if index < 0 || index >= |t| then -1
    else if IsValidID(t[index].createID) then (if newer then t[index].prev else t[index].next)
    else -1
  }

  lemma ReadingDistinct(order: seq<int>, newer: bool)
    requires Distinct(order)
    ensures Distinct(Reading(order, newer))
  {
    var o, n := Reading(order, newer), |order|;
    forall i, j | 0 <= i < j < |o|
      ensures o[i] != o[j]
    {
      if newer {
        assert o[i] == order[n - 1 - i] && o[j] == order[n - 1 - j];
      }
    }
  }

  lemma LinkedSlots(t: seq<TableData>, order: seq<int>, head: int, tail: int, k: nat)
    requires WellFormed(t, order, head, tail) && k < |order|
    ensures 0 <= order[k] < |t| && IsValidID(t[order[k]].createID)
    ensures t[order[k]].next == At(order, k + 1) && t[order[k]].prev == At(order, k - 1)
  {
    hide Distinct;
    assert order[k] in order;
  }

  /** Links lead from each entry of the reading order to the following one, and to -1 at its end. */
  lemma ReadingLinks(t: seq<TableData>, order: seq<int>, head: int, tail: int, newer: bool)
    requires WellFormed(t, order, head, tail)
    ensures var o := Reading(order, newer);
            && (forall i :: 0 <= i < |o| ==> 0 <= o[i] < |t| && Neighbour(t, o[i], newer) == At(o, i + 1))
            && (if newer then tail else head) == At(o, 0)
            && Distinct(o)
  {
    hide Distinct, Occupied, IsValidID;
    ReadingDistinct(order, newer);
    var o := Reading(order, newer);
    forall i | 0 <= i < |o|
      ensures 0 <= o[i] < |t| && Neighbour(t, o[i], newer) == At(o, i + 1)
    {
      LinkedSlots(t, order, head, tail, if newer then |order| - 1 - i else i);
    }
  }

  // ---------- the records of a stretch ----------

  /** The record of a slot is accepted when it carries the identifier of the table and is valid. */
  predicate Loadable(r: HiddenRecord, id: CreateID) {
    IsSameID(r.createID, id) && CheckValidInfo(HiddenToInfo(r))
  }

  ghost predicate SlotsOf(slots: seq<int>, n: nat) {
    forall i :: 0 <= i < |slots| ==> 0 <= slots[i] < n
  }

  /** The accepted records of the listed slots, in order. */
  function Loaded(source: seq<HiddenRecord>, t: seq<TableData>, slots: seq<int>): (r: seq<HiddenRecord>)
    requires |source| == |t| && SlotsOf(slots, |t|)
    ensures |r| <= |slots|
  {
    if slots == [] then []
    else
      var n := |slots| - 1;
      var before := Loaded(source, t, slots[..n]);
      if Loadable(source[slots[n]], t[slots[n]].createID) then before + [source[slots[n]]] else before
  }

  lemma LoadedSnoc(source: seq<HiddenRecord>, t: seq<TableData>, slots: seq<int>, s: int)
    requires |source| == |t| && SlotsOf(slots, |t|) && 0 <= s < |t|
    ensures Loaded(source, t, slots + [s])
         == Loaded(source, t, slots) + (if Loadable(source[s], t[s].createID) then [source[s]] else [])
  {
    hide Loadable;
    assert (slots + [s])[..|slots|] == slots;
  }

  lemma NothingLoaded(source: seq<HiddenRecord>, t: seq<TableData>)
    requires |source| == |t|
    ensures Loaded(source, t, []) == []
  {
  }

  lemma {:induction false} LoadedAppend(source: seq<HiddenRecord>, t: seq<TableData>, a: seq<int>, b: seq<int>)
    requires |source| == |t| && SlotsOf(a, |t|) && SlotsOf(b, |t|)
    ensures Loaded(source, t, a + b) == Loaded(source, t, a) + Loaded(source, t, b)
    decreases |b|
  {
    hide Loadable, Loaded;
    if b == [] {
      assert a + b == a;
      NothingLoaded(source, t);
    } else {
      var n := |b| - 1;
      LoadedAppend(source, t, a, b[..n]);
      assert a + b == (a + b[..n]) + [b[n]];
      LoadedSnoc(source, t, a + b[..n], b[n]);
      assert b == b[..n] + [b[n]];
      LoadedSnoc(source, t, b[..n], b[n]);
    }
  }

  /** Where cache and file agree on the listed slots, both give the same records. */
  lemma {:induction false} SameSource(cache: seq<HiddenRecord>, file: seq<HiddenRecord>, t: seq<TableData>,
                                      slots: seq<int>)
    requires |cache| == |file| == |t| && SlotsOf(slots, |t|)
    requires forall i :: 0 <= i < |slots| ==> cache[slots[i]] == file[slots[i]]
    ensures Loaded(cache, t, slots) == Loaded(file, t, slots)
    decreases |slots|
  {
    hide Loadable;
    if slots != [] {
      SameSource(cache, file, t, slots[..|slots| - 1]);
    }
  }

  /** When every listed slot holds a record fit for the database, nothing is skipped. */
  lemma {:induction false} NothingSkipped(source: seq<HiddenRecord>, t: seq<TableData>, slots: seq<int>)
    requires |source| == |t| && SlotsOf(slots, |t|)
    requires forall i :: 0 <= i < |slots| ==> Loadable(source[slots[i]], t[slots[i]].createID)
    ensures |Loaded(source, t, slots)| == |slots|
    ensures forall i :: 0 <= i < |slots| ==> Loaded(source, t, slots)[i] == source[slots[i]]
    decreases |slots|
  {
    hide Loadable;
    if slots != [] {
      NothingSkipped(source, t, slots[..|slots| - 1]);
    }
  }

  lemma LinkedLoadable(t: seq<TableData>, order: seq<int>, head: int, tail: int, file: seq<HiddenRecord>, s: int)
    requires WellFormed(t, order, head, tail) && InFile(t, file, -1) && s in order
    ensures 0 <= s < |t| && Loadable(file[s], t[s].createID) && file[s].createID == t[s].createID
  {
    hide CheckValidInfo, HiddenToInfo, Distinct;
  }

  /** After a batch of successful writes the readers deliver every entry of the table. */
  lemma WrittenIsReadable(t: seq<TableData>, order: seq<int>, head: int, tail: int, file: seq<HiddenRecord>,
                          newer: bool)
    requires WellFormed(t, order, head, tail) && InFile(t, file, -1)
    ensures var o := Reading(order, newer);
            && SlotsOf(o, |t|) && |Loaded(file, t, o)| == |order|
            && forall i :: 0 <= i < |o| ==> Loaded(file, t, o)[i].createID == t[o[i]].createID
  {
    hide WellFormed, Loadable, Neighbour, Distinct;
    ReadingLinks(t, order, head, tail, newer);
    var o := Reading(order, newer);
    forall i | 0 <= i < |o|
      ensures Loadable(file[o[i]], t[o[i]].createID) && file[o[i]].createID == t[o[i]].createID
    {
      LinkedLoadable(t, order, head, tail, file, o[i]) by {
        assert o[i] in order;
      }
    }
    NothingSkipped(file, t, o);
  }

  lemma LoadableChecks(r: HiddenRecord, id: CreateID)
    requires Loadable(r, id)
    ensures CheckHiddenData(r) && !IsTemporaryID(HiddenToInfo(r).createID)
  {
    hide CheckValidInfo;
  }

  // ---------- the buffer ----------

  /** The buffer holds the accepted records of the listed slots, and is cleared behind them. */
  ghost predicate Filled(d: seq<HiddenRecord>, source: seq<HiddenRecord>, t: seq<TableData>, slots: seq<int>,
                         stored: nat) {
    && |source| == |t| && SlotsOf(slots, |t|)
    && stored <= |slots| <= |d| && d[..stored] == Loaded(source, t, slots)
    && forall i :: stored <= i < |d| ==> d[i] == Blank()
  }

  lemma FilledEmpty(d: seq<HiddenRecord>, source: seq<HiddenRecord>, t: seq<TableData>)
    requires |source| == |t| && forall i :: 0 <= i < |d| ==> d[i] == Blank()
    ensures Filled(d, source, t, [], 0)
  {
  }

  lemma BlankFails()
    ensures !CheckHiddenData(Blank())
  {
    hide CheckValidInfo;
  }

  /** One load into the first free place: the record counts exactly if it was accepted. */
  lemma FillStep(d: seq<HiddenRecord>, d': seq<HiddenRecord>, source: seq<HiddenRecord>, t: seq<TableData>,
                 slots: seq<int>, s: int, stored: nat)
    requires Filled(d, source, t, slots, stored) && |slots| < |d| && 0 <= s < |t|
    requires d' == (if Loadable(source[s], t[s].createID) then d[stored := source[s]] else d)
    ensures Filled(d', source, t, slots + [s], if Loadable(source[s], t[s].createID) then stored + 1 else stored)
    ensures CheckHiddenData(d'[stored]) <==> Loadable(source[s], t[s].createID)
  {
    hide Loadable, CheckHiddenData, Loaded, Blank;
    LoadedSnoc(source, t, slots, s);
    if Loadable(source[s], t[s].createID) {
      LoadableChecks(source[s], t[s].createID);
    } else {
      BlankFails();
    }
  }

  lemma FilledParts(d: seq<HiddenRecord>, source: seq<HiddenRecord>, t: seq<TableData>, slots: seq<int>, stored: nat)
    requires Filled(d, source, t, slots, stored)
    ensures |source| == |t| && SlotsOf(slots, |t|) && stored <= |slots| <= |d|
    ensures d[..stored] == Loaded(source, t, slots)
  {
  }

  lemma FilledBehind(d: seq<HiddenRecord>, source: seq<HiddenRecord>, t: seq<TableData>, slots: seq<int>, stored: nat)
    requires Filled(d, source, t, slots, stored) && stored < |d|
    ensures d[stored] == Blank() && d[stored := Blank()] == d
  {
  }

  // ---------- consecutive pages ----------

  function Min(a: int, b: int): int {
    if a < b then a else b
  }

  /** How far k pages of the given size lead into a list of length n. */
  function PageEnd(k: nat, size: nat, n: nat): (e: nat)
    ensures e <= n
  {
    if k == 0 then 0 else Min(PageEnd(k - 1, size, n) + size, n)
  }

  /** k pages cover k times the page size, or all there is. */
  lemma {:induction false} PagesCover(k: nat, size: nat, n: nat)
    ensures PageEnd(k, size, n) == Min(k * size, n)
  {
    if k > 0 {
      PagesCover(k - 1, size, n);
      assert k * size == (k - 1) * size + size;
    }
  }
}
