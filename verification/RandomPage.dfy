/** The random sample of src/RVLFaceLib/RFL_MiddleDatabase.c: candidates are shuffled, their numbers are
    written into the very buffer that the records go to, and the records then overwrite them. */
module RandomPage {
  import opened Words
  import opened CreateIds
  import opened Faces
  import opened HiddenTable
  import opened RecordQueue
  import opened HiddenWriter
  import opened Pages

  // ---------- candidates ----------

  predicate Wanted(female: bool, sex: Sex) {
    sex == AnySex || (if female then sex == Female else sex == Male)
  }

  /** `RFLiIsValidHiddenData`; the sex of the table is true for female. */
  predicate IsCandidate(e: TableData, sex: Sex) {
    IsValidID(e.createID) && Wanted(e.sex, sex)
  }

  /** The slots of the requested sex, in ascending order. */
  function Candidates(t: seq<TableData>, sex: Sex): (c: seq<int>)
    ensures |c| <= |t| && Distinct(c) && forall i, j :: 0 <= i < j < |c| ==> c[i] < c[j]
    ensures forall s :: s in c <==> 0 <= s < |t| && IsCandidate(t[s], sex)
  {
    if t == [] then []
    else
      var n := |t| - 1;
      var before := Candidates(t[..n], sex);
      assert forall i :: 0 <= i < |before| ==> before[i] in before;
      if IsCandidate(t[n], sex) then before + [n] else before
  }

  lemma CandidatesSnoc(t: seq<TableData>, sex: Sex, i: nat)
    requires i < |t|
    ensures Candidates(t[..i + 1], sex) == Candidates(t[..i], sex) + (if IsCandidate(t[i], sex) then [i] else [])
  {
    hide IsCandidate;
    assert t[..i + 1][..i] == t[..i];
  }

  lemma {:induction false} CandidatesGrow(t: seq<TableData>, sex: Sex, i: nat)
    requires i <= |t|
    ensures |Candidates(t[..i], sex)| <= |Candidates(t, sex)|
    decreases |t| - i
  {
    hide IsCandidate, Candidates;
    if i < |t| {
      CandidatesSnoc(t, sex, i);
      CandidatesGrow(t, sex, i + 1);
    } else {
      assert t[..i] == t;
    }
  }

  // ---------- the shuffle ----------

  /** The generator step. */
  function NextRand(rand: U32): U32 {
    (0x04F8BB63 * ((rand + 0x046AC055) % 0x1_0000_0000)) % 0x1_0000_0000
  }

  /** The partner of place i: any place of the array but i itself. */
  function Target(rand: U32, i: nat, count: nat): (target: nat)
    requires i < count - 1
    ensures target < count && target != i
  {
    var target := ((rand / 0x1_0000 + rand) % 0x1_0000) % (count - 1);
    if target >= i then target + 1 else target
  }

  function Swap(a: seq<int>, i: nat, j: nat): (b: seq<int>)
    requires i < |a| && j < |a|
    ensures |b| == |a|
  {
    a[i := a[j]][j := a[i]]
  }

  /** The array after the exchanges from place i on. */
  function Shuffled(a: seq<int>, i: nat, rand: U32): (b: seq<int>)
    ensures |b| == |a|
    decreases |a| - i
  {
    if i >= |a| - 1 then a else Shuffled(Swap(a, i, Target(rand, i, |a|)), i + 1, NextRand(rand))
  }

  lemma SwapKeeps(a: seq<int>, i: nat, j: nat)
    requires i < |a| && j < |a|
    ensures multiset(Swap(a, i, j)) == multiset(a)
    ensures Distinct(a) ==> Distinct(Swap(a, i, j))
  {
  }

  /** The shuffle only rearranges. */
  lemma {:induction false} ShuffleKeeps(a: seq<int>, i: nat, rand: U32)
    ensures multiset(Shuffled(a, i, rand)) == multiset(a)
    ensures Distinct(a) ==> Distinct(Shuffled(a, i, rand))
    decreases |a| - i
  {
    hide Swap, Distinct, NextRand;
    if i < |a| - 1 {
      var target := Target(rand, i, |a|);
      SwapKeeps(a, i, target);
      ShuffleKeeps(Swap(a, i, target), i + 1, NextRand(rand));
    }
  }

  /** Two candidates always change places, whatever the clock shows. */
  lemma ShuffleOfTwo(a: int, b: int, rand: U32)
    ensures Shuffled([a, b], 0, rand) == [b, a]
  {
    hide NextRand;
    var target := Target(rand, 0, 2);
    assert target == 1;
    assert Swap([a, b], 0, 1) == [b, a];
    assert Shuffled([a, b], 0, rand) == Shuffled([b, a], 1, NextRand(rand));
  }

  /** The shuffled array holds exactly the candidates, each once. */
  lemma ShuffledCandidates(t: seq<TableData>, sex: Sex, rand: U32)
    ensures var a := Shuffled(Candidates(t, sex), 0, rand);
            Distinct(a) && forall s :: s in a <==> 0 <= s < |t| && IsCandidate(t[s], sex)
  {
    hide IsCandidate, Shuffled, Distinct;
    var c := Candidates(t, sex);
    ShuffleKeeps(c, 0, rand);
    forall s
      ensures s in Shuffled(c, 0, rand) <==> s in c
    {
      assert s in Shuffled(c, 0, rand) <==> s in multiset(Shuffled(c, 0, rand));
    }
  }

  // ---------- seeds in the buffer ----------

  /** The first word of the record memory: the flags and the first character of the name. */
  function SeedOf(r: HiddenRecord): nat {
    r.words[0] * 0x1_0000 + r.name[0]
  }

  function WithSeed(r: HiddenRecord, seed: nat): HiddenRecord
    requires seed < 0x1_0000
  {
    r.(words := r.words[0 := 0], name := r.name[0 := seed])
  }

  lemma SeedBack(r: HiddenRecord, seed: nat)
    requires seed < 0x1_0000
    ensures SeedOf(WithSeed(r, seed)) == seed && WithSeed(r, seed).createID == r.createID
    ensures SeedOf(Blank()) == 0
  {
  }

  /** The seeds of the cells from j on are intact. */
  ghost predicate SeedsFrom(d: seq<HiddenRecord>, drawn: seq<int>, j: nat) {
    |drawn| <= |d| && forall i :: j <= i < |d| ==> SeedOf(d[i]) == if i < |drawn| then drawn[i] + 1 else 0
  }

  /** The first j drawn slots have been read: the accepted records fill the front, no cell behind them
      shows an identifier, and the seeds from j on are intact. */
  ghost predicate Sampled(d: seq<HiddenRecord>, source: seq<HiddenRecord>, t: seq<TableData>, drawn: seq<int>,
                          stored: nat, j: nat) {
    && |source| == |t| && SlotsOf(drawn, |t|) && stored <= j <= |drawn|
    && SeedsFrom(d, drawn, j) && d[..stored] == Loaded(source, t, drawn[..j])
    && forall i :: stored <= i < |d| ==> d[i].createID == NO_ID
  }

  lemma SampledParts(d: seq<HiddenRecord>, source: seq<HiddenRecord>, t: seq<TableData>, drawn: seq<int>, stored: nat,
                     j: nat)
    requires Sampled(d, source, t, drawn, stored, j)
    ensures |source| == |t| && SlotsOf(drawn, |t|) && stored <= j <= |drawn| <= |d|
    ensures d[..stored] == Loaded(source, t, drawn[..j])
    ensures j < |d| ==> SeedOf(d[j]) == if j < |drawn| then drawn[j] + 1 else 0
    ensures j < |drawn| ==> 0 <= drawn[j] < |t|
  {
  }

  lemma NoIdFails(r: HiddenRecord)
    requires r.createID == NO_ID
    ensures !CheckHiddenData(r)
  {
    hide CheckValidInfo;
  }

  /** One load: the record lands on seeds that have been read. */
  lemma SampleStep(d: seq<HiddenRecord>, d': seq<HiddenRecord>, source: seq<HiddenRecord>, t: seq<TableData>,
                   drawn: seq<int>, stored: nat, j: nat)
    requires Sampled(d, source, t, drawn, stored, j) && j < |drawn|
    requires var s := drawn[j]; d' == if Loadable(source[s], t[s].createID) then d[stored := source[s]] else d
    ensures Sampled(d', source, t, drawn,
                    if Loadable(source[drawn[j]], t[drawn[j]].createID) then stored + 1 else stored, j + 1)
    ensures CheckHiddenData(d'[stored]) <==> Loadable(source[drawn[j]], t[drawn[j]].createID)
  {
    hide Loadable, CheckHiddenData, Loaded, SeedOf;
    var s := drawn[j];
    assert drawn[..j + 1] == drawn[..j] + [s];
    LoadedSnoc(source, t, drawn[..j], s);
    if Loadable(source[s], t[s].createID) {
      LoadableChecks(source[s], t[s].createID);
      assert d'[..stored + 1] == d[..stored] + [source[s]];
    } else {
      NoIdFails(d'[stored]);
    }
  }

  // ---------- where the sample ends ----------

  /** The synchronous loop goes on behind place j: the slot there is not the last of the table. */
  function SyncEnd(drawn: seq<int>, n: nat, j: nat): (e: nat)
    requires j < |drawn|
    ensures j < e <= |drawn|
    decreases |drawn| - j
  {
    if j + 1 < |drawn| && drawn[j] + 1 < n then SyncEnd(drawn, n, j + 1) else j + 1
  }

  /** The callback chain goes on to place j + 1: the slot there is not the last of the table. */
  function AsyncEnd(drawn: seq<int>, n: nat, j: nat): (e: nat)
    requires j < |drawn|
    ensures j < e <= |drawn|
    decreases |drawn| - j
  {
    if j + 1 < |drawn| && drawn[j + 1] + 1 < n then AsyncEnd(drawn, n, j + 1) else j + 1
  }

  lemma {:induction false} SyncEndAt(drawn: seq<int>, n: nat, j: nat)
    requires j < |drawn| && SlotsOf(drawn, n)
    ensures var e := SyncEnd(drawn, n, j);
            && (forall i :: j <= i < e - 1 ==> drawn[i] != n - 1)
            && (e < |drawn| ==> drawn[e - 1] == n - 1)
    decreases |drawn| - j
  {
    if j + 1 < |drawn| && drawn[j] + 1 < n {
      SyncEndAt(drawn, n, j + 1);
    }
  }

  lemma {:induction false} AsyncEndAt(drawn: seq<int>, n: nat, j: nat)
    requires j < |drawn| && SlotsOf(drawn, n)
    ensures var e := AsyncEnd(drawn, n, j);
            && (forall i :: j < i < e ==> drawn[i] != n - 1)
            && (e < |drawn| ==> drawn[e] == n - 1)
    decreases |drawn| - j
  {
    if j + 1 < |drawn| && drawn[j + 1] + 1 < n {
      AsyncEndAt(drawn, n, j + 1);
    }
  }

  /** The whole draw is used, or the reader stops at the last slot of the table: the synchronous one
      behind it, the asynchronous one before it, except that the latter never looks at the first
      draw. So both stop at the same place exactly when that slot is not among the draws, or is the only
      one. */
  lemma SampleEnds(drawn: seq<int>, n: nat)
    requires |drawn| > 0 && SlotsOf(drawn, n) && Distinct(drawn)
    ensures SyncEnd(drawn, n, 0) == AsyncEnd(drawn, n, 0) <==> n - 1 !in drawn || |drawn| == 1
    ensures n - 1 !in drawn ==> SyncEnd(drawn, n, 0) == |drawn|
    ensures forall k :: 0 <= k < |drawn| && drawn[k] == n - 1 ==>
              SyncEnd(drawn, n, 0) == k + 1 && AsyncEnd(drawn, n, 0) == if k == 0 then |drawn| else k
  {
    hide SyncEnd, AsyncEnd;
    SyncEndAt(drawn, n, 0);
    AsyncEndAt(drawn, n, 0);
    var e, f := SyncEnd(drawn, n, 0), AsyncEnd(drawn, n, 0);
    if k :| 0 <= k < |drawn| && drawn[k] == n - 1 {
      assert e == k + 1;
      assert f == if k == 0 then |drawn| else k;
    }
  }

  function Max(a: int, b: int): int {
    if a < b then b else a
  }

  /** The records that a reader takes which stops at place e. */
  function Taken(source: seq<HiddenRecord>, t: seq<TableData>, drawn: seq<int>, e: nat): seq<HiddenRecord>
    requires |source| == |t| && SlotsOf(drawn, |t|) && e <= |drawn|
  {
    Loaded(source, t, drawn[..e])
  }

  /** Stopping at different places makes a difference exactly if a record between them is accepted. */
  lemma SamplesAgree(source: seq<HiddenRecord>, t: seq<TableData>, drawn: seq<int>, e: nat, f: nat)
    requires |source| == |t| && SlotsOf(drawn, |t|) && e <= |drawn| && f <= |drawn|
    ensures Taken(source, t, drawn, e) == Taken(source, t, drawn, f)
       <==> Loaded(source, t, drawn[Min(e, f)..Max(e, f)]) == []
  {
    hide Loaded;
    var a, b := Min(e, f), Max(e, f);
    LoadedAppend(source, t, drawn[..a], drawn[a..b]);
    assert drawn[..a] + drawn[a..b] == drawn[..b];
  }

  // ---------- samples of a table whose records are all in the file ----------

  lemma DifferentSlots(t: seq<TableData>, order: seq<int>, head: int, tail: int, s: int, s': int)
    requires WellFormed(t, order, head, tail) && s in order && s' in order && s != s'
    ensures 0 <= s < |t| && 0 <= s' < |t| && t[s].createID != t[s'].createID
  {
    var i :| 0 <= i < |order| && order[i] == s;
    var j :| 0 <= j < |order| && order[j] == s';
    assert Ids(t, order)[i] != Ids(t, order)[j];
  }

  lemma CandidateLinked(t: seq<TableData>, order: seq<int>, head: int, tail: int, sex: Sex, s: int)
    requires WellFormed(t, order, head, tail) && 0 <= s < |t| && IsCandidate(t[s], sex)
    ensures s in order
  {
  }

  lemma InFileSize(t: seq<TableData>, source: seq<HiddenRecord>)
    requires InFile(t, source, -1)
    ensures |source| == |t|
  {
  }

  /** The draws are linked slots with records that are accepted. */
  lemma DrawnLoadable(source: seq<HiddenRecord>, t: seq<TableData>, order: seq<int>, head: int, tail: int, sex: Sex,
                      tick: U32, drawn: seq<int>)
    requires WellFormed(t, order, head, tail) && InFile(t, source, -1)
    requires drawn <= Shuffled(Candidates(t, sex), 0, tick)
    ensures |source| == |t| && SlotsOf(drawn, |t|) && Distinct(drawn)
    ensures forall i :: 0 <= i < |drawn| ==>
              && 0 <= drawn[i] < |t| && IsCandidate(t[drawn[i]], sex) && drawn[i] in order
              && Loadable(source[drawn[i]], t[drawn[i]].createID) && source[drawn[i]].createID == t[drawn[i]].createID
  {
    hide Shuffled, Candidates, IsCandidate, WellFormed, InFile, Loadable;
    ShuffledCandidates(t, sex, tick);
    InFileSize(t, source);
    forall i | 0 <= i < |drawn|
      ensures 0 <= drawn[i] < |t| && IsCandidate(t[drawn[i]], sex) && drawn[i] in order
      ensures Loadable(source[drawn[i]], t[drawn[i]].createID) && source[drawn[i]].createID == t[drawn[i]].createID
    {
      assert drawn[i] == Shuffled(Candidates(t, sex), 0, tick)[i] && drawn[i] in Shuffled(Candidates(t, sex), 0, tick);
      CandidateLinked(t, order, head, tail, sex, drawn[i]);
      LinkedLoadable(t, order, head, tail, source, drawn[i]);
    }
  }

  /** None of the first e draws is skipped. */
  lemma AllTaken(source: seq<HiddenRecord>, t: seq<TableData>, drawn: seq<int>, e: nat)
    requires |source| == |t| && SlotsOf(drawn, |t|) && e <= |drawn|
    requires forall i :: 0 <= i < |drawn| ==> Loadable(source[drawn[i]], t[drawn[i]].createID)
    ensures |Taken(source, t, drawn, e)| == e
  {
    hide Loadable, Loaded;
    NothingSkipped(source, t, drawn[..e]);
  }

  lemma DrawnTaken(source: seq<HiddenRecord>, t: seq<TableData>, order: seq<int>, head: int, tail: int, sex: Sex,
                   tick: U32, drawn: seq<int>)
    requires WellFormed(t, order, head, tail) && InFile(t, source, -1)
    requires drawn <= Shuffled(Candidates(t, sex), 0, tick)
    ensures |source| == |t| && SlotsOf(drawn, |t|) && Distinct(drawn)
    ensures forall i :: 0 <= i < |drawn| ==> Loadable(source[drawn[i]], t[drawn[i]].createID)
  {
    hide WellFormed, InFile, Shuffled, Candidates, Loadable, IsCandidate, Distinct;
    DrawnLoadable(source, t, order, head, tail, sex, tick, drawn);
  }

  lemma TakenDiffer(source: seq<HiddenRecord>, t: seq<TableData>, drawn: seq<int>, e: nat, f: nat)
    requires |source| == |t| && SlotsOf(drawn, |t|) && e <= |drawn| && f <= |drawn|
    requires forall i :: 0 <= i < |drawn| ==> Loadable(source[drawn[i]], t[drawn[i]].createID)
    ensures Taken(source, t, drawn, e) == Taken(source, t, drawn, f) <==> e == f
  {
    hide Loadable, Taken;
    AllTaken(source, t, drawn, e);
    AllTaken(source, t, drawn, f);
  }

  /** On a table whose records are all in the file the two readers take the same records exactly if the last
      slot of the table is not drawn, or is the only draw. */
  lemma SameSamples(source: seq<HiddenRecord>, t: seq<TableData>, order: seq<int>, head: int, tail: int, sex: Sex,
                    tick: U32, drawn: seq<int>)
    requires WellFormed(t, order, head, tail) && InFile(t, source, -1)
    requires drawn <= Shuffled(Candidates(t, sex), 0, tick) && |drawn| > 0
    ensures |source| == |t| && SlotsOf(drawn, |t|)
    ensures Taken(source, t, drawn, SyncEnd(drawn, |t|, 0)) == Taken(source, t, drawn, AsyncEnd(drawn, |t|, 0))
       <==> |t| - 1 !in drawn || |drawn| == 1
  {
    hide WellFormed, InFile, Shuffled, Candidates, Taken, Loadable, SyncEnd, AsyncEnd, SlotsOf, Distinct;
    DrawnTaken(source, t, order, head, tail, sex, tick, drawn);
    SampleEnds(drawn, |t|);
    TakenDiffer(source, t, drawn, SyncEnd(drawn, |t|, 0), AsyncEnd(drawn, |t|, 0));
  }

  /** The entry of the queue that a draw stands for. The table takes it for one of the wanted sex; the record is
      of that sex exactly if the table is right about it. */
  lemma DrawnEntry(source: seq<HiddenRecord>, t: seq<TableData>, order: seq<int>, sex: Sex, s: int) returns (j: nat)
    requires |source| == |t| && (forall i :: 0 <= i < |order| ==> 0 <= order[i] < |t|) && s in order
    requires 0 <= s < |t| && IsCandidate(t[s], sex)
    ensures j < |order| && Held(t, source, order)[j].record == source[s]
    ensures Wanted(Held(t, source, order)[j].female, sex)
    ensures Wanted(IsFemale(source[s]), sex) <==> sex == AnySex || Agrees(Held(t, source, order)[j])
  {
    hide IsFemale;
    j :| 0 <= j < |order| && order[j] == s;
  }

  /** The record is an entry listed under the wanted sex, and of that sex exactly if the table is right. */
  ghost predicate SampledEntry(q: seq<Entry>, r: HiddenRecord, sex: Sex) {
    exists j :: 0 <= j < |q| && q[j].record == r && Wanted(q[j].female, sex)
                && (Wanted(IsFemale(r), sex) <==> sex == AnySex || Agrees(q[j]))
  }

  /** Once a batch has been written, a sample holds one record for each draw up to its end, no two the same. Each
      is an entry of the queue that the table lists under the wanted sex, and is of that sex exactly if the
      table is right about it. */
  lemma SampleOfWritten(d: seq<HiddenRecord>, source: seq<HiddenRecord>, t: seq<TableData>, order: seq<int>, head: int,
                        tail: int, sex: Sex, tick: U32, drawn: seq<int>, stored: nat, e: nat)
    requires WellFormed(t, order, head, tail) && InFile(t, source, -1)
    requires drawn <= Shuffled(Candidates(t, sex), 0, tick) && Sampled(d, source, t, drawn, stored, e)
    ensures stored == e <= |d| && |source| == |t| && e <= |drawn|
    ensures forall i :: 0 <= i < |order| ==> 0 <= order[i] < |t|
    ensures forall i :: 0 <= i < e ==> SampledEntry(Held(t, source, order), d[i], sex)
    ensures forall i, j :: 0 <= i < j < e ==> d[i].createID != d[j].createID
  {
    hide Shuffled, Candidates, IsCandidate, Sampled, WellFormed, InFile, Loaded, Loadable, Held, Wanted, IsFemale;
    hide Agrees;
    DrawnLoadable(source, t, order, head, tail, sex, tick, drawn);
    SlotsListed(t, order, head, tail);
    SampledParts(d, source, t, drawn, stored, e);
    NothingSkipped(source, t, drawn[..e]);
    assert forall i :: 0 <= i < e ==> d[i] == d[..stored][i] == source[drawn[i]];
    forall i | 0 <= i < e
      ensures SampledEntry(Held(t, source, order), d[i], sex)
    {
      var j := DrawnEntry(source, t, order, sex, drawn[i]);
    }
    forall i, j | 0 <= i < j < e
      ensures d[i].createID != d[j].createID
    {
      DifferentSlots(t, order, head, tail, drawn[i], drawn[j]);
    }
  }

  /** If the table is right about all entries, every record is of the wanted sex. */
  lemma SampledSex(q: seq<Entry>, r: HiddenRecord, sex: Sex)
    requires SampledEntry(q, r, sex) && AllAgree(q)
    ensures (sex == Female ==> SexOf(r) == 1) && (sex == Male ==> SexOf(r) != 1)
  {
    hide SexOf;
    var j :| 0 <= j < |q| && q[j].record == r && (Wanted(IsFemale(r), sex) <==> sex == AnySex || Agrees(q[j]));
    assert Agrees(q[j]);
  }
}
