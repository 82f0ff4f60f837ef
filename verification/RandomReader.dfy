/** The reader of random samples, src/RVLFaceLib/RFL_MiddleDatabase.c:255-426, in place over the buffer that
    holds first the seeds and then the records. */
module RandomReader {
  import opened Words
  import opened CreateIds
  import opened Faces
  import opened HiddenTable
  import opened Pages
  import opened Status
  import opened PageWalks
  import opened PageReader
  import opened RandomPage

  lemma NothingSampled(d: seq<HiddenRecord>, source: seq<HiddenRecord>, t: seq<TableData>, drawn: seq<int>)
    requires |source| == |t| && SlotsOf(drawn, |t|) && SeedsFrom(d, drawn, 0)
    requires forall i :: 0 <= i < |d| ==> d[i].createID == NO_ID
    ensures Sampled(d, source, t, drawn, 0, 0)
  {
  }

  lemma ShuffledSlots(t: seq<TableData>, sex: Sex, tick: U32)
    ensures var a := Shuffled(Candidates(t, sex), 0, tick);
            && (forall i :: 0 <= i < |a| ==> 0 <= a[i] < |t|)
            && (forall max :: 0 <= max <= |a| ==> SlotsOf(a[..max], |t|))
  {
    hide Shuffled, Candidates, IsCandidate;
    ShuffledCandidates(t, sex, tick);
    var a := Shuffled(Candidates(t, sex), 0, tick);
    assert forall i :: 0 <= i < |a| ==> a[i] in a;
  }

  lemma NoCandidates(sex: Sex)
    ensures forall t: seq<TableData> :: Candidates(t[..0], sex) == []
  {
  }

  lemma Swapped(a: seq<int>, b: seq<int>, i: nat, target: nat)
    requires i < |a| == |b| && target < |a| && b == a[target := a[i]][i := a[target]]
    ensures b == Swap(a, i, target)
  {
  }

  lemma SyncEndStep(drawn: seq<int>, n: nat, j: nat)
    requires j < |drawn|
    ensures j + 1 < |drawn| && drawn[j] + 1 < n ==> SyncEnd(drawn, n, j) == SyncEnd(drawn, n, j + 1)
    ensures !(j + 1 < |drawn| && drawn[j] + 1 < n) ==> SyncEnd(drawn, n, j) == j + 1
  {
  }

  lemma AsyncEndStep(drawn: seq<int>, n: nat, j: nat)
    requires j < |drawn|
    ensures j + 1 < |drawn| && drawn[j + 1] + 1 < n ==> AsyncEnd(drawn, n, j) == AsyncEnd(drawn, n, j + 1)
    ensures !(j + 1 < |drawn| && drawn[j + 1] + 1 < n) ==> AsyncEnd(drawn, n, j) == j + 1
  {
  }

  /** `RFLiMiddleDB` of type HiddenRandom, over the fields that all types share. */
  class RandomDB {
    const m: MiddleDB
    const sex: Sex

    ghost predicate Valid()
      reads m.db, m.db.data
    {
      m.Valid()
    }

    constructor (base: MiddleDB, wanted: Sex)
      requires base.Valid()
      ensures Valid() && m == base && sex == wanted
    {
      m, sex := base, wanted;
    }

    /** `RFLiCountupHiddenDataNum`. */
    method CountupHiddenDataNum() returns (count: nat)
      requires m.Shape()
      ensures count == |Candidates(m.db.data[..], sex)|
    {
      hide IsCandidate, Candidates;
      count := 0;
      var i := 0;
      ghost var t := m.db.data[..];
      NoCandidates(sex);
      while i < m.db.size
        invariant 0 <= i <= m.db.size && t == m.db.data[..] && count == |Candidates(t[..i], sex)|
      {
        CandidatesSnoc(t, sex, i);
        if IsCandidate(m.db.data[i], sex) {
          count := count + 1;
        }
        i := i + 1;
      }
      assert t[..i] == t;
    }

    /** The numbers of the candidates are collected. */
    method Collect(count: nat) returns (a: array<int>)
      requires m.Shape() && count == |Candidates(m.db.data[..], sex)|
      ensures fresh(a) && a[..] == Candidates(m.db.data[..], sex)
    {
      hide IsCandidate, Candidates;
      a := new int[count];
      var aidx := 0;
      var i := 0;
      ghost var t := m.db.data[..];
      NoCandidates(sex);
      while i < m.db.size
        invariant 0 <= i <= m.db.size && t == m.db.data[..] && 0 <= aidx <= count
        invariant a[..aidx] == Candidates(t[..i], sex)
      {
        CandidatesSnoc(t, sex, i);
        CandidatesGrow(t, sex, i + 1);
        if IsCandidate(m.db.data[i], sex) {
          a[aidx] := i;
          aidx := aidx + 1;
        }
        i := i + 1;
      }
      assert t[..i] == t && a[..aidx] == a[..];
    }

    /** The exchanges. */
    method Shuffle(a: array<int>, tick: U32)
      modifies a
      ensures a[..] == Shuffled(old(a[..]), 0, tick)
    {
      hide NextRand, Swap;
      var rand: U32 := tick;
      var i := 0;
      while i < a.Length - 1
        invariant 0 <= i && Shuffled(a[..], i, rand) == Shuffled(old(a[..]), 0, tick)
        decreases a.Length - i
      {
        ghost var before := a[..];
        var target := ((rand / 0x1_0000 + rand) % 0x1_0000) % (a.Length - 1);
        if target >= i {
          target := target + 1;
        }
        var tmp := a[target];
        a[target] := a[i];
        a[i] := tmp;
        Swapped(before, a[..], i, target);
        rand := NextRand(rand);
        i := i + 1;
      }
    }

    /** The first `max` numbers go into the cleared buffer. */
    method PlantSeeds(a: array<int>, max: nat)
      requires max <= a.Length && max <= m.data.Length
      requires forall i :: 0 <= i < a.Length ==> 0 <= a[i] < 0x4000
      requires forall i :: 0 <= i < m.data.Length ==> m.data[i] == Blank()
      modifies m.data
      ensures SeedsFrom(m.data[..], a[..max], 0)
      ensures forall i :: 0 <= i < m.data.Length ==> m.data[i].createID == NO_ID
    {
      hide WithSeed, SeedOf;
      SeedBack(Blank(), 0);
      for i := 0 to max
        invariant forall k :: 0 <= k < i ==> SeedOf(m.data[k]) == a[k] + 1
        invariant forall k :: i <= k < m.data.Length ==> m.data[k] == Blank()
        invariant forall k :: 0 <= k < m.data.Length ==> m.data[k].createID == NO_ID
      {
        SeedBack(m.data[i], a[i] + 1);
        m.data[i] := WithSeed(m.data[i], a[i] + 1);
      }
    }

    /** `loadHiddenRandomSync_`. The working flag stays set. */
    method LoadHiddenRandomSync(ghost drawn: seq<int>)
      requires Valid() && m.dstIdx == 0 && |drawn| > 0
      requires Sampled(m.data[..], m.CacheView(), m.db.data[..], drawn, m.storedSize, 0)
      modifies m, m.data
      ensures m.working == old(m.working) && m.callbacks == old(m.callbacks)
      ensures m.dstIdx == SyncEnd(drawn, m.db.size, 0)
      ensures Sampled(m.data[..], m.CacheView(), m.db.data[..], drawn, m.storedSize, SyncEnd(drawn, m.db.size, 0))
      ensures m.status == if m.storedSize < m.data.Length then DBNodata else Success
    {
      hide Sampled, SeedOf, SyncEnd, Loadable, CheckHiddenData, WellFormed, Loaded, SlotsOf, MiddleDB.CacheView;
      ghost var e, n := SyncEnd(drawn, m.db.size, 0), m.db.size;
      SampledParts(m.data[..], m.CacheView(), m.db.data[..], drawn, m.storedSize, 0);
      var running := true;
      while running
        invariant m.dstIdx <= |drawn| <= m.data.Length
        invariant Sampled(m.data[..], m.CacheView(), m.db.data[..], drawn, m.storedSize, m.dstIdx)
        invariant running && m.dstIdx < |drawn| ==> SyncEnd(drawn, n, m.dstIdx) == e
        invariant running && m.dstIdx == |drawn| ==> m.dstIdx == e && |drawn| < m.data.Length
        invariant !running ==> m.dstIdx == e
        invariant m.working == old(m.working) && m.callbacks == old(m.callbacks)
        decreases running, |drawn| - m.dstIdx
      {
        SampledParts(m.data[..], m.CacheView(), m.db.data[..], drawn, m.storedSize, m.dstIdx);
        var src := SeedOf(m.data[m.dstIdx]);
        if src > 0 {
          SyncEndStep(drawn, n, m.dstIdx);
          ghost var before := m.data[..];
          var err := m.LoadCached(m.storedSize, src - 1);
          SampleStep(before, m.data[..], m.CacheView(), m.db.data[..], drawn, m.storedSize, m.dstIdx);
          if CheckHiddenData(m.data[m.storedSize]) {
            m.storedSize := m.storedSize + 1;
          }
          m.dstIdx := m.dstIdx + 1;
          if src > 0 && m.dstIdx < m.data.Length {
            if src >= m.db.size {
              running := false;
            }
          } else {
            running := false;
          }
        } else {
          running := false;
        }
      }
      m.status := if m.storedSize < m.data.Length then DBNodata else Success;
    }

    /** The first half of `updateHDBRandcallback_` after a good load. The bound is tested before the seed is looked
        at; the source reads the seed first, but the outcome is the same. */
    method CountAndGoOn(next: Outcome)
      requires !m.working && m.dstIdx < m.data.Length && m.storedSize < m.data.Length && Possible(next)
      requires m.status == Success || m.status == Broken
      modifies m
      ensures m.callbacks == old(m.callbacks) && m.dstIdx == old(m.dstIdx) + 1
      ensures m.storedSize == old(m.storedSize)
                + (if old(m.status) == Success && CheckHiddenData(m.data[old(m.storedSize)]) then 1 else 0)
      ensures var seed := if m.dstIdx < m.data.Length then SeedOf(m.data[m.dstIdx]) else 0;
              if 0 < seed < m.db.size then
                && m.loadIndex == seed - 1 && m.loadDst == m.storedSize && m.working == !next.Refused?
                && (next.Refused? ==> m.status == next.err && m.lastReason == next.reason)
              else
                && !m.working
                && m.status == if seed > 0 then Broken else if m.storedSize < m.data.Length then DBNodata else Success
    {
      hide CheckHiddenData, SeedOf;
      if m.status != Broken && CheckHiddenData(m.data[m.storedSize]) {
        m.storedSize := m.storedSize + 1;
      }
      m.dstIdx := m.dstIdx + 1;
      var src := if m.dstIdx < m.data.Length then SeedOf(m.data[m.dstIdx]) else 0;
      if src > 0 {
        if src < m.db.size {
          var err := m.LoadAsync(m.storedSize, src - 1, next);
          if err != Busy {
            m.EndWorking(err);
          }
        } else {
          m.status := Broken;
        }
      } else {
        m.status := if m.storedSize < m.data.Length then DBNodata else Success;
      }
    }

    /** `updateHDBRandcallback_`: after a good load the chain goes on if it can. When it ends, the owner of the page
        is called back. */
    method UpdateHDBRandCallback(next: Outcome)
      requires !m.working && m.dstIdx < m.data.Length && m.storedSize < m.data.Length && Possible(next)
      modifies m
      ensures m.callbacks == old(m.callbacks) + (if m.working then 0 else 1)
      ensures var seed := if old(m.dstIdx) + 1 < m.data.Length then SeedOf(m.data[old(m.dstIdx) + 1]) else 0;
              var counted := if old(m.status) == Success && CheckHiddenData(m.data[old(m.storedSize)]) then 1 else 0;
              if old(m.status) != Success && old(m.status) != Broken then
                && !m.working && m.status == old(m.status) && m.lastReason == old(m.lastReason)
                && if m.status == NANDCommandfail && m.lastReason == NAND_BUSY then m.storedSize == m.dstIdx == 0
                   else m.storedSize == old(m.storedSize) && m.dstIdx == old(m.dstIdx)
              else if !(0 < seed < m.db.size) then
                && !m.working && m.storedSize == old(m.storedSize) + counted && m.dstIdx == old(m.dstIdx) + 1
                && m.status == if seed > 0 then Broken else if m.storedSize < m.data.Length then DBNodata else Success
              else if next.Refused? then
                && !m.working && m.status == next.err && m.lastReason == next.reason
                && if EndsBusy(next) then m.storedSize == m.dstIdx == 0
                   else m.storedSize == old(m.storedSize) + counted && m.dstIdx == old(m.dstIdx) + 1
              else
                && m.working && m.loadIndex == seed - 1 && m.loadDst == m.storedSize
                && m.storedSize == old(m.storedSize) + counted && m.dstIdx == old(m.dstIdx) + 1
    {
      hide CheckHiddenData, SeedOf;
      if m.status == Success || m.status == Broken {
        CountAndGoOn(next);
      }
      if !m.working {
        if m.status == NANDCommandfail && m.lastReason == NAND_BUSY {
          m.storedSize := 0;
          m.dstIdx := 0;
        }
        m.callbacks := m.callbacks + 1;
      }
    }

    /** A load is under way for the draw at the read position, which is not behind the end of the sample. */
    ghost predicate Sampling(drawn: seq<int>)
      reads m, m.db, m.db.data, m.file, m.data
    {
      && m.working && m.dstIdx < |drawn| && m.loadIndex == drawn[m.dstIdx] && m.loadDst == m.storedSize
      && AsyncEnd(drawn, m.db.size, m.dstIdx) == AsyncEnd(drawn, m.db.size, 0)
      && Sampled(m.data[..], m.file[..], m.db.data[..], drawn, m.storedSize, m.dstIdx)
    }

    /** The sample is complete. */
    ghost predicate Complete(drawn: seq<int>)
      requires |drawn| > 0
      reads m, m.db, m.db.data, m.file, m.data
    {
      && !m.working && m.dstIdx == AsyncEnd(drawn, m.db.size, 0)
      && Sampled(m.data[..], m.file[..], m.db.data[..], drawn, m.storedSize, m.dstIdx)
      && m.status == if m.dstIdx < |drawn| then Broken else if m.storedSize < m.data.Length then DBNodata else Success
    }

    /** The sample was stopped by its load number n. The buffer holds what the loads before have brought, and behind
        that a record that was read but could not be closed. */
    ghost predicate Stopped(drawn: seq<int>, n: nat, o: Outcome)
      reads m`working, m`status, m`lastReason, m`storedSize, m`dstIdx, m.db.data, m.file, m.data
    {
      && !m.working && m.status == StatusAfter(o, false) && m.lastReason == ReasonAfter(o, false)
      && m.Shape() && SlotsOf(drawn, m.db.size) && n < |drawn| <= m.data.Length && 0 <= drawn[n] < m.db.size
      && var stored, s := |Loaded(m.file[..], m.db.data[..], drawn[..n])|, drawn[n];
         && m.data[..stored] == Loaded(m.file[..], m.db.data[..], drawn[..n])
         && (forall i :: stored < i < m.data.Length ==> m.data[i].createID == NO_ID)
         && (if LeavesRecord(o) && Loadable(m.file[s], m.db.data[s].createID) then m.data[stored] == m.file[s]
             else m.data[stored].createID == NO_ID)
         && if TurnsBack(n, o) then m.storedSize == m.dstIdx == 0 else m.storedSize == stored && m.dstIdx == n
    }

    /** The load number n is refused, or its record has come behind those that are counted. */
    lemma StoppedSample(before: seq<HiddenRecord>, drawn: seq<int>, n: nat, o: Outcome, stored: nat)
      requires m.Shape() && n < |drawn| && |before| == m.data.Length
      requires Sampled(before, m.file[..], m.db.data[..], drawn, stored, n)
      requires var s := drawn[n];
               m.data[..] == if LeavesRecord(o) && Loadable(m.file[s], m.db.data[s].createID)
                             then before[stored := m.file[s]] else before
      requires !m.working && m.status == StatusAfter(o, false) && m.lastReason == ReasonAfter(o, false)
      requires if TurnsBack(n, o) then m.storedSize == m.dstIdx == 0 else m.storedSize == stored && m.dstIdx == n
      ensures Stopped(drawn, n, o)
    {
      hide Loadable, Loaded, LeavesRecord, TurnsBack, SeedOf;
      assert m.data[..stored] == before[..stored];
    }

    /** The record of a successful load goes behind those that are counted, and will count if it was accepted. */
    method DeliverRecord(ghost drawn: seq<int>)
      requires Valid() && Sampling(drawn)
      modifies m`working, m`status, m`lastReason, m.data
      ensures !m.working && (m.status == Success || m.status == Broken) && m.storedSize < m.data.Length
      ensures Sampled(m.data[..], m.file[..], m.db.data[..], drawn,
                      m.storedSize + (if m.status == Success && CheckHiddenData(m.data[m.storedSize]) then 1 else 0),
                      m.dstIdx + 1)
    {
      hide Sampled, SeedOf, AsyncEnd, Loadable, CheckHiddenData, WellFormed, Loaded, SlotsOf, IsSameID;
      ghost var before := m.data[..];
      SampledParts(before, m.file[..], m.db.data[..], drawn, m.storedSize, m.dstIdx);
      m.Deliver(NO_FAILURE);
      SampleStep(before, m.data[..], m.file[..], m.db.data[..], drawn, m.storedSize, m.dstIdx);
    }

    /** One load has succeeded: the sample is complete, the next load is under way, or it is refused. */
    method LoadSucceeded(ghost drawn: seq<int>, next: Outcome)
      requires Valid() && Sampling(drawn) && Possible(next)
      modifies m, m.data
      ensures m.callbacks == old(m.callbacks) + (if m.working then 0 else 1)
      ensures var n := old(m.dstIdx) + 1;
              if n == AsyncEnd(drawn, m.db.size, 0) then Complete(drawn)
              else if next.Refused? then !m.working && n < |drawn| && Stopped(drawn, n, next)
              else Sampling(drawn) && m.dstIdx == n
    {
      hide Sampled, SeedOf, AsyncEnd, Loadable, CheckHiddenData, WellFormed, Loaded, SlotsOf, Possible, EndsBusy;
      hide Stopped;
      SampledParts(m.data[..], m.file[..], m.db.data[..], drawn, m.storedSize, m.dstIdx);
      AsyncEndStep(drawn, m.db.size, m.dstIdx);
      DeliverRecord(drawn);
      ghost var n, stored := m.dstIdx + 1,
                m.storedSize + (if m.status == Success && CheckHiddenData(m.data[m.storedSize]) then 1 else 0);
      SampledParts(m.data[..], m.file[..], m.db.data[..], drawn, stored, n);
      UpdateHDBRandCallback(next);
      if n < |drawn| && drawn[n] + 1 < m.db.size && next.Refused? {
        StoppedSample(m.data[..], drawn, n, next, stored);
      }
    }

    /** One load has failed: the chain ends and nothing more is counted. */
    method LoadFailed(ghost drawn: seq<int>, o: Outcome)
      requires Valid() && Sampling(drawn) && Possible(o) && Fails(o) && !o.Refused?
      modifies m, m.data
      ensures m.callbacks == old(m.callbacks) + (if o.Lost? then 0 else 1)
      ensures !m.working && Stopped(drawn, old(m.dstIdx), o)
    {
      hide Sampled, SeedOf, AsyncEnd, Loadable, CheckHiddenData, WellFormed, Loaded, SlotsOf, Stopped;
      ghost var before, n, stored := m.data[..], m.dstIdx, m.storedSize;
      SampledParts(before, m.file[..], m.db.data[..], drawn, stored, n);
      if o.Lost? {
        m.Lose(o);
      } else {
        m.Deliver(o);
        UpdateHDBRandCallback(NO_FAILURE);
      }
      StoppedSample(before, drawn, n, o, stored);
    }

    lemma SamplingBounds(drawn: seq<int>)
      requires Sampling(drawn)
      ensures m.dstIdx < AsyncEnd(drawn, m.db.size, 0)
    {
    }

    /** The chain of callbacks, for any outcomes of its loads. */
    method LoadHiddenRandomAsync(ghost drawn: seq<int>, outcomes: seq<Outcome>)
      requires Valid() && Sampling(drawn) && m.dstIdx == 0
      requires AllPossible(outcomes) && !OutcomeAt(outcomes, 0).Refused?
      modifies m, m.data
      ensures !m.working
      ensures var e := AsyncEnd(drawn, m.db.size, 0);
              var n := Good(outcomes, 0, e);
              && m.callbacks == old(m.callbacks) + (if n < e && OutcomeAt(outcomes, n).Lost? then 0 else 1)
              && if n == e then Complete(drawn) else Stopped(drawn, n, OutcomeAt(outcomes, n))
    {
      hide Sampled, AsyncEnd, WellFormed, Stopped, Possible, AllPossible;
      ghost var n, e := 0, AsyncEnd(drawn, m.db.size, 0);
      SamplingBounds(drawn);
      while m.working
        invariant n <= e && forall k :: 0 <= k < n ==> !Fails(OutcomeAt(outcomes, k))
        invariant m.working ==>
                    && Sampling(drawn) && m.dstIdx == n < e && !OutcomeAt(outcomes, n).Refused?
                    && m.callbacks == old(m.callbacks)
        invariant !m.working ==>
                    && m.callbacks == old(m.callbacks) + (if n < e && OutcomeAt(outcomes, n).Lost? then 0 else 1)
                    && if n == e then Complete(drawn)
                       else Fails(OutcomeAt(outcomes, n)) && Stopped(drawn, n, OutcomeAt(outcomes, n))
        decreases m.working, e - n
      {
        var o := OutcomeAt(outcomes, m.dstIdx);
        if Fails(o) {
          PossibleAt(outcomes, n);
          LoadFailed(drawn, o);
        } else {
          n := n + 1;
          PossibleAt(outcomes, n);
          LoadSucceeded(drawn, OutcomeAt(outcomes, m.dstIdx + 1));
          if m.working {
            SamplingBounds(drawn);
          }
        }
      }
      GoodIs(outcomes, 0, n, e);
    }

    /** The first load of a sample is started or refused. */
    method StartLoads(ghost drawn: seq<int>, first: Outcome)
      requires Valid() && m.dstIdx == m.storedSize == 0 && |drawn| > 0 && Possible(first)
      requires Sampled(m.data[..], m.file[..], m.db.data[..], drawn, 0, 0)
      modifies m
      ensures m.callbacks == old(m.callbacks)
      ensures if first.Refused? then !m.working && Stopped(drawn, 0, first)
              else Sampling(drawn) && m.dstIdx == 0
    {
      hide Sampled, SeedOf, AsyncEnd, WellFormed, Stopped, SlotsOf, Loaded, Loadable;
      SampledParts(m.data[..], m.file[..], m.db.data[..], drawn, 0, 0);
      var err := m.LoadAsync(m.dstIdx, SeedOf(m.data[m.dstIdx]) - 1, first);
      if err != Busy {
        m.EndWorking(err);
        StoppedSample(m.data[..], drawn, 0, first, 0);
      }
    }

    /** The loads from the file, from the first one on. */
    method LoadFromFile(ghost drawn: seq<int>, outcomes: seq<Outcome>)
      requires Valid() && m.dstIdx == m.storedSize == 0 && |drawn| > 0 && AllPossible(outcomes)
      requires Sampled(m.data[..], m.file[..], m.db.data[..], drawn, 0, 0)
      modifies m, m.data
      ensures !m.working
      ensures var e := AsyncEnd(drawn, m.db.size, 0);
              var n := Good(outcomes, 0, e);
              && m.callbacks == old(m.callbacks) + (if n < e && OutcomeAt(outcomes, n).Lost? then 0 else 1)
              && if n == e then Complete(drawn) else Stopped(drawn, n, OutcomeAt(outcomes, n))
    {
      hide Sampled, AsyncEnd, WellFormed, Stopped, Possible, AllPossible, Loaded, Loadable, SlotsOf;
      PossibleAt(outcomes, 0);
      StartLoads(drawn, OutcomeAt(outcomes, 0));
      if m.working {
        LoadHiddenRandomAsync(drawn, outcomes);
      } else {
        m.callbacks := m.callbacks + 1;
      }
    }

    /** The draws of one update: the front of the shuffled candidates. */
    ghost function Drawn(tick: U32): (drawn: seq<int>)
      reads m.db.data
      ensures |drawn| == Min(|Candidates(m.db.data[..], sex)|, m.data.Length)
    {
      Shuffled(Candidates(m.db.data[..], sex), 0, tick)[..Min(|Candidates(m.db.data[..], sex)|, m.data.Length)]
    }

    /** The candidates are collected and shuffled, and the first of them go into the buffer as seeds. */
    method Draw(count: nat, tick: U32)
      requires Valid() && count == |Candidates(m.db.data[..], sex)|
      requires forall i :: 0 <= i < m.data.Length ==> m.data[i] == Blank()
      modifies m.data
      ensures SlotsOf(Drawn(tick), m.db.size) && SeedsFrom(m.data[..], Drawn(tick), 0)
      ensures forall i :: 0 <= i < m.data.Length ==> m.data[i].createID == NO_ID
    {
      hide SeedOf, WellFormed, Candidates, IsCandidate, Shuffled, SeedsFrom, SlotsOf, Blank;
      var max := if count < m.data.Length then count else m.data.Length;
      var a := Collect(count);
      Shuffle(a, tick);
      ShuffledSlots(m.db.data[..], sex, tick);
      PlantSeeds(a, max);
      assert a[..max] == Drawn(tick);
    }

    /** `RFLiUpdateMiddleDBAsync`, run to its end, for any outcomes of its loads: the buffer starts with the accepted
        records of the draws, in order, up to the end of the sample, or to the first load that fails. Whether the
        array of the candidates could be allocated is the parameter `memory`. */
    method Update(loaded: bool, memory: bool, tick: U32, cache: bool, outcomes: seq<Outcome>)
      requires Valid() && 0 < m.data.Length && !m.working && AllPossible(outcomes)
      modifies m, m.data
      ensures !loaded || |Drawn(tick)| == 0 ==>
                m.storedSize == 0 && m.status == DBNodata && !m.working && m.callbacks == old(m.callbacks) + 1
      ensures loaded && |Drawn(tick)| > 0 && !memory ==>
                m.storedSize == 0 && m.status == Fatal && !m.working && m.callbacks == old(m.callbacks) + 1
      ensures loaded && |Drawn(tick)| > 0 && memory && cache ==>
                && m.working && m.callbacks == old(m.callbacks)
                && Sampled(m.data[..], m.Source(cache), m.db.data[..], Drawn(tick), m.storedSize,
                           SyncEnd(Drawn(tick), m.db.size, 0))
                && m.status == if m.storedSize < m.data.Length then DBNodata else Success
      ensures loaded && |Drawn(tick)| > 0 && memory && !cache ==>
                var e := AsyncEnd(Drawn(tick), m.db.size, 0);
                var n := Good(outcomes, 0, e);
                && !m.working
                && m.callbacks == old(m.callbacks) + (if n < e && OutcomeAt(outcomes, n).Lost? then 0 else 1)
                && if n == e then Complete(Drawn(tick)) else Stopped(Drawn(tick), n, OutcomeAt(outcomes, n))
    {
      hide SeedOf, WellFormed, Loaded, Candidates, IsCandidate, Shuffled, SyncEnd, AsyncEnd, SeedsFrom, SlotsOf, Blank;
      hide MiddleDB.CacheView, Drawn, Sampled, Complete, Stopped, AllPossible, Good;
      ghost var drawn := Drawn(tick);
      m.StartUpdate();
      m.working, m.status := true, Busy;
      if !loaded {
        m.EndWorking(DBNodata);
        m.callbacks := m.callbacks + 1;
        return;
      }
      var count := CountupHiddenDataNum();
      if count <= 0 {
        m.EndWorking(DBNodata);
        m.callbacks := m.callbacks + 1;
        return;
      }
      if !memory {
        m.EndWorking(Fatal);
        m.callbacks := m.callbacks + 1;
        return;
      }
      Draw(count, tick);
      NothingSampled(m.data[..], m.Source(cache), m.db.data[..], drawn);
      if cache {
        LoadHiddenRandomSync(drawn);
      } else {
        LoadFromFile(drawn, outcomes);
      }
    }

    /** One update when nothing fails. */
    method Sample(tick: U32, cache: bool)
      requires Valid() && 0 < m.data.Length && !m.working
      modifies m, m.data
      ensures |Drawn(tick)| == 0 ==> m.storedSize == 0
      ensures |Drawn(tick)| > 0 ==>
                var e := if cache then SyncEnd(Drawn(tick), m.db.size, 0) else AsyncEnd(Drawn(tick), m.db.size, 0);
                Sampled(m.data[..], m.Source(cache), m.db.data[..], Drawn(tick), m.storedSize, e)
    {
      hide Drawn, Sampled, SyncEnd, AsyncEnd, Stopped, WellFormed, MiddleDB.CacheView;
      Update(true, true, tick, cache, []);
    }
  }
}
