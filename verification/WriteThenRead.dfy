/** Writer and readers together: what a batch has written comes back page by page, and in samples. */
module WriteThenRead {
  import opened Words
  import opened CreateIds
  import opened Faces
  import opened Controller
  import opened HiddenTable
  import opened RecordQueue
  import opened HiddenWriter
  import opened Pages
  import opened PageReader
  import opened RandomPage
  import opened RandomReader

  /** The place of the i-th entry read, among the entries from oldest to newest. */
  function Place(n: nat, i: nat, newest: bool): (p: int)
    ensures i < n ==> 0 <= p < n
  {
    if newest then n - 1 - i else i
  }

  lemma EntryAt(t: seq<TableData>, order: seq<int>, head: int, tail: int, file: seq<HiddenRecord>, newest: bool, i: nat)
    requires WellFormed(t, order, head, tail) && InFile(t, file, -1) && |file| == |t| && i < |order|
    requires forall k :: 0 <= k < |order| ==> 0 <= order[k] < |t|
    ensures var s := Reading(order, newest)[i];
            && 0 <= s < |t| && Loadable(file[s], t[s].createID)
            && file[s] == Held(t, file, order)[Place(|order|, i, newest)].record
  {
    hide Loadable, InFile, WellFormed;
    var s := Reading(order, newest)[i];
    assert s == order[Place(|order|, i, newest)];
    LinkedLoadable(t, order, head, tail, file, s);
  }

  /** What is delivered for the first e slots in reading order are the first e records of the queue. */
  lemma DeliveredRecords(t: seq<TableData>, order: seq<int>, head: int, tail: int, file: seq<HiddenRecord>,
                         newest: bool, e: nat)
    requires WellFormed(t, order, head, tail) && InFile(t, file, -1) && |file| == |t| && e <= |order|
    requires SlotsOf(Reading(order, newest)[..e], |t|) && forall k :: 0 <= k < |order| ==> 0 <= order[k] < |t|
    ensures var page, q := Loaded(file, t, Reading(order, newest)[..e]), Held(t, file, order);
            |page| == e && forall i :: 0 <= i < e ==> page[i] == q[Place(|q|, i, newest)].record
  {
    hide Loadable, Loaded, InFile, WellFormed, Reading, Held, Place;
    var o := Reading(order, newest)[..e];
    forall i | 0 <= i < e
      ensures Loadable(file[o[i]], t[o[i]].createID)
      ensures file[o[i]] == Held(t, file, order)[Place(|order|, i, newest)].record
    {
      EntryAt(t, order, head, tail, file, newest, i);
    }
    NothingSkipped(file, t, o);
  }

  lemma {:induction false} AllSucceed(outcomes: seq<bool>)
    requires forall i :: 0 <= i < |outcomes| ==> outcomes[i]
    ensures Succeeding(outcomes) == |outcomes|
  {
  }

  /** A batch of successful writes, and then k pages of a reader in either direction and of either kind: the
      pages are exactly the records that the bounded queue then holds, each once and in order. */
  method WriteThenPage(mgr: HiddenManager, records: seq<HiddenRecord>, outcomes: seq<bool>, buffer: array<HiddenRecord>,
                       newest: bool, cache: bool, k: nat)
    returns (pages: seq<HiddenRecord>)
    requires mgr.Valid() && !mgr.pending && AllStorable(records)
    requires |outcomes| == |records| && forall i :: 0 <= i < |outcomes| ==> outcomes[i]
    requires buffer != mgr.file && buffer != mgr.cachedDB && 0 < buffer.Length && (cache ==> mgr.cached)
    modifies mgr, mgr.db, mgr.db.data, mgr.file, mgr.cachedDB, buffer
    ensures var q := PutAll(mgr.db.size, old(mgr.Queue()), records);
            var e := PageEnd(k, buffer.Length, |q|);
            |pages| == e && forall i :: 0 <= i < e ==> pages[i] == q[Place(|q|, i, newest)].record
  {
    hide AllStorable, Consistent, InFile, WellFormed, Ids, Push, PushAll, Put, PutAll, Held, Reading, Neighbour;
    hide Loaded, Place;
    AllSucceed(outcomes);
    mgr.WriteBatch(records, outcomes);
    ghost var t, file, order, head, tail := mgr.db.data[..], mgr.file[..], mgr.db.order, mgr.db.head, mgr.db.tail;
    Settled(t, file, mgr.cachedDB[..], mgr.cached, mgr.list, mgr.current, mgr.writeIndex);
    ghost var q := Held(t, file, order);
    var reader := new MiddleDB(mgr.db, mgr.cachedDB, mgr.file, buffer, newest, mgr.cached);
    pages := reader.PageThrough(k, cache);
    assert mgr.db.data[..] == t && reader.Source(cache) == file;
    ghost var e := PageEnd(k, buffer.Length, |order|);
    reader.OrderSlots();
    DeliveredRecords(t, order, head, tail, file, newest, e);
  }

  lemma StillWritten(h: Record, r: Record)
    requires WrittenForm(h, if Screened(r) then r else Blank()) && IsValidID(h.createID)
    ensures WrittenForm(h, r) && Wide16(h)
  {
    hide InfoOf, HiddenToInfo;
  }

  lemma StorableWide(r: Record)
    requires Storable(r)
    ensures Wide16(r) && IsValidID(r.createID)
  {
  }

  /** The records of a controller that enter the database. */
  method Accept(data: array<Record>, secret: seq<bool>, ch: bool, official: CreateID -> bool)
    returns (list: seq<HiddenRecord>, ghost from: seq<int>)
    requires |secret| == data.Length && forall i :: 0 <= i < data.Length ==> Wide16(data[i])
    modifies data
    ensures forall i :: 0 <= i < data.Length ==> data[i] == if Screened(old(data[i])) then old(data[i]) else Blank()
    ensures |from| == |list| && forall k :: 0 <= k < |from| ==>
              && 0 <= from[k] < data.Length && (k > 0 ==> from[k - 1] < from[k])
              && WrittenForm(list[k], old(data[from[k]])) && Storable(list[k])
    ensures forall i :: 0 <= i < data.Length ==> (i in from <==> Enters(old(data[i]), secret[i], ch, official))
  {
    hide Screened, Enters, WrittenForm, Storable, ToWrite, Wide16, IsValidID;
    ValidBufferFound(data);
    var found;
    found, from := CollectWritable(data, secret, ch, official);
    forall k | 0 <= k < |found|
      ensures Wide16(found[k]) && WrittenForm(found[k], old(data[from[k]]))
    {
      StorableWide(found[k]);
      StillWritten(found[k], old(data[from[k]]));
    }
    forall i | 0 <= i < data.Length
      ensures ToWrite(data[i], secret[i], ch, official) <==> Enters(old(data[i]), secret[i], ch, official)
    {
      EntersExactly(old(data[i]), secret[i], ch, official);
    }
    list := found;
  }

  /** From the memory of a controller to the pages, for any contents: records without a valid face under a permanent
      identifier are cleared, all others stay; exactly those of them that are wanted and neither local nor official
      enter the database, in their order; and the pages are exactly the records that the bounded queue then holds. */
  method Transfer(data: array<Record>, secret: seq<bool>, ch: bool, official: CreateID -> bool, mgr: HiddenManager,
                  buffer: array<HiddenRecord>, newest: bool, cache: bool, k: nat)
    returns (list: seq<HiddenRecord>, pages: seq<HiddenRecord>, ghost from: seq<int>)
    requires |secret| == data.Length && forall i :: 0 <= i < data.Length ==> Wide16(data[i])
    requires mgr.Valid() && !mgr.pending && 0 < buffer.Length && (cache ==> mgr.cached)
    requires buffer != mgr.file && buffer != mgr.cachedDB
    modifies data, mgr, mgr.db, mgr.db.data, mgr.file, mgr.cachedDB, buffer
    ensures forall i :: 0 <= i < data.Length ==> data[i] == if Screened(old(data[i])) then old(data[i]) else Blank()
    ensures |from| == |list| && forall k :: 0 <= k < |from| ==>
              && 0 <= from[k] < data.Length && (k > 0 ==> from[k - 1] < from[k])
              && WrittenForm(list[k], old(data[from[k]])) && Storable(list[k])
    ensures forall i :: 0 <= i < data.Length ==> (i in from <==> Enters(old(data[i]), secret[i], ch, official))
    ensures var q := PutAll(mgr.db.size, old(mgr.Queue()), list);
            var e := PageEnd(k, buffer.Length, |q|);
            |pages| == e && forall i :: 0 <= i < e ==> pages[i] == q[Place(|q|, i, newest)].record
  {
    hide Screened, Consistent, WellFormed, Ids, Held, PutAll, CheckHiddenData, IsPermanentID, Enters, WrittenForm;
    hide Storable, ToWrite, Wide16;
    list, from := Accept(data, secret, ch, official);
    pages := WriteThenPage(mgr, list, seq(|list|, _ => true), buffer, newest, cache, k);
  }

  /** What either reader has sampled after a batch. */
  lemma SampleIsSound(d: seq<HiddenRecord>, file: seq<HiddenRecord>, t: seq<TableData>, order: seq<int>, head: int,
                      tail: int,
                      sex: Sex, tick: U32, drawn: seq<int>, stored: nat, cache: bool)
    requires WellFormed(t, order, head, tail) && InFile(t, file, -1) && |drawn| > 0
    requires drawn <= Shuffled(Candidates(t, sex), 0, tick)
    requires Sampled(d, file, t, drawn, stored, if cache then SyncEnd(drawn, |t|, 0) else AsyncEnd(drawn, |t|, 0))
    ensures |file| == |t| > 0 && (forall i :: 0 <= i < |order| ==> 0 <= order[i] < |t|)
    ensures 0 < stored <= |d| && stored <= |drawn| && (!IsCandidate(t[|t| - 1], sex) ==> stored == |drawn|)
    ensures forall i :: 0 <= i < stored ==> SampledEntry(Held(t, file, order), d[i], sex)
    ensures forall i, j :: 0 <= i < j < stored ==> d[i].createID != d[j].createID
    ensures AllAgree(Held(t, file, order)) ==>
              forall i :: 0 <= i < stored ==> (sex == Female ==> SexOf(d[i]) == 1) && (sex == Male ==> SexOf(d[i]) != 1)
  {
    hide WellFormed, InFile, Held, Candidates, Shuffled, SyncEnd, AsyncEnd, Sampled, SampledEntry, AllAgree;
    hide IsFemale, Wanted, IsCandidate, Loadable, SexOf;
    DrawnLoadable(file, t, order, head, tail, sex, tick, drawn);
    SampleEnds(drawn, |t|);
    SampleOfWritten(d, file, t, order, head, tail, sex, tick, drawn, stored,
                    if cache then SyncEnd(drawn, |t|, 0) else AsyncEnd(drawn, |t|, 0));
    forall i | AllAgree(Held(t, file, order)) && 0 <= i < stored
      ensures (sex == Female ==> SexOf(d[i]) == 1) && (sex == Male ==> SexOf(d[i]) != 1)
    {
      SampledSex(Held(t, file, order), d[i], sex);
    }
  }

  /** A batch of successful writes, and then a sample by either reader: every record is an entry that the queue
      then lists under the wanted sex, no two the same, and is of that sex exactly if the table is right about the
      entry. The sample is complete unless the last slot of the table is a candidate. */
  method WriteThenSample(mgr: HiddenManager, records: seq<HiddenRecord>, outcomes: seq<bool>,
                         buffer: array<HiddenRecord>,
                         sex: Sex, tick: U32, cache: bool)
    returns (sample: seq<HiddenRecord>)
    requires mgr.Valid() && !mgr.pending && AllStorable(records)
    requires |outcomes| == |records| && forall i :: 0 <= i < |outcomes| ==> outcomes[i]
    requires buffer != mgr.file && buffer != mgr.cachedDB && 0 < buffer.Length && (cache ==> mgr.cached)
    modifies mgr, mgr.db, mgr.db.data, mgr.file, mgr.cachedDB, buffer
    ensures var q := PutAll(mgr.db.size, old(mgr.Queue()), records);
            && (forall i :: 0 <= i < |sample| ==> SampledEntry(q, sample[i], sex))
            && (AllAgree(q) ==>
                  forall i :: 0 <= i < |sample| ==>
                    (sex == Female ==> SexOf(sample[i]) == 1) && (sex == Male ==> SexOf(sample[i]) != 1))
    ensures forall i, j :: 0 <= i < j < |sample| ==> sample[i].createID != sample[j].createID
    ensures |sample| <= Min(|Candidates(mgr.db.data[..], sex)|, buffer.Length)
    ensures Candidates(mgr.db.data[..], sex) != [] ==> sample != []
    ensures !IsCandidate(mgr.db.data[mgr.db.size - 1], sex) ==>
              |sample| == Min(|Candidates(mgr.db.data[..], sex)|, buffer.Length)
  {
    hide AllStorable, Consistent, InFile, WellFormed, Ids, Push, PushAll, Put, PutAll, Held, Loaded;
    hide Candidates, Shuffled, SyncEnd, AsyncEnd, Sampled, SampledEntry, AllAgree, IsFemale, Wanted, IsCandidate;
    hide SexOf;
    AllSucceed(outcomes);
    mgr.WriteBatch(records, outcomes);
    ghost var t, file, order, head, tail := mgr.db.data[..], mgr.file[..], mgr.db.order, mgr.db.head, mgr.db.tail;
    Settled(t, file, mgr.cachedDB[..], mgr.cached, mgr.list, mgr.current, mgr.writeIndex);
    ghost var q := Held(t, file, order);
    var base := new MiddleDB(mgr.db, mgr.cachedDB, mgr.file, buffer, false, mgr.cached);
    var reader := new RandomDB(base, sex);
    reader.Sample(tick, cache);
    assert mgr.db.data[..] == t && base.Source(cache) == file;
    ghost var drawn := reader.Drawn(tick);
    if |drawn| > 0 {
      SampleIsSound(buffer[..], file, t, order, head, tail, sex, tick, drawn, base.storedSize, cache);
    }
    sample := buffer[..base.storedSize];
  }
}
