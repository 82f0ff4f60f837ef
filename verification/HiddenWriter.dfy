/** The batch writer of src/RVLFaceLib/RFL_HiddenDatabase.c: each record of the list enters the table,
    is written to its slot of the file, and on completion to the cache; the header is saved last. */
module HiddenWriter {
  import opened CreateIds
  import opened Faces
  import opened Controller
  import opened HiddenTable
  import opened RecordQueue

  /** The number of writes that succeed before one fails. */
  function Succeeding(outcomes: seq<bool>): (n: nat)
    ensures n <= |outcomes| && (n < |outcomes| ==> !outcomes[n]) && forall i :: 0 <= i < n ==> outcomes[i]
  {
    if outcomes == [] || !outcomes[0] then 0 else 1 + Succeeding(outcomes[1..])
  }

  /** While only successes have been seen, the next outcome decides whether the count goes on. */
  lemma {:induction false} Counted(outcomes: seq<bool>, k: nat)
    requires k <= Succeeding(outcomes) && k < |outcomes|
    ensures outcomes[k] <==> k < Succeeding(outcomes)
  {
  }

  // ---------- table, file and cache ----------

  ghost predicate AllStorable(records: seq<Record>) {
    forall i :: 0 <= i < |records| ==> Storable(records[i])
  }

  /** Every linked slot but `except` has its record in the file, fit to be read. */
  ghost predicate InFile(t: seq<TableData>, file: seq<Record>, except: int) {
    |file| == |t| &&
    forall s :: 0 <= s < |t| && s != except && IsValidID(t[s].createID) ==>
      file[s].createID == t[s].createID && Storable(file[s])
  }

  /** What the writer keeps between steps: the records to write are fit for the database, cache and
      file are equal, the write under way has its table entry, and every other linked slot has its
      record in the file. */
  ghost predicate Consistent(t: seq<TableData>, file: seq<HiddenRecord>, cache: seq<HiddenRecord>, cached: bool,
                             list: seq<HiddenRecord>, current: nat, writeIndex: int, pending: bool) {
    && AllStorable(list)
    && |cache| == |file| == |t|
    && (cached ==> cache == file)
    && (pending ==> current < |list| && 0 <= writeIndex < |t| && t[writeIndex].createID == list[current].createID)
    && InFile(t, file, if pending then writeIndex else -1)
  }

  lemma Entered(t: seq<TableData>, t': seq<TableData>, file: seq<HiddenRecord>, cache: seq<HiddenRecord>, cached: bool,
                list: seq<HiddenRecord>, current: nat, was: int, slot: int)
    requires Consistent(t, file, cache, cached, list, current, was, false) && OthersStay(t, t', slot)
    requires current < |list| && 0 <= slot < |t'| && t'[slot].createID == list[current].createID
    ensures Consistent(t', file, cache, cached, list, current, slot, true)
  {
    hide Storable;
  }

  lemma Written(t: seq<TableData>, file: seq<HiddenRecord>, cache: seq<HiddenRecord>, cached: bool,
                list: seq<HiddenRecord>, current: nat, slot: int)
    requires Consistent(t, file, cache, cached, list, current, slot, true)
    ensures current < |list| && 0 <= slot < |t| == |file| == |cache|
    ensures var file' := file[slot := list[current]];
            var cache' := if cached then cache[slot := list[current]] else cache;
            Consistent(t, file', cache', cached, list, current + 1, slot, false)
    ensures InFile(t, file, slot)
  {
    hide Storable;
  }

  lemma NewBatch(t: seq<TableData>, file: seq<HiddenRecord>, cache: seq<HiddenRecord>, cached: bool,
                 list: seq<HiddenRecord>, current: nat, slot: int, records: seq<HiddenRecord>)
    requires Consistent(t, file, cache, cached, list, current, slot, false) && AllStorable(records)
    ensures Consistent(t, file, cache, cached, records, 0, slot, false)
  {
    hide Storable;
  }

  lemma ListStorable(t: seq<TableData>, file: seq<HiddenRecord>, cache: seq<HiddenRecord>, cached: bool,
                     list: seq<HiddenRecord>, current: nat, slot: int)
    requires Consistent(t, file, cache, cached, list, current, slot, false) && current < |list|
    ensures Storable(list[current])
  {
    hide Storable;
  }

  lemma StorableParts(r: Record)
    requires Storable(r)
    ensures Wide16(r) && IsPermanentID(r.createID)
  {
  }

  /** Between batches file and cache, if enabled, hold the record of every linked slot. */
  lemma Settled(t: seq<TableData>, file: seq<HiddenRecord>, cache: seq<HiddenRecord>, cached: bool,
                list: seq<HiddenRecord>, current: nat, slot: int)
    requires Consistent(t, file, cache, cached, list, current, slot, false)
    ensures InFile(t, file, -1) && (cached ==> cache == file) && |file| == |cache| == |t|
  {
  }

  lemma SlotsListed(t: seq<TableData>, order: seq<int>, head: int, tail: int)
    requires WellFormed(t, order, head, tail)
    ensures forall i :: 0 <= i < |order| ==> 0 <= order[i] < |t|
    ensures Distinct(order) && Distinct(Ids(t, order))
    ensures forall s :: 0 <= s < |t| && IsValidID(t[s].createID) ==> s in order
  {
  }

  lemma FileLabelled(t: seq<TableData>, order: seq<int>, head: int, tail: int, file: seq<HiddenRecord>)
    requires WellFormed(t, order, head, tail) && InFile(t, file, -1)
    ensures Labelled(t, file, order) && Distinct(order) && Distinct(Ids(t, order))
  {
    SlotsListed(t, order, head, tail);
    hide Storable, Linked, Distinct, Ids;
    forall i | 0 <= i < |order|
      ensures file[order[i]].createID == t[order[i]].createID
    {
      assert order[i] in order;
    }
  }

  /** The change that `writeData_` makes to the table. */
  ghost predicate TableWrite(t: seq<TableData>, t': seq<TableData>, order: seq<int>, order': seq<int>, slot: int,
                             id: CreateID, sex: bool)
    requires forall i :: 0 <= i < |order| ==> 0 <= order[i] < |t|
  {
    && OthersStay(t, t', slot) && 0 <= slot < |t| && t'[slot].createID == id
    && (if id in Ids(t, order) then t' == t && order' == order
        else t'[slot].sex == sex
             && TakesSlot(order, |t|, slot)
             && order' == if |order| < |t| then order + [slot] else order[1..] + [slot])
  }

  /** With the record in its slot, table and file hold the queue after the write. */
  lemma QueueWritten(t: seq<TableData>, t': seq<TableData>, order: seq<int>, order': seq<int>, head: int, tail: int,
                     file: seq<HiddenRecord>, slot: int, r: HiddenRecord)
    requires WellFormed(t, order, head, tail) && InFile(t, file, -1) && IsValidID(r.createID) && |order| <= |t|
    requires (forall i :: 0 <= i < |order| ==> 0 <= order[i] < |t|)
    requires (forall i :: 0 <= i < |order'| ==> 0 <= order'[i] < |t'|)
    requires |file| == |t| == |t'| && 0 <= slot < |t| && TableWrite(t, t', order, order', slot, r.createID, IsFemale(r))
    ensures Held(t', file[slot := r], order') == Put(|t|, Held(t, file, order), r)
  {
    FileLabelled(t, order, head, tail, file);
    SlotsListed(t, order, head, tail);
    hide WellFormed, InFile, Labelled, Held, Put, Ids, Distinct, IsFemale, IsValidID;
    if r.createID in Ids(t, order) {
      PutKnown(|t|, t, file, order, slot, r);
    } else if |order| < |t| {
      PutAppended(|t|, t, t', file, order, slot, r);
    } else {
      PutRecycled(|t|, t, t', file, order, r);
    }
  }

  lemma BatchCache(t: seq<TableData>, file: seq<HiddenRecord>, cache: seq<HiddenRecord>, cached: bool,
                   list: seq<HiddenRecord>, current: nat, slot: int)
    requires Consistent(t, file, cache, cached, list, current, slot, false)
    ensures cached ==> cache == file
  {
  }

  /** The file, with the write under way done, has the record of every linked slot. */
  lemma QueueFile(t: seq<TableData>, file: seq<HiddenRecord>, cache: seq<HiddenRecord>, cached: bool,
                  list: seq<HiddenRecord>, current: nat, slot: int, pending: bool, tmp: HiddenRecord)
    requires Consistent(t, file, cache, cached, list, current, slot, pending)
    requires pending ==> current < |list| && tmp == list[current]
    ensures InFile(t, if pending then file[slot := tmp] else file, -1)
  {
    if pending {
      Written(t, file, cache, cached, list, current, slot);
    }
  }

  lemma NothingTurns(order: seq<int>, size: nat, ids: seq<CreateID>, records: seq<HiddenRecord>)
    ensures Entering(size, ids, IdsOf(records[..0])) == 0 && PushAll(size, ids, IdsOf(records[..0])) == ids
    ensures Turns(order, order, size, 0)
  {
    hide InTurn;
    assert IdsOf(records[..0]) == [];
  }

  /** One more record of a batch: its identifier takes the next slot if it is new. */
  lemma TurnsWithBatch(ids: seq<CreateID>, records: seq<HiddenRecord>, k: nat, size: nat,
                       order: seq<int>, order': seq<int>, order'': seq<int>)
    requires k < |records|
    requires Turns(order, order', size, Entering(size, ids, IdsOf(records[..k])))
    requires var known := records[k].createID in PushAll(size, ids, IdsOf(records[..k]));
             Turns(order', order'', size, if known then 0 else 1)
    ensures Turns(order, order'', size, Entering(size, ids, IdsOf(records[..k + 1])))
  {
    hide Turns, Entering, PushAll;
    assert IdsOf(records[..k + 1]) == IdsOf(records[..k]) + [records[k].createID];
    EnteringSnoc(size, ids, IdsOf(records[..k]), records[k].createID);
    TurnsOn(order, order', order'', size, Entering(size, ids, IdsOf(records[..k])),
            if records[k].createID in PushAll(size, ids, IdsOf(records[..k])) then 0 else 1);
  }

  // ---------- the writer ----------

  /** The writing part of `RFLiHDBManager`. `file` holds the records on the NAND; `pending` says that
      a record write is under way. */
  class HiddenManager {
    const db: HiddenDB
    const file: array<HiddenRecord>
    const cachedDB: array<HiddenRecord>
    var cached: bool
    var list: seq<HiddenRecord>
    var current: nat
    var writeTmp: HiddenRecord
    var writeIndex: int
    var pending: bool
    var recordWrites: nat
    var headerSaves: nat

    /** The slots in the list and the write under way lie in the file. */
    ghost predicate Sized()
      reads this, db, db.data
    {
      && file.Length == cachedDB.Length == db.data.Length == db.size && |db.order| <= db.size
      && (forall i :: 0 <= i < |db.order| ==> 0 <= db.order[i] < db.data.Length)
      && (pending ==> 0 <= writeIndex < file.Length)
    }

    ghost predicate Valid()
      reads this, db, db.data, file, cachedDB
    {
      && db.Valid() && file != cachedDB && Sized()
      && Consistent(db.data[..], file[..], cachedDB[..], cached, list, current, writeIndex, pending)
      && (pending ==> current < |list| && writeTmp == list[current])
    }

    /** The entries in table and file, oldest first, counting the write under way as done. */
    ghost function Queue(): (q: seq<Entry>)
      reads this, db, db.data, file
      requires Sized()
    {
      Held(db.data[..], if pending then file[..][writeIndex := writeTmp] else file[..], db.order)
    }

    lemma ListSized()
      requires db.Valid()
      ensures |db.order| <= db.size == db.data.Length && forall i :: 0 <= i < |db.order| ==> 0 <= db.order[i] < db.size
    {
      SlotsListed(db.data[..], db.order, db.head, db.tail);
      Pigeonhole(db.order, db.size);
    }

    constructor (table: HiddenDB, records: array<HiddenRecord>, cache: array<HiddenRecord>)
      requires table.Valid() && table.Contents() == [] && records != cache
      requires records.Length == cache.Length == table.size
      ensures Valid() && db == table && file == records && cachedDB == cache && !pending && !cached
    {
      db, file, cachedDB := table, records, cache;
      cached, list, current, writeIndex, pending := false, [], 0, -1, false;
      recordWrites, headerSaves := 0, 0;
      writeTmp := Blank();
    }

    /** `writeData_`: the table entry, and the request to write the record. */
    method WriteData(record: HiddenRecord)
      requires Valid() && !pending && current < |list| && record == list[current] && Storable(record)
      modifies this, db, db.data
      ensures Valid() && pending && list == old(list) && current == old(current) && cached == old(cached)
      ensures recordWrites == old(recordWrites) && headerSaves == old(headerSaves)
      ensures Queue() == Put(db.size, old(Queue()), record)
      ensures 0 <= writeIndex < db.size && db.data[writeIndex].createID == record.createID
      ensures record.createID !in old(db.Contents()) ==> TakesSlot(old(db.order), db.size, writeIndex)
      ensures Turns(old(db.order), db.order, db.size, if record.createID in old(db.Contents()) then 0 else 1)
    {
      hide Storable, Consistent, InFile, OthersStay, WellFormed, Ids, IsPermanentID, IsValidID, Push, Held, Put, SexOf;
      StorableParts(record);
      PermanentIsValid(record.createID);
      ghost var before, order, head, tail := db.data[..], db.order, db.head, db.tail;
      Settled(before, file[..], cachedDB[..], cached, list, current, writeIndex);
      var slot := db.WriteData(record.createID, SexOf(record) == 1);
      Entered(before, db.data[..], file[..], cachedDB[..], cached, list, current, writeIndex, slot);
      writeTmp := record;
      writeIndex := slot;
      pending := true;
      ListSized();
      QueueWritten(before, db.data[..], order, db.order, head, tail, file[..], slot, record);
      WriteTurns(order, db.order, db.size, slot, record.createID in Ids(before, order));
    }

    /** The NAND has finished with the record; then `writeCallback_`. */
    method Completed(success: bool)
      requires Valid() && pending
      modifies this, db, db.data, file, cachedDB
      ensures list == old(list) && cached == old(cached)
      ensures success ==>
                && file[..] == old(file[..])[old(writeIndex) := old(writeTmp)]
                && cachedDB[..] == if cached then old(cachedDB[..])[old(writeIndex) := old(writeTmp)]
                                   else old(cachedDB[..])
      ensures success ==> Valid() && current == old(current) + 1 <= |list| && recordWrites == old(recordWrites) + 1
      ensures success && current < |list| ==>
                && pending && headerSaves == old(headerSaves)
                && Queue() == Put(db.size, old(Queue()), list[current])
                && Turns(old(db.order), db.order, db.size,
                         if list[current].createID in old(db.Contents()) then 0 else 1)
      ensures success && current == |list| ==>
                && !pending && headerSaves == old(headerSaves) + 1 && Queue() == old(Queue())
                && db.order == old(db.order)
      ensures !success ==>
                && !pending && current == old(current) && recordWrites == old(recordWrites)
                && headerSaves == old(headerSaves) && writeIndex == old(writeIndex) && writeTmp == old(writeTmp)
                && db.Valid() && Sized() && InFile(db.data[..], file[..], writeIndex)
                && db.Contents() == old(db.Contents()) && db.order == old(db.order)
                && file[..] == old(file[..]) && cachedDB[..] == old(cachedDB[..]) && 0 <= writeIndex < file.Length
                && Held(db.data[..], file[..][writeIndex := writeTmp], db.order) == old(Queue())
    {
      hide Storable, Consistent, InFile, WellFormed, Held, Put;
      Written(db.data[..], file[..], cachedDB[..], cached, list, current, writeIndex);
      ghost var written, copied := file[..][writeIndex := writeTmp], cachedDB[..][writeIndex := writeTmp];
      pending := false;
      if success {
        file[writeIndex] := writeTmp;
        assert file[..] == written;
        recordWrites := recordWrites + 1;
        if cached {
          cachedDB[writeIndex] := writeTmp;
          assert cachedDB[..] == copied;
        }
        current := current + 1;
        if current < |list| {
          ListStorable(db.data[..], file[..], cachedDB[..], cached, list, current, writeIndex);
          WriteData(list[current]);
        } else {
          headerSaves := headerSaves + 1;
        }
      }
    }

    /** The queue has the identifiers of the table. */
    lemma QueueIds()
      requires Valid()
      ensures EntryIds(Queue()) == db.Contents()
    {
      hide Storable, WellFormed, Held, Ids;
      ghost var t, f := db.data[..], if pending then file[..][writeIndex := writeTmp] else file[..];
      QueueFile(t, file[..], cachedDB[..], cached, list, current, writeIndex, pending, writeTmp);
      FileLabelled(t, db.order, db.head, db.tail, f);
      HeldIds(t, f, db.order);
    }

    /** A batch on its way: the queue holds the records up to the one under way, and their new identifiers have
        taken slots in turn. */
    ghost predicate InBatch(records: seq<HiddenRecord>, start: seq<Entry>, order: seq<int>)
      reads this, db, db.data, file, cachedDB
    {
      var done := if pending && current < |records| then records[..current + 1] else records;
      && Valid() && list == records && (if pending then current < |records| else current == |records|)
      && Queue() == PutAll(db.size, start, done)
      && Turns(order, db.order, db.size, Entering(db.size, EntryIds(start), IdsOf(done)))
    }

    /** The record under way has been written. */
    method Proceed(records: seq<HiddenRecord>, ghost start: seq<Entry>, ghost order: seq<int>)
      requires pending && InBatch(records, start, order)
      modifies this, db, db.data, file, cachedDB
      ensures InBatch(records, start, order) && current == old(current) + 1 && cached == old(cached)
      ensures recordWrites == old(recordWrites) + 1
      ensures headerSaves == old(headerSaves) + (if pending then 0 else 1)
    {
      hide Consistent, WellFormed, Held, Put, PutAll, PushAll, Ids, EntryIds, Storable, IdsOf, Turns, Entering;
      QueueIds();
      PutAllIds(db.size, start, records[..current + 1]);
      ghost var was := db.order;
      Completed(true);
      if pending {
        PutAllSnoc(db.size, start, records, current);
        TurnsWithBatch(EntryIds(start), records, current, db.size, order, was, db.order);
      } else {
        assert records[..current] == records;
      }
    }

    /** The first record of a batch is under way. */
    method Begin(records: seq<HiddenRecord>)
      requires Valid() && !pending && AllStorable(records) && records != []
      modifies this, db, db.data
      ensures pending && current == 0 && InBatch(records, old(Queue()), old(db.order)) && cached == old(cached)
      ensures recordWrites == old(recordWrites) && headerSaves == old(headerSaves)
    {
      hide AllStorable, Consistent, WellFormed, Held, Put, PutAll, PushAll, Ids, EntryIds, Storable, IdsOf, Turns;
      hide Entering;
      ghost var start, order := Queue(), db.order;
      QueueIds();
      NewBatch(db.data[..], file[..], cachedDB[..], cached, list, current, writeIndex, records);
      list, current := records, 0;
      NoRecords(db.size, start);
      NothingTurns(order, db.size, EntryIds(start), records);
      ListStorable(db.data[..], file[..], cachedDB[..], cached, list, current, writeIndex);
      PutAllSnoc(db.size, start, records, 0);
      assert records[..0] == [];
      WriteData(list[current]);
      TurnsWithBatch(EntryIds(start), records, 0, db.size, order, order, db.order);
    }

    /** `RFLiWriteCtrlToHiddenDB` on an existing database, run to its end. The outcomes are those of the record
        writes. When all succeed, table and file hold the queue after all records, an enabled cache is equal to
        the file, and the header is saved once, after exactly as many writes as records. A failing write ends
        the batch without saving the header; then table and file hold the queue after the records up to the
        failing one, but for its slot, where the file still has what it had. */
    method WriteBatch(records: seq<HiddenRecord>, outcomes: seq<bool>)
      requires Valid() && !pending && AllStorable(records) && |outcomes| == |records|
      modifies this, db, db.data, file, cachedDB
      ensures recordWrites == old(recordWrites) + Succeeding(outcomes) && cached == old(cached)
      ensures var done := if Succeeding(outcomes) < |records| then records[..Succeeding(outcomes) + 1] else records;
              db.Valid() && Turns(old(db.order), db.order, db.size, Entering(db.size, old(db.Contents()), IdsOf(done)))
      ensures Succeeding(outcomes) == |records| ==>
                && Valid() && !pending && headerSaves == old(headerSaves) + 1 && (cached ==> cachedDB[..] == file[..])
                && Queue() == PutAll(db.size, old(Queue()), records)
                && db.Contents() == PushAll(db.size, old(db.Contents()), IdsOf(records))
      ensures Succeeding(outcomes) < |records| ==>
                var tried := records[..Succeeding(outcomes) + 1];
                && db.Valid() && Sized() && !pending && headerSaves == old(headerSaves)
                && 0 <= writeIndex < file.Length && InFile(db.data[..], file[..], writeIndex)
                && Held(db.data[..], file[..][writeIndex := records[Succeeding(outcomes)]], db.order)
                   == PutAll(db.size, old(Queue()), tried)
                && db.Contents() == PushAll(db.size, old(db.Contents()), IdsOf(tried))
    {
      hide AllStorable, Consistent, InFile, WellFormed, Held, Put, PutAll, PushAll, Ids, EntryIds, Storable;
      hide Succeeding, IdsOf, Turns, Entering;
      ghost var start, order, n := Queue(), db.order, Succeeding(outcomes);
      QueueIds();
      PutAllIds(db.size, start, records);
      if records == [] {
        NewBatch(db.data[..], file[..], cachedDB[..], cached, list, current, writeIndex, records);
        NothingTurns(order, db.size, EntryIds(start), records);
        NoRecords(db.size, start);
        list, current := records, 0;
        headerSaves := headerSaves + 1;
        BatchCache(db.data[..], file[..], cachedDB[..], cached, list, current, writeIndex);
        return;
      }
      Begin(records);
      while pending && outcomes[current]
        invariant current <= n && cached == old(cached) && InBatch(records, start, order)
        invariant recordWrites == old(recordWrites) + current
        invariant headerSaves == old(headerSaves) + (if pending then 0 else 1)
        decreases |records| - current
      {
        Counted(outcomes, current);
        Proceed(records, start, order);
      }
      QueueIds();
      if pending {
        Counted(outcomes, current);
        PutAllIds(db.size, start, records[..current + 1]);
        Completed(false);
      } else {
        BatchCache(db.data[..], file[..], cachedDB[..], cached, list, current, writeIndex);
      }
    }
  }
}
