/** The paged readers of src/RVLFaceLib/RFL_MiddleDatabase.c: a synchronous loop over the cache and a chain
    of callbacks over the file, which deliver the same pages. */
module PageReader {
  import opened CreateIds
  import opened Faces
  import opened HiddenTable
  import opened Pages
  import opened PageWalks
  import opened Status

  lemma NameOfInfo(r: HiddenRecord)
    ensures |HiddenToInfo(r).name| == 10
  {
  }

  /** The extra test of the asynchronous reader is implied by the first one. */
  lemma DeliveredTest(r: HiddenRecord, id: CreateID)
    ensures |HiddenToInfo(r).name| == 10
    ensures Loadable(r, id) <==>
      IsSameID(r.createID, id) && CheckValidInfo(HiddenToInfo(r)) && !IsTemporaryID(HiddenToInfo(r).createID)
  {
    hide CheckValidInfo;
  }

  /** `RFLiMiddleDB` of type HiddenOlder or HiddenNewer, the part of `RFLiHDBManager` that loads records,
      and the status fields of `RFLiManager`. */
  class MiddleDB {
    const db: HiddenDB
    const cachedDB: array<HiddenRecord>
    const file: array<HiddenRecord>
    const data: array<HiddenRecord>
    const newer: bool
    const cached: bool
    var storedSize: nat
    var srcIdx: int
    var dstIdx: nat
    var lastSrcIdx: int
    var loadDst: nat
    var loadIndex: int
    var working: bool
    var status: Errcode
    var lastReason: int
    var callbacks: nat

    /** Table, cache and file have one place for each slot. */
    ghost predicate Shape()
      reads db.data
    {
      db.data.Length == db.size == cachedDB.Length == file.Length && data != cachedDB && data != file
    }

    ghost predicate Valid()
      reads db, db.data
    {
      db.Valid() && Shape()
    }

    /** The slots in reading order. */
    ghost function Order(): seq<int>
      reads db
    {
      Reading(db.order, newer)
    }

    /** The cursor: -1 before the first entry, otherwise the slot at position p. */
    ghost predicate Cursor(p: int)
      reads this`srcIdx, db
    {
      -1 <= p < |Order()| && srcIdx == At(Order(), p)
    }

    /** `RFLInitMiddleDB`: the cursor starts before the first entry. */
    constructor (table: HiddenDB, cache: array<HiddenRecord>, records: array<HiddenRecord>,
                 buffer: array<HiddenRecord>, newest: bool, enabled: bool)
      requires table.Valid() && cache.Length == records.Length == table.size && buffer != cache && buffer != records
      ensures Valid() && Cursor(-1) && newer == newest && cached == enabled && !working && status == Success
      ensures db == table && cachedDB == cache && file == records && data == buffer
    {
      db, cachedDB, file, data, newer, cached := table, cache, records, buffer, newest, enabled;
      storedSize, srcIdx, dstIdx, lastSrcIdx, loadDst, loadIndex := 0, -1, 0, -1, 0, 0;
      working, status, lastReason, callbacks := false, Success, 0, 0;
    }

    method EndWorking(err: Errcode)
      modifies this`working, this`status, this`lastReason
      ensures status == EndStatus(old(status), err)
      ensures old(status) == Busy || old(status) == Success ==> !working
      ensures !old(working) ==> !working
      ensures old(status) != Busy && old(status) != Success ==> working == old(working) && lastReason == old(lastReason)
    {
      match status {
        case Busy => working, status, lastReason := false, err, 0;
        case Success => working, status, lastReason := false, err, 0;
        case _ =>
      }
    }

    // ---------- the synchronous reader ----------

    /** What the cache has to offer: nothing that could be accepted when it is not enabled. */
    ghost function CacheView(): (view: seq<HiddenRecord>)
      reads cachedDB
      ensures |view| == cachedDB.Length
    {
      if cached then cachedDB[..] else seq(cachedDB.Length, _ => Blank())
    }

    /** `RFLiLoadCachedHiddenData` into the given place of the buffer. */
    method LoadCached(dst: nat, index: int) returns (err: Errcode)
      requires Shape() && dst < data.Length && -1 <= index < db.size
      modifies data
      ensures index < 0 ==> data[..] == old(data[..]) && err == WrongParam
      ensures index >= 0 ==>
                && data[..] == (if Loadable(CacheView()[index], db.data[index].createID)
                                then old(data[..])[dst := CacheView()[index]] else old(data[..]))
                && (err == Success <==> Loadable(CacheView()[index], db.data[index].createID))
                && (err == NotAvailable <==> !cached)
    {
      hide CheckValidInfo, HiddenToInfo;
      if index < 0 {
        return WrongParam;
      }
      if !cached {
        return NotAvailable;
      }
      if IsSameID(cachedDB[index].createID, db.data[index].createID) {
        NameOfInfo(cachedDB[index]);
        if CheckValidInfo(HiddenToInfo(cachedDB[index])) {
          data[dst] := cachedDB[index];
          return Success;
        } else {
          return Broken;
        }
      } else {
        return Broken;
      }
    }

    /** The links at the cursor. */
    lemma CursorLinks(p: nat)
      requires db.Valid() && p < |Order()|
      ensures 0 <= At(Order(), p) < db.size
      ensures Neighbour(db.data[..], At(Order(), p), newer) == At(Order(), p + 1)
      ensures At(Order(), p + 1) >= 0 <==> p + 1 < |Order()|
    {
      hide Reading, Neighbour, WellFormed, Distinct;
      ReadingLinks(db.data[..], db.order, db.head, db.tail, newer);
    }

    /** One turn of the loop: a record is loaded from the cache, and counted if it checks. */
    method StoreCached(ghost slots: seq<int>)
      requires Shape() && 0 <= srcIdx < db.size && |slots| < data.Length
      requires Filled(data[..], CacheView(), db.data[..], slots, storedSize)
      modifies this`storedSize, data
      ensures Filled(data[..], CacheView(), db.data[..], slots + [srcIdx], storedSize)
    {
      hide Filled, Loadable, CheckHiddenData, Wide16, Loaded, SlotsOf, CacheView;
      ghost var before := data[..];
      FilledParts(before, CacheView(), db.data[..], slots, storedSize);
      var err := LoadCached(storedSize, srcIdx);
      FillStep(before, data[..], CacheView(), db.data[..], slots, srcIdx, storedSize);
      if CheckHiddenData(data[storedSize]) {
        storedSize := storedSize + 1;
      }
    }

    /** `loadHiddenDataSync_`: the page is filled in one loop. */
    method LoadHiddenDataSync(ghost p: nat)
      requires Valid() && 0 < data.Length && p < |Order()| && Cursor(p) && dstIdx == 0
      requires Filled(data[..], CacheView(), db.data[..], [], storedSize)
      modifies this, data
      ensures Filled(data[..], CacheView(), db.data[..], Order()[p..Min(p + data.Length, |Order()|)], storedSize)
      ensures Cursor(Min(p + data.Length, |Order()|) - 1) && status == EndStatus(old(status), Success)
      ensures working ==> old(working)
      ensures callbacks == old(callbacks)
    {
      hide WellFormed, Filled, Reading, Neighbour, CacheView;
      ghost var o := Order();
      assert o[p..p] == [];
      var running := true;
      while running
        invariant p + dstIdx <= |o| && dstIdx <= data.Length
        invariant running ==> p + dstIdx < |o| && dstIdx < data.Length && srcIdx == At(o, p + dstIdx)
        invariant !running ==> p + dstIdx == Min(p + data.Length, |o|) && dstIdx > 0 && srcIdx == At(o, p + dstIdx - 1)
        invariant Filled(data[..], CacheView(), db.data[..], o[p..p + dstIdx], storedSize)
        invariant status == old(status) && working == old(working) && callbacks == old(callbacks)
        decreases running, data.Length - dstIdx
      {
        CursorLinks(p + dstIdx);
        StoreCached(o[p..p + dstIdx]);
        assert o[p..p + dstIdx] + [srcIdx] == o[p..p + dstIdx + 1];
        var src := Neighbour(db.data[..], srcIdx, newer);
        dstIdx := dstIdx + 1;
        if src >= 0 && dstIdx < data.Length {
          srcIdx := src;
        } else {
          running := false;
        }
      }
      CursorLinks(p + dstIdx - 1);
      EndWorking(if srcIdx == -1 then DBNodata else Success);
    }

    // ---------- the asynchronous reader ----------

    /** `RFLiLoadHiddenDataAsync`: the file is opened, unless the request is refused. */
    method LoadAsync(dst: nat, index: int, o: Outcome) returns (err: Errcode)
      modifies this`loadDst, this`loadIndex, this`working, this`status, this`lastReason
      ensures loadDst == dst && loadIndex == index
      ensures o.Refused? ==> !working && err == status == o.err && lastReason == o.reason
      ensures !o.Refused? ==> working && err == status == Busy && lastReason == old(lastReason)
    {
      loadDst, loadIndex, working, status := dst, index, true, Busy;
      if o.Refused? {
        working, status, lastReason := false, o.err, o.reason;
      }
      err := status;
    }

    /** The record in the file is under its identifier, and still not accepted. */
    ghost predicate Refuses(index: int)
      requires Shape() && 0 <= index < db.size
      reads db.data, file
    {
      var id, r := db.data[index].createID, file[index];
      IsSameID(r.createID, id) && !Loadable(r, id)
    }

    /** `loadcallback_`, up to the close: a record that was read is taken if it is under its identifier and valid. */
    method TakeRecord()
      requires Shape() && 0 <= loadIndex < db.size && loadDst < data.Length
      modifies this`status, data
      ensures data[..] == if old(status) == Success && Loadable(file[loadIndex], db.data[loadIndex].createID)
                          then old(data[..])[loadDst := file[loadIndex]] else old(data[..])
      ensures status == if old(status) == Success && Refuses(loadIndex) then Broken else old(status)
    {
      hide CheckValidInfo, HiddenToInfo, IsTemporaryID;
      DeliveredTest(file[loadIndex], db.data[loadIndex].createID);
      hide Loadable, IsSameID;
      if status == Success {
        if IsSameID(file[loadIndex].createID, db.data[loadIndex].createID) {
          NameOfInfo(file[loadIndex]);
          if CheckValidInfo(HiddenToInfo(file[loadIndex])) && !IsTemporaryID(HiddenToInfo(file[loadIndex]).createID) {
            data[loadDst] := file[loadIndex];
          } else {
            status := Broken;
          }
        }
      }
    }

    /** The end of one load: `readcallback_`, `loadcallback_` and `closecallback_`. A successful close
        restores the earlier status, and puts its code in place of the reason. */
    method Deliver(o: Outcome)
      requires Shape() && o.Ended? && Possible(o) && 0 <= loadIndex < db.size && loadDst < data.Length
      modifies this`working, this`status, this`lastReason, data
      ensures !working
      ensures data[..] == if o.read == Success && Loadable(file[loadIndex], db.data[loadIndex].createID)
                          then old(data[..])[loadDst := file[loadIndex]] else old(data[..])
      ensures status == StatusAfter(o, Refuses(loadIndex)) && lastReason == ReasonAfter(o, Refuses(loadIndex))
    {
      hide Loadable, Refuses;
      working, status, lastReason := false, o.read, o.readReason;
      TakeRecord();
      var beforeCloseErr := status;
      working, status := true, Busy;
      if o.close == Success {
        working, status, lastReason := false, beforeCloseErr, Code(beforeCloseErr);
      } else {
        working, status, lastReason := false, o.close, o.closeReason;
      }
    }

    /** The end of a load that is lost on its way: its callback is never called. */
    method Lose(o: Outcome)
      requires Shape() && o.Lost? && 0 <= loadIndex < db.size && loadDst < data.Length
      modifies this`working, this`status, this`lastReason, data
      ensures !working && status == o.err && lastReason == o.reason
      ensures data[..] == if o.taken && Loadable(file[loadIndex], db.data[loadIndex].createID)
                          then old(data[..])[loadDst := file[loadIndex]] else old(data[..])
    {
      hide Loadable, Refuses;
      if o.taken {
        status := Success;
        TakeRecord();
      }
      working, status, lastReason := false, o.err, o.reason;
    }

    /** The first half of `updateHDBcallback_` after a good load: the record is counted if it checks, and the next
        load is started. */
    method CountAndGoOn(next: Outcome)
      requires !working && dstIdx < data.Length && storedSize < data.Length && Possible(next)
      requires status == Success || status == Broken
      modifies this
      ensures lastSrcIdx == old(lastSrcIdx) && callbacks == old(callbacks) && dstIdx == old(dstIdx) + 1
      ensures storedSize
           == old(storedSize) + (if old(status) == Success && CheckHiddenData(data[old(storedSize)]) then 1 else 0)
      ensures var src := Neighbour(db.data[..], old(srcIdx), newer);
              if src >= 0 && dstIdx < data.Length then
                && srcIdx == loadIndex == src && loadDst == storedSize && working == !next.Refused?
                && (next.Refused? ==> status == next.err && lastReason == next.reason)
              else
                && srcIdx == old(srcIdx) && !working
                && status == if storedSize < data.Length then DBNodata else Success
    {
      hide CheckHiddenData, Neighbour;
      var src := Neighbour(db.data[..], srcIdx, newer);
      if status != Broken && CheckHiddenData(data[storedSize]) {
        storedSize := storedSize + 1;
      }
      dstIdx := dstIdx + 1;
      if src >= 0 && dstIdx < data.Length {
        srcIdx := src;
        var err := LoadAsync(storedSize, srcIdx, next);
        if err != Busy {
          EndWorking(err);
        }
      } else {
        status := if storedSize < data.Length then DBNodata else Success;
      }
    }

    /** `updateHDBcallback_`: after a good load the chain goes on if it can. When it ends, the owner of the page is
        called back; a failure that left the reason busy sets the cursor back. */
    method UpdateHDBCallback(next: Outcome)
      requires !working && dstIdx < data.Length && storedSize < data.Length && Possible(next)
      modifies this
      ensures lastSrcIdx == old(lastSrcIdx) && callbacks == old(callbacks) + (if working then 0 else 1)
      ensures var counted := if old(status) == Success && CheckHiddenData(data[old(storedSize)]) then 1 else 0;
              var src := Neighbour(db.data[..], old(srcIdx), newer);
              if old(status) != Success && old(status) != Broken then
                && !working && status == old(status) && lastReason == old(lastReason)
                && if status == NANDCommandfail && lastReason == NAND_BUSY
                   then srcIdx == lastSrcIdx && storedSize == dstIdx == 0
                   else srcIdx == old(srcIdx) && storedSize == old(storedSize) && dstIdx == old(dstIdx)
              else if src < 0 || old(dstIdx) + 1 >= data.Length then
                && !working && status == (if storedSize < data.Length then DBNodata else Success)
                && srcIdx == old(srcIdx) && storedSize == old(storedSize) + counted && dstIdx == old(dstIdx) + 1
              else if next.Refused? then
                && !working && status == next.err && lastReason == next.reason
                && if EndsBusy(next) then srcIdx == lastSrcIdx && storedSize == dstIdx == 0
                   else srcIdx == src && storedSize == old(storedSize) + counted && dstIdx == old(dstIdx) + 1
              else
                && working && srcIdx == loadIndex == src && loadDst == storedSize
                && storedSize == old(storedSize) + counted && dstIdx == old(dstIdx) + 1
    {
      hide CheckHiddenData, Neighbour;
      if status == Success || status == Broken {
        CountAndGoOn(next);
      }
      if !working {
        if status == NANDCommandfail && lastReason == NAND_BUSY {
          srcIdx := lastSrcIdx;
          storedSize := 0;
          dstIdx := 0;
        }
        callbacks := callbacks + 1;
      }
    }

    /** A load under way for the entry at the cursor, with the entries from p on already delivered. */
    ghost predicate Loading(p: nat)
      reads this, db, db.data, file, data
    {
      && working && p + dstIdx < |Order()| && dstIdx < data.Length && Cursor(p + dstIdx)
      && loadIndex == srcIdx && loadDst == storedSize
      && Filled(data[..], file[..], db.data[..], Order()[p..p + dstIdx], storedSize)
    }

    /** The page that starts at position p is complete, or the list is at its end. */
    ghost predicate Complete(p: nat)
      reads this, db, db.data, file, data
    {
      && !working && p + dstIdx == Min(p + data.Length, |Order()|) && Cursor(p + dstIdx - 1)
      && Filled(data[..], file[..], db.data[..], Order()[p..p + dstIdx], storedSize)
      && status == if storedSize < data.Length then DBNodata else Success
    }

    /** The page that starts at position p was stopped by its load number n. It holds what the loads before have
        brought, and behind that a record that was read but could not be closed. The cursor stays at the entry of
        the failed load, or goes back to where it was before the page, and then nothing counts. */
    ghost predicate Stopped(p: nat, n: nat, o: Outcome)
      reads this`working, this`status, this`lastReason, this`storedSize, this`srcIdx, this`dstIdx, this`lastSrcIdx
      reads db, db.data, file, data
    {
      && !working && status == StatusAfter(o, false) && lastReason == ReasonAfter(o, false)
      && Shape() && p + n < |Order()| && n < data.Length && SlotsOf(Order()[p..p + n], db.size)
      && 0 <= Order()[p + n] < db.size
      && var slots, s := Order()[p..p + n], Order()[p + n];
         var stored := |Loaded(file[..], db.data[..], slots)|;
         && Filled(data[..][stored := Blank()], file[..], db.data[..], slots, stored)
         && data[stored] == (if LeavesRecord(o) && Loadable(file[s], db.data[s].createID) then file[s] else Blank())
         && if TurnsBack(n, o) then srcIdx == lastSrcIdx && storedSize == dstIdx == 0
            else Cursor(p + n) && storedSize == stored && dstIdx == n
    }

    /** The record of a successful load goes behind those that are counted, and will count if it was accepted. */
    method DeliverRecord(ghost slots: seq<int>)
      requires Shape() && 0 <= loadIndex < db.size && loadDst == storedSize && |slots| < data.Length
      requires Filled(data[..], file[..], db.data[..], slots, storedSize)
      modifies this`working, this`status, this`lastReason, data
      ensures !working && (status == Success || status == Broken) && storedSize < data.Length
      ensures Filled(data[..], file[..], db.data[..], slots + [loadIndex],
                     storedSize + (if status == Success && CheckHiddenData(data[storedSize]) then 1 else 0))
    {
      hide Filled, Loadable, CheckHiddenData, Loaded, SlotsOf, Blank, IsSameID;
      ghost var before := data[..];
      FilledParts(before, file[..], db.data[..], slots, storedSize);
      Deliver(NO_FAILURE);
      FillStep(before, data[..], file[..], db.data[..], slots, loadIndex, storedSize);
    }

    /** The next load of a page is refused. */
    lemma RefusedNext(p: nat, n: nat, next: Outcome, stored: nat)
      requires Valid() && next.Refused? && n > 0 && p + n < |Order()| && n < data.Length
      requires Filled(data[..], file[..], db.data[..], Order()[p..p + n], stored)
      requires !working && status == next.err && lastReason == next.reason
      requires if EndsBusy(next) then srcIdx == lastSrcIdx && storedSize == dstIdx == 0
               else Cursor(p + n) && storedSize == stored && dstIdx == n
      ensures Stopped(p, n, next)
    {
      hide Filled, Loaded, Loadable, SlotsOf, Reading, WellFormed, Blank, Neighbour;
      CursorLinks(p + n);
      FilledParts(data[..], file[..], db.data[..], Order()[p..p + n], stored);
      FilledBehind(data[..], file[..], db.data[..], Order()[p..p + n], stored);
    }

    /** One load has succeeded: the page is complete, the next load is under way, or it is refused. */
    method LoadSucceeded(ghost p: nat, next: Outcome)
      requires Valid() && Loading(p) && Possible(next)
      modifies this, data
      ensures lastSrcIdx == old(lastSrcIdx) && callbacks == old(callbacks) + (if working then 0 else 1)
      ensures var n := old(dstIdx) + 1;
              if p + n == Min(p + data.Length, |Order()|) then Complete(p) && dstIdx == n
              else if next.Refused? then !working && Stopped(p, n, next)
              else Loading(p) && dstIdx == n
    {
      hide WellFormed, Filled, Reading, Neighbour, Loadable, CheckHiddenData, Order, Possible, EndsBusy;
      CursorLinks(p + dstIdx);
      assert Order()[p..p + dstIdx] + [srcIdx] == Order()[p..p + dstIdx + 1];
      DeliverRecord(Order()[p..p + dstIdx]);
      ghost var n, stored := dstIdx + 1,
                storedSize + (if status == Success && CheckHiddenData(data[storedSize]) then 1 else 0);
      UpdateHDBCallback(next);
      if p + n < |Order()| && n < data.Length && next.Refused? {
        RefusedNext(p, n, next, stored);
      }
    }

    /** One load has failed: the chain ends and nothing more is counted. Only a close that failed as busy sets the
        cursor back, because a successful close has replaced the reason of a failed read. */
    method LoadFailed(ghost p: nat, o: Outcome)
      requires Valid() && Loading(p) && Possible(o) && Fails(o) && !o.Refused?
      modifies this, data
      ensures lastSrcIdx == old(lastSrcIdx) && callbacks == old(callbacks) + (if o.Lost? then 0 else 1)
      ensures !working && Stopped(p, old(dstIdx), o)
    {
      hide WellFormed, Filled, Reading, Neighbour, Loadable, CheckHiddenData, Order, Loaded, SlotsOf, Blank;
      ghost var before, slots := data[..], Order()[p..p + dstIdx];
      CursorLinks(p + dstIdx);
      FilledParts(before, file[..], db.data[..], slots, storedSize);
      FilledBehind(before, file[..], db.data[..], slots, storedSize);
      if o.Lost? {
        Lose(o);
        assert data[..][storedSize := Blank()] == before;
      } else {
        Deliver(o);
        assert data[..][storedSize := Blank()] == before;
        UpdateHDBCallback(NO_FAILURE);
      }
    }

    lemma StoppedCursor(p: nat, n: nat, o: Outcome)
      requires Stopped(p, n, o)
      ensures if TurnsBack(n, o) then srcIdx == lastSrcIdx else Cursor(p + n)
    {
      hide Reading, Filled, Loaded, Loadable, SlotsOf;
    }

    lemma StoppedPage(p: nat, n: nat, o: Outcome)
      requires Stopped(p, n, o)
      ensures storedSize <= n && SlotsOf(Order()[p..p + n], db.size) && SlotsOf([], db.size) && Shape()
      ensures data[..storedSize]
           == Loaded(file[..], db.data[..], if TurnsBack(n, o) then [] else Order()[p..p + n])
    {
      hide Reading, Loadable, Blank;
      NothingLoaded(file[..], db.data[..]);
      var stored := |Loaded(file[..], db.data[..], Order()[p..p + n])|;
      assert data[..][stored := Blank()][..stored] == data[..stored];
    }

    lemma LoadingBounds(p: nat)
      requires Loading(p)
      ensures dstIdx < Min(p + data.Length, |Order()|) - p
    {
    }

    /** The chain of callbacks, for any outcomes of its loads. */
    method LoadHiddenDataAsync(ghost p: nat, outcomes: seq<Outcome>)
      requires Valid() && Loading(p) && dstIdx == 0 && AllPossible(outcomes) && !OutcomeAt(outcomes, 0).Refused?
      modifies this, data
      ensures lastSrcIdx == old(lastSrcIdx) && !working
      ensures var limit := Min(p + data.Length, |Order()|) - p;
              var n := Good(outcomes, 0, limit);
              && callbacks == old(callbacks) + (if n < limit && OutcomeAt(outcomes, n).Lost? then 0 else 1)
              && if n == limit then Complete(p) && dstIdx == n
                 else
                   var o := OutcomeAt(outcomes, n);
                   Stopped(p, n, o) && if TurnsBack(n, o) then srcIdx == lastSrcIdx else Cursor(p + n)
    {
      hide Reading, Filled, WellFormed, Stopped, Possible, AllPossible;
      ghost var n, limit := 0, Min(p + data.Length, |Order()|) - p;
      LoadingBounds(p);
      while working
        invariant lastSrcIdx == old(lastSrcIdx) && n <= limit
        invariant forall k :: 0 <= k < n ==> !Fails(OutcomeAt(outcomes, k))
        invariant working ==>
                    Loading(p) && dstIdx == n < limit && !OutcomeAt(outcomes, n).Refused? && callbacks == old(callbacks)
        invariant !working ==>
                    && callbacks == old(callbacks) + (if n < limit && OutcomeAt(outcomes, n).Lost? then 0 else 1)
                    && if n == limit then Complete(p) && dstIdx == n
                       else Fails(OutcomeAt(outcomes, n)) && Stopped(p, n, OutcomeAt(outcomes, n))
        decreases working, limit - n
      {
        var o := OutcomeAt(outcomes, dstIdx);
        if Fails(o) {
          PossibleAt(outcomes, n);
          LoadFailed(p, o);
        } else {
          n := n + 1;
          PossibleAt(outcomes, n);
          LoadSucceeded(p, OutcomeAt(outcomes, dstIdx + 1));
          if working {
            LoadingBounds(p);
          }
        }
      }
      GoodIs(outcomes, 0, n, limit);
      if n < limit {
        StoppedCursor(p, n, OutcomeAt(outcomes, n));
      }
    }

    // ---------- updates ----------

    lemma StepLinks(p: int)
      requires db.Valid() && Cursor(p)
      ensures At(Order(), p + 1)
           == if srcIdx < 0 then (if newer then db.tail else db.head) else Neighbour(db.data[..], srcIdx, newer)
      ensures At(Order(), p + 1) >= 0 <==> p + 1 < |Order()|
      ensures At(Order(), p + 1) < db.size
    {
      hide Reading, Neighbour, WellFormed, Distinct;
      ReadingLinks(db.data[..], db.order, db.head, db.tail, newer);
    }

    /** `stepOne_`: the first entry in reading order, or the one after the cursor; -1 behind the last. */
    method StepOne(ghost p: int) returns (src: int)
      requires Valid() && Cursor(p)
      ensures src == At(Order(), p + 1) && (src >= 0 <==> p + 1 < |Order()|) && src < db.size
    {
      StepLinks(p);
      if srcIdx < 0 {
        src := if newer then db.tail else db.head;
      } else {
        src := Neighbour(db.data[..], srcIdx, newer);
      }
    }

    /** `startUpdateDB_`. */
    method StartUpdate()
      modifies this`storedSize, this`dstIdx, this`lastSrcIdx, data
      ensures storedSize == dstIdx == 0 && lastSrcIdx == srcIdx
      ensures forall i :: 0 <= i < data.Length ==> data[i] == Blank()
    {
      storedSize := 0;
      forall i | 0 <= i < data.Length {
        data[i] := Blank();
      }
      dstIdx := 0;
      lastSrcIdx := srcIdx;
    }

    /** The records that a page takes its data from. */
    ghost function Source(cache: bool): seq<HiddenRecord>
      reads cachedDB, file
    {
      if cache then CacheView() else file[..]
    }

    /** Nothing has been loaded into the cleared buffer. */
    ghost predicate Cleared()
      reads this, data
    {
      storedSize == dstIdx == 0 && lastSrcIdx == srcIdx && forall i :: 0 <= i < data.Length ==> data[i] == Blank()
    }

    /** The first load of a page is started or refused. */
    method StartLoads(src: int, first: Outcome, ghost p: nat)
      requires Valid() && Cleared() && 0 < data.Length && p < |Order()| && src == At(Order(), p) && !working
      requires Possible(first)
      modifies this`srcIdx, this`loadDst, this`loadIndex, this`working, this`status, this`lastReason
      ensures if first.Refused? then Stopped(p, 0, first) && srcIdx == src else Loading(p)
    {
      hide Reading, Neighbour, WellFormed, Distinct, Loadable, SlotsOf, Loaded, Filled, Blank;
      ghost var before := data[..];
      srcIdx := src;
      CursorLinks(p);
      assert Order()[p..p] == [];
      FilledEmpty(before, file[..], db.data[..]);
      FilledParts(before, file[..], db.data[..], [], 0);
      FilledBehind(before, file[..], db.data[..], [], 0);
      var err := LoadAsync(dstIdx, srcIdx, first);
      if err != Busy {
        EndWorking(err);
      }
    }

    /** `updateHiddenOld_`: the loop over the cache, or the first load from the file. */
    method UpdateHiddenOld(loaded: bool, cache: bool, first: Outcome, ghost p: int)
      requires Valid() && Cursor(p) && !working && Cleared() && Possible(first)
      modifies this, data
      ensures lastSrcIdx == old(lastSrcIdx) || !working
      ensures callbacks == old(callbacks)
      ensures !loaded || data.Length == 0 ==>
                && Cursor(p) && !working && Cleared()
                && status == EndStatus(old(status), if loaded then NotAvailable else DBNodata)
      ensures loaded && data.Length > 0 ==>
                var e := Min(p + 1 + data.Length, |Order()|);
                if cache || p + 1 == |Order()| then
                  && !working && Cursor(Min(p + data.Length, |Order()| - 1))
                  && Filled(data[..], Source(cache), db.data[..], Order()[p + 1..e], storedSize)
                  && (p + 1 == |Order()| ==> storedSize == 0)
                  && status == EndStatus(old(status), if p + 1 == |Order()| then DBNodata else Success)
                else if first.Refused? then !working && Stopped(p + 1, 0, first) && Cursor(p + 1)
                else working && Loading(p + 1) && dstIdx == 0
    {
      hide Reading, Filled, WellFormed, Neighbour, Blank, CacheView, Loaded, Loadable, SlotsOf;
      if !loaded || data.Length <= 0 {
        EndWorking(if loaded then NotAvailable else DBNodata);
        return;
      }
      FilledEmpty(data[..], Source(cache), db.data[..]);
      assert Order()[p + 1..p + 1] == [];
      var src := StepOne(p);
      if src >= 0 {
        if cache {
          srcIdx := src;
          LoadHiddenDataSync(p + 1);
        } else {
          StartLoads(src, first, p + 1);
        }
      } else {
        EndWorking(DBNodata);
      }
    }

    /** `RFLiUpdateMiddleDBAsync`, run to its end, for any outcomes of its loads. The page takes up behind the
        cursor; at the end of the list it stays empty and reports no data. Without a database, or with an empty
        buffer, nothing is read. The first load that fails stops the page. */
    method Update(loaded: bool, cache: bool, outcomes: seq<Outcome>, ghost p: int)
      requires Valid() && Cursor(p) && !working && AllPossible(outcomes)
      modifies this, data
      ensures !working
      ensures !loaded || data.Length == 0 ==>
                && Cursor(p) && storedSize == 0 && (forall i :: 0 <= i < data.Length ==> data[i] == Blank())
                && status == EndStatus(old(status), if loaded then NotAvailable else DBNodata)
                && callbacks == old(callbacks) + 1
      ensures loaded && data.Length > 0 ==>
                var e := Min(p + 1 + data.Length, |Order()|);
                var n := if cache then e - (p + 1) else Good(outcomes, 0, e - (p + 1));
                if p + 1 + n == e then
                  && Cursor(Min(p + data.Length, |Order()| - 1)) && callbacks == old(callbacks) + 1
                  && Filled(data[..], Source(cache), db.data[..], Order()[p + 1..e], storedSize)
                  && (p + 1 == |Order()| ==> storedSize == 0)
                  && status == if p + 1 == |Order()| then EndStatus(old(status), DBNodata)
                               else if cache then EndStatus(old(status), Success)
                               else if storedSize < data.Length then DBNodata else Success
                else
                  var o := OutcomeAt(outcomes, n);
                  && Stopped(p + 1, n, o) && Cursor(if TurnsBack(n, o) then p else p + 1 + n)
                  && callbacks == old(callbacks) + (if o.Lost? then 0 else 1)
    {
      hide Filled, Loading, Blank, WellFormed, Reading, Possible, AllPossible, Stopped, EndsBusy;
      StartUpdate();
      PossibleAt(outcomes, 0);
      UpdateHiddenOld(loaded, cache, OutcomeAt(outcomes, 0), p);
      if working {
        LoadHiddenDataAsync(p + 1, outcomes);
      } else {
        callbacks := callbacks + 1;
      }
    }

    lemma OrderSlots()
      requires db.Valid()
      ensures SlotsOf(Order(), db.size)
      ensures forall e :: 0 <= e <= |Order()| ==> SlotsOf(Order()[..e], db.size)
    {
      hide Reading, Neighbour, WellFormed, Distinct;
      ReadingLinks(db.data[..], db.order, db.head, db.tail, newer);
    }

    lemma OrderSlice(a: nat, b: nat)
      requires db.Valid() && a <= b <= |Order()|
      ensures SlotsOf(Order()[a..b], db.size)
    {
      hide Reading, WellFormed;
      OrderSlots();
      assert forall i :: a <= i < b ==> Order()[a..b][i - a] == Order()[i];
    }

    /** One update when no command fails. */
    method NextPage(cache: bool, ghost e: nat)
      requires Valid() && 0 < data.Length && e <= |Order()| && Cursor(e - 1) && !working
      requires status == Success || status == DBNodata
      modifies this, data
      ensures var e' := Min(e + data.Length, |Order()|);
              && Cursor(e' - 1) && SlotsOf(Order()[e..e'], db.size) && storedSize <= data.Length
              && data[..storedSize] == Loaded(Source(cache), db.data[..], Order()[e..e'])
      ensures !working && (status == Success || status == DBNodata)
      ensures e == |Order()| ==> storedSize == 0 && status == DBNodata
    {
      hide Reading, Filled, WellFormed, Neighbour, Loaded, Distinct, SlotsOf, CacheView, Stopped;
      Update(true, cache, [], e - 1);
      FilledParts(data[..], Source(cache), db.data[..], Order()[e..Min(e + data.Length, |Order()|)], storedSize);
    }

    /** Page after page, by either reader, when no command fails: k updates deliver the first k pages of the list in
        reading order, each entry once; from the update after the last page on, the page is empty and no data is
        reported. */
    method PageThrough(k: nat, cache: bool) returns (records: seq<HiddenRecord>)
      requires Valid() && 0 < data.Length && Cursor(-1) && !working && status == Success
      modifies this, data
      ensures SlotsOf(Order(), db.size)
      ensures records == Loaded(Source(cache), db.data[..], Order()[..PageEnd(k, data.Length, |Order()|)])
      ensures Cursor(PageEnd(k, data.Length, |Order()|) - 1)
      ensures k > 0 && PageEnd(k - 1, data.Length, |Order()|) == |Order()| ==> storedSize == 0 && status == DBNodata
    {
      hide Reading, WellFormed, Loaded, Distinct, SlotsOf, CacheView;
      records := [];
      OrderSlots();
      var i := 0;
      ghost var o, e := Order(), 0;
      NothingLoaded(Source(cache), db.data[..]);
      while i < k
        invariant 0 <= i <= k && e == PageEnd(i, data.Length, |o|)
        invariant Cursor(e - 1) && !working && (status == Success || status == DBNodata)
        invariant i > 0 && PageEnd(i - 1, data.Length, |o|) == |o| ==> storedSize == 0 && status == DBNodata
        invariant SlotsOf(o[..e], db.size) && records == Loaded(Source(cache), db.data[..], o[..e])
      {
        NextPage(cache, e);
        ghost var e' := Min(e + data.Length, |o|);
        LoadedAppend(Source(cache), db.data[..], o[..e], o[e..e']);
        assert o[..e] + o[e..e'] == o[..e'];
        records := records + data[..storedSize];
        i := i + 1;
        e := e';
      }
    }

    /** One update from the file, for any outcomes of its loads: what it adds to the walk. */
    method FailingPage(outcomes: seq<Outcome>, ghost p: nat)
      requires Valid() && 0 < data.Length && p <= |Order()| && Cursor(p - 1) && !working && AllPossible(outcomes)
      modifies this, data
      ensures var w := Paged(Walk(p, [], []), outcomes, data.Length, Order());
              && Cursor(w.next - 1) && SlotsOf(w.shown, db.size) && storedSize <= data.Length && !working
              && data[..storedSize] == Loaded(file[..], db.data[..], w.shown)
    {
      hide Reading, Filled, WellFormed, Loaded, Distinct, SlotsOf, CacheView, AllPossible, Stopped, Good, Paged;
      hide TurnsBack;
      ghost var e := Min(p + data.Length, |Order()|);
      ghost var n := Good(outcomes, 0, e - p);
      PagedCases(p, outcomes, data.Length, Order());
      Update(true, false, outcomes, p - 1);
      if p + n == e {
        FilledParts(data[..], file[..], db.data[..], Order()[p..e], storedSize);
      } else {
        StoppedPage(p, n, OutcomeAt(outcomes, n));
      }
    }

    /** Page after page from the file, for any outcomes of the loads of each update: the pages hold the accepted
        records of the list up to the cursor, each once and in reading order, without the entries that were lost; an
        update loses at most one. */
    method PageThroughFailures(plan: seq<seq<Outcome>>) returns (records: seq<HiddenRecord>)
      requires Valid() && 0 < data.Length && Cursor(-1) && !working
      requires forall i :: 0 <= i < |plan| ==> AllPossible(plan[i])
      modifies this, data
      ensures var w := Walked(plan, data.Length, Order());
              && SlotsOf(w.shown, db.size) && records == Loaded(file[..], db.data[..], w.shown) && Cursor(w.next - 1)
              && w.shown == Without(Order()[..w.next], w.lost) && |w.lost| <= |plan|
    {
      hide Reading, WellFormed, Loaded, Distinct, CacheView, Walked, AllPossible, Paged, Cursor;
      hide Without, Neighbour;
      records := [];
      ReadingLinks(db.data[..], db.order, db.head, db.tail, newer);
      WalkCovers(plan, data.Length, Order());
      ghost var o, w := Order(), Walked([], data.Length, Order());
      WalkedNone(data.Length, o);
      NothingLoaded(file[..], db.data[..]);
      assert plan[..0] == [] && plan[..|plan|] == plan;
      var i := 0;
      while i < |plan|
        invariant i <= |plan| && w == Walked(plan[..i], data.Length, o) && w.next <= |o|
        invariant Cursor(w.next - 1) && !working
        invariant SlotsOf(w.shown, db.size) && records == Loaded(file[..], db.data[..], w.shown)
      {
        FailingPage(plan[i], w.next);
        LoadedAppend(file[..], db.data[..], w.shown, Paged(Walk(w.next, [], []), plan[i], data.Length, o).shown);
        PagedFrom(w, plan[i], data.Length, o);
        WalkedSnoc(plan, i, data.Length, o);
        records := records + data[..storedSize];
        w := Walked(plan[..i + 1], data.Length, o);
        i := i + 1;
      }
    }
  }
}
