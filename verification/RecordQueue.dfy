/** The hidden database as a caller sees it: a bounded queue of records, oldest first, with the sex under which
    the table lists each of them. */
module RecordQueue {
  import opened CreateIds
  import opened Faces
  import opened HiddenTable

  /** An entry: the sex in the table, and the record in the file. */
  datatype Entry = Entry(female: bool, record: HiddenRecord)

  function IsFemale(r: HiddenRecord): bool {
    SexOf(r) == 1
  }

  function IdsOf(records: seq<HiddenRecord>): (ids: seq<CreateID>)
    ensures |ids| == |records|
  {
    seq(|records|, i requires 0 <= i < |records| => records[i].createID)
  }

  function EntryIds(q: seq<Entry>): (ids: seq<CreateID>)
    ensures |ids| == |q|
  {
    seq(|q|, i requires 0 <= i < |q| => q[i].record.createID)
  }

  /** A record under a known identifier takes the place of the old one; the sex in the table stays. */
  function Rewritten(q: seq<Entry>, r: HiddenRecord): (q': seq<Entry>)
    ensures |q'| == |q|
  {
    seq(|q|, i requires 0 <= i < |q| => if q[i].record.createID == r.createID then q[i].(record := r) else q[i])
  }

  /** What a write does: a known entry is rewritten in place, a new one goes last, and a full queue drops its
      first. */
  function Put(capacity: nat, q: seq<Entry>, r: HiddenRecord): seq<Entry> {
    if r.createID in EntryIds(q) then Rewritten(q, r)
    else if |q| < capacity then q + [Entry(IsFemale(r), r)]
    else if q == [] then q
    else q[1..] + [Entry(IsFemale(r), r)]
  }

  function PutAll(capacity: nat, q: seq<Entry>, records: seq<HiddenRecord>): seq<Entry>
    decreases |records|
  {
    if records == [] then q
    else Put(capacity, PutAll(capacity, q, records[..|records| - 1]), records[|records| - 1])
  }

  lemma PutAllSnoc(capacity: nat, q: seq<Entry>, records: seq<HiddenRecord>, k: nat)
    requires k < |records|
    ensures PutAll(capacity, q, records[..k + 1]) == Put(capacity, PutAll(capacity, q, records[..k]), records[k])
  {
    hide Put;
    assert records[..k + 1][..k] == records[..k];
  }

  // ---------- the identifiers ----------

  lemma PutIds(capacity: nat, q: seq<Entry>, r: HiddenRecord)
    ensures EntryIds(Put(capacity, q, r)) == Push(capacity, EntryIds(q), r.createID)
  {
    hide IsFemale;
    var ids := EntryIds(q);
    if r.createID in ids {
      assert EntryIds(Rewritten(q, r)) == ids;
    } else if |q| < capacity {
      assert EntryIds(q + [Entry(IsFemale(r), r)]) == ids + [r.createID];
    } else if q != [] {
      assert EntryIds(q[1..] + [Entry(IsFemale(r), r)]) == ids[1..] + [r.createID];
    }
  }

  /** The identifiers of the queue are the queue of the identifiers. */
  lemma {:induction false} PutAllIds(capacity: nat, q: seq<Entry>, records: seq<HiddenRecord>)
    ensures EntryIds(PutAll(capacity, q, records)) == PushAll(capacity, EntryIds(q), IdsOf(records))
    decreases |records|
  {
    hide Put, EntryIds, Push;
    if records != [] {
      var n := |records| - 1;
      PutAllIds(capacity, q, records[..n]);
      PutIds(capacity, PutAll(capacity, q, records[..n]), records[n]);
      assert IdsOf(records) == IdsOf(records[..n]) + [records[n].createID];
      PushAllSnoc(capacity, EntryIds(q), IdsOf(records[..n]), records[n].createID);
    }
  }

  // ---------- the history of an entry ----------

  /** An entry lies where it is: its identifier is in the queue. */
  lemma EntryListed(q: seq<Entry>, j: nat)
    requires j < |q|
    ensures q[j].record.createID in EntryIds(q)
  {
    assert EntryIds(q)[j] == q[j].record.createID;
  }

  /** Where an entry of the queue after one more write was before it, or |q| for the written record itself. */
  lemma PutAt(capacity: nat, q: seq<Entry>, r: HiddenRecord, i: nat) returns (j: nat)
    requires i < |Put(capacity, q, r)|
    ensures j <= |q|
    ensures j < |q| && q[j].record.createID != r.createID ==> Put(capacity, q, r)[i] == q[j]
    ensures j < |q| && q[j].record.createID == r.createID ==> Put(capacity, q, r)[i] == Entry(q[j].female, r)
    ensures j == |q| ==> r.createID !in EntryIds(q) && Put(capacity, q, r)[i] == Entry(IsFemale(r), r)
  {
    hide IsFemale;
    if r.createID in EntryIds(q) || |q| < capacity {
      j := i;
    } else {
      j := i + 1;
    }
    if j < |q| {
      EntryListed(q, j);
    }
  }

  lemma NoRecords(capacity: nat, q: seq<Entry>)
    ensures PutAll(capacity, q, []) == q
  {
  }

  /** Every entry holds the last record written under its identifier, and is listed with the sex of the record
      with which the identifier last came in. -1 stands for a time before the run. */
  lemma {:induction false} History(capacity: nat, q: seq<Entry>, records: seq<HiddenRecord>, i: nat)
    returns (entered: int, last: int)
    requires i < |PutAll(capacity, q, records)|
    ensures var e := PutAll(capacity, q, records)[i]; var id := e.record.createID;
            && -1 <= entered <= last < |records|
            && (entered >= 0 ==> records[entered].createID == id && e.female == IsFemale(records[entered])
                                 && id !in EntryIds(PutAll(capacity, q, records[..entered])))
            && (entered == -1 ==> exists j :: 0 <= j < |q| && q[j].record.createID == id && q[j].female == e.female)
            && (forall k :: entered < k <= |records| ==> id in EntryIds(PutAll(capacity, q, records[..k])))
            && (last >= 0 ==> records[last] == e.record)
            && (last == -1 ==> e in q)
            && (forall k :: last < k < |records| ==> records[k].createID != id)
    decreases |records|
  {
    hide IsFemale, Put, EntryIds, PutAll;
    NoRecords(capacity, q);
    assert records[..|records|] == records;
    if records == [] {
      EntryListed(q, i);
      entered, last := -1, -1;
      assert q[i].record.createID == PutAll(capacity, q, records)[i].record.createID;
    } else {
      var n := |records| - 1;
      PutAllSnoc(capacity, q, records, n);
      var before, r := PutAll(capacity, q, records[..n]), records[n];
      EntryListed(PutAll(capacity, q, records), i);
      var j := PutAt(capacity, before, r, i);
      assert forall k :: 0 <= k <= n ==> records[..n][..k] == records[..k];
      if j == |before| {
        entered, last := n, n;
      } else {
        entered, last := History(capacity, q, records[..n], j);
        if before[j].record.createID == r.createID {
          last := n;
        }
      }
    }
  }

  // ---------- the sex in the table and the sex of the record ----------

  predicate Agrees(e: Entry) {
    e.female == IsFemale(e.record)
  }

  ghost predicate AllAgree(q: seq<Entry>) {
    forall i :: 0 <= i < |q| ==> Agrees(q[i])
  }

  /** The table is right about an entry exactly if the last record written under the identifier has the sex of
      the one with which it came in. */
  lemma AgreesExactly(capacity: nat, q: seq<Entry>, records: seq<HiddenRecord>, i: nat)
    returns (entered: int, last: int)
    requires i < |PutAll(capacity, q, records)|
    ensures var e := PutAll(capacity, q, records)[i];
            && -1 <= entered <= last < |records|
            && (last >= 0 ==> records[last] == e.record)
            && (forall k :: last < k < |records| ==> records[k].createID != e.record.createID)
            && (entered >= 0 ==> e.record.createID !in EntryIds(PutAll(capacity, q, records[..entered])))
            && (forall k :: entered < k <= |records| ==>
                  e.record.createID in EntryIds(PutAll(capacity, q, records[..k])))
            && (entered >= 0 ==> (Agrees(e) <==> IsFemale(records[entered]) == IsFemale(records[last])))
            && (last == -1 ==> e in q)
  {
    hide PutAll, IsFemale, EntryIds;
    entered, last := History(capacity, q, records, i);
  }

  /** One write keeps the table right exactly if it does not change the sex of a known entry. */
  lemma AgreementKept(capacity: nat, q: seq<Entry>, r: HiddenRecord)
    requires AllAgree(q)
    ensures AllAgree(Put(capacity, q, r)) <==>
            forall i :: 0 <= i < |q| && q[i].record.createID == r.createID ==> IsFemale(q[i].record) == IsFemale(r)
  {
    hide IsFemale;
    var q' := Put(capacity, q, r);
    if r.createID in EntryIds(q) {
      assert forall i :: 0 <= i < |q| ==>
          q'[i] == if q[i].record.createID == r.createID then q[i].(record := r) else q[i];
      if AllAgree(q') {
        forall i | 0 <= i < |q| && q[i].record.createID == r.createID
          ensures IsFemale(q[i].record) == IsFemale(r)
        {
          assert Agrees(q[i]) && Agrees(q'[i]);
        }
      }
    } else {
      forall i | 0 <= i < |q|
        ensures q[i].record.createID != r.createID
      {
        EntryListed(q, i);
      }
    }
  }

  /** No write of the run changes the sex of an entry that is known at that time. */
  ghost predicate Steady(capacity: nat, q: seq<Entry>, records: seq<HiddenRecord>)
    decreases |records|
  {
    records == [] ||
    var n := |records| - 1;
    var before := PutAll(capacity, q, records[..n]);
    && Steady(capacity, q, records[..n])
    && forall i :: 0 <= i < |before| && before[i].record.createID == records[n].createID ==>
         IsFemale(before[i].record) == IsFemale(records[n])
  }

  /** The table stays right throughout a run exactly if no write changes the sex of a known entry. */
  lemma {:induction false} AgreementThroughout(capacity: nat, q: seq<Entry>, records: seq<HiddenRecord>)
    requires AllAgree(q)
    ensures Steady(capacity, q, records) <==>
            forall k :: 0 <= k <= |records| ==> AllAgree(PutAll(capacity, q, records[..k]))
    decreases |records|
  {
    hide IsFemale, AllAgree, Put, PutAll;
    NoRecords(capacity, q);
    assert records[..|records|] == records;
    if records != [] {
      var n := |records| - 1;
      var before := PutAll(capacity, q, records[..n]);
      AgreementThroughout(capacity, q, records[..n]);
      assert forall k :: 0 <= k <= n ==> records[..n][..k] == records[..k];
      PutAllSnoc(capacity, q, records, n);
      if AllAgree(before) {
        AgreementKept(capacity, before, records[n]);
      }
    }
  }

  /** A record of the other sex under a known identifier leaves the table wrong about it. */
  lemma StaleSex(capacity: nat, a: HiddenRecord, b: HiddenRecord)
    requires capacity > 0 && a.createID == b.createID && IsFemale(a) != IsFemale(b)
    ensures PutAll(capacity, [], [a, b]) == [Entry(IsFemale(a), b)] && !AllAgree(PutAll(capacity, [], [a, b]))
  {
    hide IsFemale;
    assert [a, b][..1] == [a] && [a][..0] == [];
    assert PutAll(capacity, [], [a]) == Put(capacity, [], a) == [Entry(IsFemale(a), a)];
    EntryListed([Entry(IsFemale(a), a)], 0);
    assert PutAll(capacity, [], [a, b]) == Put(capacity, [Entry(IsFemale(a), a)], b);
    assert !Agrees(Entry(IsFemale(a), b)) && PutAll(capacity, [], [a, b])[0] == Entry(IsFemale(a), b);
  }

  // ---------- the queue in the table and the file ----------

  /** The entries of the linked slots. */
  function Held(t: seq<TableData>, file: seq<HiddenRecord>, order: seq<int>): (q: seq<Entry>)
    requires |file| == |t| && forall i :: 0 <= i < |order| ==> 0 <= order[i] < |t|
    ensures |q| == |order|
  {
    seq(|order|, i requires 0 <= i < |order| => Entry(t[order[i]].sex, file[order[i]]))
  }

  /** The file has the identifiers of the table. */
  ghost predicate Labelled(t: seq<TableData>, file: seq<HiddenRecord>, order: seq<int>) {
    && |file| == |t| && (forall i :: 0 <= i < |order| ==> 0 <= order[i] < |t|)
    && forall i :: 0 <= i < |order| ==> file[order[i]].createID == t[order[i]].createID
  }

  lemma HeldIds(t: seq<TableData>, file: seq<HiddenRecord>, order: seq<int>)
    requires Labelled(t, file, order)
    ensures EntryIds(Held(t, file, order)) == Ids(t, order)
  {
  }

  /** A write to a known slot rewrites its entry. */
  lemma PutKnown(capacity: nat, t: seq<TableData>, file: seq<HiddenRecord>, order: seq<int>, slot: int, r: HiddenRecord)
    requires Labelled(t, file, order) && Distinct(Ids(t, order)) && Distinct(order)
    requires r.createID in Ids(t, order) && 0 <= slot < |t| && t[slot].createID == r.createID && slot in order
    ensures Held(t, file[slot := r], order) == Put(capacity, Held(t, file, order), r)
  {
    hide IsFemale;
    HeldIds(t, file, order);
    var p :| 0 <= p < |order| && order[p] == slot;
    forall i | 0 <= i < |order|
      ensures Held(t, file[slot := r], order)[i] == Rewritten(Held(t, file, order), r)[i]
    {
      assert Ids(t, order)[i] == t[order[i]].createID && Ids(t, order)[p] == r.createID;
      if i != p {
        assert order[i] != slot && Ids(t, order)[i] != Ids(t, order)[p];
      }
    }
  }

  /** A write to a new slot behind the list appends an entry. */
  lemma PutAppended(capacity: nat, t: seq<TableData>, t': seq<TableData>, file: seq<HiddenRecord>, order: seq<int>,
                    slot: int, r: HiddenRecord)
    requires Labelled(t, file, order) && |order| < capacity && slot !in order && OthersStay(t, t', slot)
    requires r.createID !in Ids(t, order) && 0 <= slot < |t| && t'[slot].sex == IsFemale(r)
    ensures Held(t', file[slot := r], order + [slot]) == Put(capacity, Held(t, file, order), r)
  {
    hide IsFemale;
    HeldIds(t, file, order);
    assert forall i :: 0 <= i < |order| ==> order[i] in order;
  }

  /** A write to the recycled slot drops the first entry and appends one. */
  lemma PutRecycled(capacity: nat, t: seq<TableData>, t': seq<TableData>, file: seq<HiddenRecord>, order: seq<int>,
                    r: HiddenRecord)
    requires Labelled(t, file, order) && |order| == capacity > 0 && Distinct(order) && OthersStay(t, t', order[0])
    requires r.createID !in Ids(t, order) && t'[order[0]].sex == IsFemale(r)
    ensures Held(t', file[order[0] := r], order[1..] + [order[0]]) == Put(capacity, Held(t, file, order), r)
  {
    hide IsFemale;
    HeldIds(t, file, order);
    var order', q := order[1..] + [order[0]], Held(t, file, order);
    var q' := Held(t', file[order[0] := r], order');
    forall i | 0 <= i < |order|
      ensures q'[i] == (q[1..] + [Entry(IsFemale(r), r)])[i]
    {
      if i < |order| - 1 {
        assert order'[i] == order[i + 1] != order[0];
      }
    }
  }
}
