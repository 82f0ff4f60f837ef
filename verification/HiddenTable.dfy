/** The table of the hidden database, src/RVLFaceLib/RFL_HiddenDatabase.c: slots threaded into a
    doubly linked list by index. The table refines a bounded first-in first-out queue of
    identifiers. */
module HiddenTable {
  import opened Powers
  import opened CreateIds

  /** `RFLiTableData`. */
  datatype TableData = TableData(createID: CreateID, sex: bool, next: int, prev: int)

  const CLEARED := TableData(NO_ID, false, -1, -1)

  // ---------- the list in the table ----------

  function At(order: seq<int>, i: int): int {
    if 0 <= i < |order| then order[i] else -1
  }

  ghost predicate Distinct<T>(s: seq<T>) {
    forall i, j :: 0 <= i < j < |s| ==> s[i] != s[j]
  }

  /** The links visit exactly the slots of `order`, forwards and backwards. */
  ghost predicate Linked(t: seq<TableData>, order: seq<int>, head: int, tail: int) {
    && (forall i :: 0 <= i < |order| ==> 0 <= order[i] < |t|)
    && Distinct(order)
    && head == At(order, 0) && tail == At(order, |order| - 1)
    && (forall i :: 0 <= i < |order| ==> t[order[i]].next == At(order, i + 1))
    && (forall i :: 0 <= i < |order| ==> t[order[i]].prev == At(order, i - 1))
  }

  /** The linked slots are the ones that hold an identifier, and identifiers are permanent. */
  ghost predicate Occupied(t: seq<TableData>, order: seq<int>) {
    && (forall s :: 0 <= s < |t| ==> (s in order <==> IsValidID(t[s].createID)))
    && (forall s :: s in order && 0 <= s < |t| ==> IsPermanentID(t[s].createID))
  }

  /** The identifiers of the listed slots, oldest first. */
  function Ids(t: seq<TableData>, order: seq<int>): (ids: seq<CreateID>)
    requires forall i :: 0 <= i < |order| ==> 0 <= order[i] < |t|
    ensures |ids| == |order|
  {
    seq(|order|, i requires 0 <= i < |order| => t[order[i]].createID)
  }

  ghost predicate WellFormed(t: seq<TableData>, order: seq<int>, head: int, tail: int) {
    Linked(t, order, head, tail) && Occupied(t, order) && Distinct(Ids(t, order))
  }

  /** No identifier moves to another slot except at `slot`. */
  ghost predicate OthersStay(t: seq<TableData>, t': seq<TableData>, slot: int) {
    |t'| == |t| && forall s :: 0 <= s < |t| && s != slot ==> t'[s].createID == t[s].createID && t'[s].sex == t[s].sex
  }

  // ---------- the bounded queue ----------

  /** What a write does to the identifiers: a known one stays, a new one goes last, and a full queue
      drops its first. */
  function Push(capacity: nat, ids: seq<CreateID>, id: CreateID): seq<CreateID> {
    if id in ids then ids
    else if |ids| < capacity then ids + [id]
    else if ids == [] then ids
    else ids[1..] + [id]
  }

  function PushAll(capacity: nat, ids: seq<CreateID>, added: seq<CreateID>): seq<CreateID>
    decreases |added|
  {
    if added == [] then ids else PushAll(capacity, Push(capacity, ids, added[0]), added[1..])
  }

  lemma {:induction false} PushAllSnoc(capacity: nat, ids: seq<CreateID>, added: seq<CreateID>, id: CreateID)
    ensures PushAll(capacity, ids, added + [id]) == Push(capacity, PushAll(capacity, ids, added), id)
    decreases |added|
  {
    if added == [] {
      assert (added + [id])[1..] == [];
    } else {
      assert (added + [id])[1..] == added[1..] + [id];
      PushAllSnoc(capacity, Push(capacity, ids, added[0]), added[1..], id);
    }
  }

  lemma PushDistinct(ids: seq<CreateID>, id: CreateID)
    requires Distinct(ids) && id !in ids
    ensures Distinct(ids + [id]) && (ids != [] ==> Distinct(ids[1..] + [id]))
  {
  }

  /** Every run keeps the queue within its capacity and free of duplicates. */
  lemma {:induction false} PushAllBounded(capacity: nat, ids: seq<CreateID>, added: seq<CreateID>)
    requires Distinct(ids) && |ids| <= capacity
    ensures Distinct(PushAll(capacity, ids, added)) && |ids| <= |PushAll(capacity, ids, added)| <= capacity
    decreases |added|
  {
    if added != [] {
      if added[0] !in ids {
        PushDistinct(ids, added[0]);
      }
      PushAllBounded(capacity, Push(capacity, ids, added[0]), added[1..]);
    }
  }

  /** An entry at position p survives as many writes as there are places before it and free ones. */
  lemma {:induction false} Survives(capacity: nat, ids: seq<CreateID>, added: seq<CreateID>, p: nat)
    requires p < |ids| <= capacity && |added| <= p + capacity - |ids|
    ensures ids[p] in PushAll(capacity, ids, added)
    decreases |added|
  {
    if added != [] {
      var next := Push(capacity, ids, added[0]);
      if added[0] in ids {
        Survives(capacity, next, added[1..], p);
      } else if |ids| < capacity {
        assert next[p] == ids[p];
        Survives(capacity, next, added[1..], p);
      } else {
        assert next[p - 1] == ids[p];
        Survives(capacity, next, added[1..], p - 1);
      }
    }
  }

  /** A new identifier stays for at least the capacity less one further writes. */
  lemma NewEntrySurvives(capacity: nat, ids: seq<CreateID>, id: CreateID, added: seq<CreateID>)
    requires id !in ids && |ids| <= capacity && 0 < capacity && |added| < capacity
    ensures id in PushAll(capacity, Push(capacity, ids, id), added)
  {
    var next := Push(capacity, ids, id);
    Survives(capacity, next, added, |next| - 1);
  }

  lemma FreshPush(capacity: nat, ids: seq<CreateID>, added: seq<CreateID>)
    requires 0 < |ids| <= capacity && |added| > 0 && Distinct(ids + added)
    ensures added[0] !in ids && Distinct(Push(capacity, ids, added[0]) + added[1..])
    ensures |ids| == capacity ==> ids[0] !in Push(capacity, ids, added[0]) && ids[0] !in added[1..]
    ensures |Push(capacity, ids, added[0])| <= capacity
  {
    var all := ids + added;
    assert forall i :: 0 <= i < |added| ==> all[|ids| + i] == added[i];
    assert forall i :: 0 <= i < |ids| ==> all[i] == ids[i];
    assert added[0] == all[|ids|];
    var next := Push(capacity, ids, added[0]) + added[1..];
    if |ids| < capacity {
      assert next == all;
    } else {
      assert next == all[1..];
    }
  }

  lemma {:induction false} StaysOut(capacity: nat, ids: seq<CreateID>, added: seq<CreateID>, id: CreateID)
    requires id !in ids && id !in added
    ensures id !in PushAll(capacity, ids, added)
    decreases |added|
  {
    if added != [] {
      StaysOut(capacity, Push(capacity, ids, added[0]), added[1..], id);
    }
  }

  /** Under a stream of new identifiers the bound is exact: the entry at position p goes out with the
      first write past it. */
  lemma {:induction false} SurvivesExactly(capacity: nat, ids: seq<CreateID>, added: seq<CreateID>, p: nat)
    requires p < |ids| <= capacity && Distinct(ids + added)
    ensures ids[p] in PushAll(capacity, ids, added) <==> |added| <= p + capacity - |ids|
    decreases |added|
  {
    if |added| <= p + capacity - |ids| {
      Survives(capacity, ids, added, p);
    } else {
      var next := Push(capacity, ids, added[0]);
      FreshPush(capacity, ids, added);
      if |ids| < capacity {
        assert next[p] == ids[p];
        SurvivesExactly(capacity, next, added[1..], p);
      } else if p > 0 {
        assert next[p - 1] == ids[p];
        SurvivesExactly(capacity, next, added[1..], p - 1);
      } else {
        StaysOut(capacity, next, added[1..], ids[0]);
      }
    }
  }

  /** The identifier is held before, between and after all writes of the run. */
  predicate Stays(capacity: nat, ids: seq<CreateID>, added: seq<CreateID>, id: CreateID)
    decreases |added|
  {
    id in ids && (added == [] || Stays(capacity, Push(capacity, ids, added[0]), added[1..], id))
  }

  /** The writes of the run that find their identifier unknown. */
  function Entering(capacity: nat, ids: seq<CreateID>, added: seq<CreateID>): nat
    decreases |added|
  {
    if added == [] then 0
    else (if added[0] in ids then 0 else 1) + Entering(capacity, Push(capacity, ids, added[0]), added[1..])
  }

  /** For any stream of writes, repeats included: the entry at position p stays exactly as long as no more
      identifiers come in than there are places before it and free ones. Rewriting known ones costs nothing. */
  lemma {:induction false} StaysExactly(capacity: nat, ids: seq<CreateID>, added: seq<CreateID>, p: nat)
    requires p < |ids| <= capacity && Distinct(ids)
    ensures Stays(capacity, ids, added, ids[p]) <==> Entering(capacity, ids, added) <= p + capacity - |ids|
    decreases |added|
  {
    if added != [] {
      var next := Push(capacity, ids, added[0]);
      if added[0] in ids {
        StaysExactly(capacity, next, added[1..], p);
      } else {
        PushDistinct(ids, added[0]);
        if |ids| < capacity {
          assert next[p] == ids[p];
          StaysExactly(capacity, next, added[1..], p);
        } else if p > 0 {
          assert next[p - 1] == ids[p];
          StaysExactly(capacity, next, added[1..], p - 1);
        } else {
          assert ids[0] !in ids[1..];
        }
      }
    }
  }

  /** Rewriting the oldest entry of a full queue does not renew it: the next new identifier drops it. */
  lemma RewriteDoesNotRenew(capacity: nat, ids: seq<CreateID>, c: CreateID)
    requires Distinct(ids) && |ids| == capacity > 0 && c !in ids
    ensures ids[0] !in PushAll(capacity, ids, [ids[0], c])
  {
    assert [ids[0], c][1..] == [c] && [c][1..] == [];
    assert Push(capacity, ids, ids[0]) == ids && Push(capacity, ids, c) == ids[1..] + [c];
    assert PushAll(capacity, ids, [ids[0], c]) == PushAll(capacity, ids, [c]) == PushAll(capacity, ids[1..] + [c], []);
    assert ids[0] !in ids[1..];
  }

  // ---------- pigeonholes ----------

  function Below(n: nat): (s: set<int>)
    ensures forall x :: x in s <==> 0 <= x < n
    ensures |s| == n
  {
    if n == 0 then {} else Below(n - 1) + {n - 1}
  }

  function Elements(order: seq<int>): (s: set<int>)
    ensures forall x :: x in s <==> x in order
    ensures |s| <= |order|
  {
    if order == [] then {} else Elements(order[1..]) + {order[0]}
  }

  lemma {:induction false} DistinctElements(order: seq<int>)
    requires Distinct(order)
    ensures |Elements(order)| == |order|
  {
    if order == [] {
    } else {
      DistinctElements(order[1..]);
      assert order[0] !in order[1..];
    }
  }

  lemma Subset(a: set<int>, b: set<int>)
    requires a <= b
    ensures |a| <= |b|
    ensures |a| == |b| ==> a == b
  {
    assert b == a + (b - a);
  }

  /** A list of distinct slots covers the table exactly when it is as long as the table. */
  lemma Pigeonhole(order: seq<int>, n: nat)
    requires Distinct(order) && forall s :: s in order ==> 0 <= s < n
    ensures |order| <= n
    ensures |order| == n <==> forall s :: 0 <= s < n ==> s in order
  {
    DistinctElements(order);
    hide Distinct;
    Subset(Elements(order), Below(n));
    if forall s :: 0 <= s < n ==> s in order {
      Subset(Below(n), Elements(order));
    }
  }

  // ---------- which slot a new identifier takes ----------

  /** The slot of a new entry: the first one that is not linked, or the oldest of a full list. */
  ghost predicate TakesSlot(order: seq<int>, size: nat, slot: int) {
    if |order| < size then 0 <= slot && slot !in order && forall s :: 0 <= s < slot ==> s in order
    else order != [] && slot == order[0]
  }

  /** The list after k new identifiers have taken the slots in turn, beginning with slot 0. */
  ghost predicate InTurn(order: seq<int>, size: nat, k: nat) {
    && size > 0 && |order| == (if k < size then k else size)
    && forall i :: 0 <= i < |order| ==> order[i] == (k - |order| + i) % size
  }

  lemma SlotsRepeat(k: nat, size: nat)
    requires 0 < size <= k
    ensures (k - size) % size == k % size
  {
    var q := k / size;
    Distribute(q - 1, 1, size);
    DivUnique(k - size, size, q - 1, k % size);
  }

  lemma SmallRemainder(i: nat, size: nat)
    requires i < size
    ensures i % size == i
  {
    DivUnique(i, size, 0, i);
  }

  lemma NextFresh(order: seq<int>, size: nat, k: nat, slot: int)
    requires InTurn(order, size, k) && TakesSlot(order, size, slot) && k < size
    ensures slot == k == k % size && InTurn(order + [slot], size, k + 1)
  {
    forall i | 0 <= i <= k
      ensures i % size == i
    {
      SmallRemainder(i, size);
    }
    assert forall i :: 0 <= i < k ==> order[i] == i;
    forall i | 0 <= i < k
      ensures i in order
    {
      assert order[i] == i;
    }
    assert k !in order && slot !in order;
    assert forall i :: 0 <= i <= k ==> (order + [slot])[i] == i;
  }

  lemma NextRecycled(order: seq<int>, size: nat, k: nat, slot: int)
    requires InTurn(order, size, k) && TakesSlot(order, size, slot) && k >= size
    ensures slot == k % size && InTurn(order[1..] + [slot], size, k + 1)
  {
    SlotsRepeat(k, size);
    var order' := order[1..] + [slot];
    forall i | 0 <= i < size
      ensures order'[i] == (k + 1 - size + i) % size
    {
      if i < size - 1 {
        assert order'[i] == order[i + 1] == (k - size + (i + 1)) % size;
      }
    }
  }

  /** The next new identifier takes the next slot, modulo the size of the table. */
  lemma NextInTurn(order: seq<int>, size: nat, k: nat, slot: int)
    requires InTurn(order, size, k) && TakesSlot(order, size, slot)
    ensures slot == k % size
    ensures InTurn(if |order| < size then order + [slot] else order[1..] + [slot], size, k + 1)
  {
    hide TakesSlot;
    if k < size {
      NextFresh(order, size, k, slot);
    } else {
      NextRecycled(order, size, k, slot);
    }
  }

  /** From one list to the other, n new identifiers have taken their slots in turn, wherever it began. */
  ghost predicate Turns(order: seq<int>, order': seq<int>, size: nat, n: nat) {
    forall k: nat :: InTurn(order, size, k) ==> InTurn(order', size, k + n)
  }

  lemma WriteTurns(order: seq<int>, order': seq<int>, size: nat, slot: int, known: bool)
    requires known ==> order' == order
    requires !known ==> TakesSlot(order, size, slot)
    requires !known ==> order' == if |order| < size then order + [slot] else order[1..] + [slot]
    ensures Turns(order, order', size, if known then 0 else 1)
  {
    hide InTurn, TakesSlot;
    forall k: nat | InTurn(order, size, k)
      ensures InTurn(order', size, k + (if known then 0 else 1))
    {
      if !known {
        NextInTurn(order, size, k, slot);
      }
    }
  }

  lemma TurnsOn(order: seq<int>, order': seq<int>, order'': seq<int>, size: nat, n: nat, m: nat)
    requires Turns(order, order', size, n) && Turns(order', order'', size, m)
    ensures Turns(order, order'', size, n + m)
  {
    hide InTurn;
    forall k: nat | InTurn(order, size, k)
      ensures InTurn(order'', size, k + (n + m))
    {
      assert InTurn(order'', size, (k + n) + m);
    }
  }

  lemma {:induction false} EnteringSnoc(capacity: nat, ids: seq<CreateID>, added: seq<CreateID>, id: CreateID)
    ensures Entering(capacity, ids, added + [id])
         == Entering(capacity, ids, added) + (if id in PushAll(capacity, ids, added) then 0 else 1)
    decreases |added|
  {
    hide Push;
    if added == [] {
      assert (added + [id])[1..] == [];
    } else {
      assert (added + [id])[1..] == added[1..] + [id];
      EnteringSnoc(capacity, Push(capacity, ids, added[0]), added[1..], id);
    }
  }

  // ---------- the two ways a new identifier enters ----------

  /** The table after `create_` has put a new entry behind the tail. */
  ghost predicate Appended(t: seq<TableData>, t': seq<TableData>, slot: int, tail: int, id: CreateID, sex: bool) {
    && OthersStay(t, t', slot) && 0 <= slot < |t|
    && t'[slot] == TableData(id, sex, -1, tail)
    && forall s :: 0 <= s < |t| && s != slot ==>
         t'[s].next == (if s == tail then slot else t[s].next) && t'[s].prev == t[s].prev
  }

  lemma AppendLinked(t: seq<TableData>, t': seq<TableData>, order: seq<int>, head: int, tail: int,
                     slot: int, id: CreateID, sex: bool)
    requires Linked(t, order, head, tail) && slot !in order && Appended(t, t', slot, tail, id, sex)
    ensures Linked(t', order + [slot], if order == [] then slot else head, slot)
  {
    var order', n := order + [slot], |order|;
    forall i | 0 <= i < n + 1
      ensures t'[order'[i]].next == At(order', i + 1) && t'[order'[i]].prev == At(order', i - 1)
    {
      if i < n - 1 {
        assert order[i] != order[n - 1];
      }
    }
  }

  lemma PermanentIsValid(id: CreateID)
    requires IsPermanentID(id)
    ensures IsValidID(id)
  {
  }

  lemma AppendOccupied(t: seq<TableData>, t': seq<TableData>, order: seq<int>, slot: int, tail: int, id: CreateID,
                       sex: bool)
    requires Occupied(t, order) && Distinct(order) && (forall i :: 0 <= i < |order| ==> 0 <= order[i] < |t|)
    requires Appended(t, t', slot, tail, id, sex) && slot !in order && IsPermanentID(id)
    ensures Occupied(t', order + [slot])
    ensures Ids(t', order + [slot]) == Ids(t, order) + [id]
  {
    hide IsPermanentID, IsValidID;
    PermanentIsValid(id);
    var order' := order + [slot];
    forall s | 0 <= s < |t'|
      ensures s in order' <==> IsValidID(t'[s].createID)
      ensures s in order' ==> IsPermanentID(t'[s].createID)
    {
      assert s in order' <==> s in order || s == slot;
    }
  }

  lemma AppendParts(t: seq<TableData>, order: seq<int>, head: int, tail: int)
    requires Linked(t, order, head, tail)
    ensures Distinct(order) && forall i :: 0 <= i < |order| ==> 0 <= order[i] < |t|
    ensures order == [] ==> head == tail == -1
    ensures order != [] ==> head == order[0] && tail == order[|order| - 1] && tail >= 0
    ensures |order| >= 2 ==> order[0] != order[1] && t[order[0]].next == order[1] && order[0] != tail
  {
  }

  lemma AppendWellFormed(t: seq<TableData>, t': seq<TableData>, order: seq<int>, head: int, tail: int,
                         slot: int, id: CreateID, sex: bool)
    requires WellFormed(t, order, head, tail) && 0 <= slot < |t| && !IsValidID(t[slot].createID)
    requires id !in Ids(t, order) && IsPermanentID(id) && Appended(t, t', slot, tail, id, sex)
    ensures WellFormed(t', order + [slot], if order == [] then slot else head, slot)
    ensures Ids(t', order + [slot]) == Ids(t, order) + [id]
  {
    assert slot !in order;
    PushDistinct(Ids(t, order), id);
    hide Linked, Occupied, Appended, IsValidID, IsPermanentID, Ids;
    AppendParts(t, order, head, tail);
    AppendLinked(t, t', order, head, tail, slot, id, sex);
    AppendOccupied(t, t', order, slot, tail, id, sex);
  }

  /** The table after `overwrite_` has moved the head slot behind the tail and refilled it. */
  ghost predicate Recycled(t: seq<TableData>, t': seq<TableData>, slot: int, next: int, tail: int, id: CreateID,
                           sex: bool) {
    && OthersStay(t, t', slot) && 0 <= slot < |t|
    && t'[slot] == TableData(id, sex, -1, tail)
    && forall s :: 0 <= s < |t| && s != slot ==>
         && t'[s].next == (if s == tail then slot else t[s].next)
         && t'[s].prev == (if s == next then -1 else t[s].prev)
  }

  lemma Rotated(order: seq<int>)
    requires |order| >= 2 && Distinct(order)
    ensures var r := order[1..] + [order[0]];
            |r| == |order| && Distinct(r) && forall i :: 0 <= i < |order| - 1 ==> r[i] == order[i + 1] != order[0]
  {
  }

  lemma LinkParts(t: seq<TableData>, order: seq<int>, head: int, tail: int, k: nat)
    requires Linked(t, order, head, tail) && 0 < k < |order|
    ensures 0 <= order[k] < |t| && order[k] != order[0]
    ensures t[order[k]].next == At(order, k + 1) && t[order[k]].prev == At(order, k - 1)
    ensures order[k] == tail <==> k == |order| - 1
    ensures order[k] == order[1] <==> k == 1
  {
    if k < |order| - 1 {
      assert order[k] != order[|order| - 1];
    }
    if k > 1 {
      assert order[1] != order[k];
    }
  }

  lemma RotatedAt(order: seq<int>, i: nat)
    requires i + 1 < |order|
    ensures var r := order[1..] + [order[0]];
            && At(r, i + 1) == (if i + 2 < |order| then At(order, i + 2) else order[0])
            && At(r, i - 1) == if i > 0 then At(order, i) else -1
  {
  }

  /** The links of one entry that stays, in the rotated order. */
  lemma RecycleLink(t: seq<TableData>, t': seq<TableData>, order: seq<int>, head: int, tail: int, id: CreateID,
                    sex: bool, i: nat)
    requires Linked(t, order, head, tail) && i + 1 < |order|
    requires Recycled(t, t', order[0], order[1], tail, id, sex)
    ensures var s, r := order[i + 1], order[1..] + [order[0]];
            0 <= s < |t| == |t'| && t'[s].next == At(r, i + 1) && t'[s].prev == At(r, i - 1)
  {
    RotatedAt(order, i);
    LinkParts(t, order, head, tail, i + 1);
    hide Linked, Distinct, At;
  }

  lemma RecycleLinked(t: seq<TableData>, t': seq<TableData>, order: seq<int>, head: int, tail: int, id: CreateID,
                      sex: bool)
    requires Linked(t, order, head, tail) && |order| >= 2
    requires Recycled(t, t', order[0], order[1], tail, id, sex)
    ensures Linked(t', order[1..] + [order[0]], order[1], order[0])
  {
    var order', n := order[1..] + [order[0]], |order|;
    Rotated(order);
    forall i | 0 <= i < n
      ensures t'[order'[i]].next == At(order', i + 1) && t'[order'[i]].prev == At(order', i - 1)
    {
      if i < n - 1 {
        RecycleLink(t, t', order, head, tail, id, sex, i);
      }
    }
  }

  lemma RecycleOccupied(t: seq<TableData>, t': seq<TableData>, order: seq<int>, next: int, tail: int, id: CreateID,
                        sex: bool)
    requires Occupied(t, order) && Distinct(order) && (forall i :: 0 <= i < |order| ==> 0 <= order[i] < |t|)
    requires |order| >= 1 && Recycled(t, t', order[0], next, tail, id, sex) && IsPermanentID(id)
    ensures Occupied(t', order[1..] + [order[0]])
    ensures Ids(t', order[1..] + [order[0]]) == Ids(t, order)[1..] + [id]
  {
    hide IsPermanentID, IsValidID;
    PermanentIsValid(id);
    var order' := order[1..] + [order[0]];
    assert order == [order[0]] + order[1..];
    forall s | 0 <= s < |t'|
      ensures s in order' <==> IsValidID(t'[s].createID)
      ensures s in order' ==> IsPermanentID(t'[s].createID)
    {
      assert s in order' <==> s in order;
    }
    forall i | 0 <= i < |order'|
      ensures Ids(t', order')[i] == (Ids(t, order)[1..] + [id])[i]
    {
      if i < |order| - 1 {
        assert order'[i] == order[i + 1] != order[0];
      }
    }
  }

  lemma RecycleWellFormed(t: seq<TableData>, t': seq<TableData>, order: seq<int>, head: int, tail: int, id: CreateID,
                          sex: bool)
    requires WellFormed(t, order, head, tail) && |order| >= 2
    requires id !in Ids(t, order) && IsPermanentID(id) && Recycled(t, t', order[0], order[1], tail, id, sex)
    ensures WellFormed(t', order[1..] + [order[0]], order[1], order[0])
    ensures Ids(t', order[1..] + [order[0]]) == Ids(t, order)[1..] + [id]
  {
    PushDistinct(Ids(t, order), id);
    hide Linked, Occupied, Recycled, IsValidID, IsPermanentID, Ids;
    AppendParts(t, order, head, tail);
    RecycleLinked(t, t', order, head, tail, id, sex);
    RecycleOccupied(t, t', order, order[1], tail, id, sex);
  }

  /** The identifiers in the table are exactly the listed ones. */
  lemma IdsInTable(t: seq<TableData>, order: seq<int>, id: CreateID)
    requires Occupied(t, order) && (forall i :: 0 <= i < |order| ==> 0 <= order[i] < |t|) && IsPermanentID(id)
    ensures id in Ids(t, order) <==> exists s :: 0 <= s < |t| && t[s].createID == id
  {
    hide IsPermanentID;
    PermanentIsValid(id);
    if id in Ids(t, order) {
      var i :| 0 <= i < |order| && Ids(t, order)[i] == id;
      assert t[order[i]].createID == id;
    }
    if s :| 0 <= s < |t| && t[s].createID == id {
      var i :| 0 <= i < |order| && order[i] == s;
      assert Ids(t, order)[i] == id;
    }
  }

  lemma ShowAppended(t: seq<TableData>, t': seq<TableData>, slot: int, tail: int, id: CreateID, sex: bool)
    requires 0 <= slot < |t| && -1 <= tail < |t| && tail != slot
    requires var u := t[slot := TableData(id, sex, -1, tail)];
             t' == if tail >= 0 then u[tail := t[tail].(next := slot)] else u
    ensures Appended(t, t', slot, tail, id, sex)
  {
  }

  lemma ShowRecycled(t: seq<TableData>, t': seq<TableData>, slot: int, next: int, tail: int, id: CreateID, sex: bool)
    requires 0 <= slot < |t| && 0 <= tail < |t| && 0 <= next < |t| && slot != next && slot != tail
    requires var u := t[next := t[next].(prev := -1)];
             t' == u[tail := u[tail].(next := slot)][slot := TableData(id, sex, -1, tail)]
    ensures Recycled(t, t', slot, next, tail, id, sex)
  {
  }

  lemma EmptyHead(t: seq<TableData>, order: seq<int>, head: int, tail: int)
    requires Linked(t, order, head, tail)
    ensures order == [] <==> head < 0 || head >= |t|
  {
  }

  lemma RecycledParts(t: seq<TableData>, t': seq<TableData>, slot: int, next: int, tail: int, id: CreateID, sex: bool)
    requires Recycled(t, t', slot, next, tail, id, sex)
    ensures OthersStay(t, t', slot) && 0 <= slot < |t| == |t'| && t'[slot].createID == id && t'[slot].sex == sex
  {
  }

  // ---------- the table as the source updates it ----------

  /** `RFLiHiddenDB`: head, tail and the slots. `size` stands for the 10000 slots of the source; the
      15-bit links bound it by 0x4000, and `overwrite_` needs a second slot to become the head. */
  class HiddenDB {
    const size: nat
    const data: array<TableData>
    var head: int
    var tail: int
    ghost var order: seq<int>

    ghost predicate Valid()
      reads this, data
    {
      2 <= size <= 0x4000 && data.Length == size && WellFormed(data[..], order, head, tail)
    }

    /** The identifiers held, oldest first. */
    ghost function Contents(): seq<CreateID>
      reads this, data
      requires Valid()
    {
      Ids(data[..], order)
    }

    constructor (n: nat)
      requires 2 <= n <= 0x4000
      ensures Valid() && fresh(data) && size == n && Contents() == []
    {
      size := n;
      data := new TableData[n](_ => CLEARED);
      head, tail, order := -1, -1, [];
    }

    /** `RFLiClearDBBuffer`: the format empties the list. */
    method ClearDBBuffer()
      requires 2 <= size <= 0x4000 && data.Length == size
      modifies this, data
      ensures Valid() && Contents() == []
    {
      head, tail, order := -1, -1, [];
      var i := 0;
      while i < size
        invariant 0 <= i <= size && head == tail == -1 && order == []
        invariant forall s :: 0 <= s < i ==> data[s] == CLEARED
      {
        data[i] := CLEARED;
        i := i + 1;
      }
    }

    // Assignments to the fields of one slot.

    /** `RFLiClearTableData`. */
    method ClearTableData(i: int)
      requires 0 <= i < data.Length
      modifies data
      ensures data[..] == old(data[..])[i := CLEARED]
    {
      data[i] := CLEARED;
    }

    method SetNext(i: int, next: int)
      requires 0 <= i < data.Length
      modifies data
      ensures data[..] == old(data[..])[i := old(data[i]).(next := next)]
    {
      data[i] := data[i].(next := next);
    }

    method SetPrev(i: int, prev: int)
      requires 0 <= i < data.Length
      modifies data
      ensures data[..] == old(data[..])[i := old(data[i]).(prev := prev)]
    {
      data[i] := data[i].(prev := prev);
    }

    method SetOwner(i: int, id: CreateID, sex: bool)
      requires 0 <= i < data.Length
      modifies data
      ensures data[..] == old(data[..])[i := old(data[i]).(createID := id, sex := sex)]
    {
      data[i] := data[i].(createID := id);
      data[i] := data[i].(sex := sex);
    }

    /** `getFirstBlank_`. */
    method GetFirstBlank() returns (index: int)
      requires data.Length == size
      ensures -1 <= index < size
      ensures index >= 0 ==> !IsValidID(data[index].createID)
      ensures index >= 0 ==> forall s :: 0 <= s < index ==> IsValidID(data[s].createID)
      ensures index == -1 ==> forall s :: 0 <= s < size ==> IsValidID(data[s].createID)
    {
      var i := 0;
      while i < size
        invariant 0 <= i <= size
        invariant forall s :: 0 <= s < i ==> IsValidID(data[s].createID)
      {
        if !IsValidID(data[i].createID) {
          return i;
        }
        i := i + 1;
      }
      index := -1;
    }

    /** `RFLiSearchHiddenData`. */
    method Search(id: CreateID) returns (index: int)
      requires data.Length == size
      ensures -1 <= index < size
      ensures index >= 0 ==> IsSameID(data[index].createID, id)
      ensures index >= 0 ==> forall s :: 0 <= s < index ==> !IsSameID(data[s].createID, id)
      ensures index == -1 ==> forall s :: 0 <= s < size ==> !IsSameID(data[s].createID, id)
    {
      index := -1;
      var i := 0;
      while i < size
        invariant 0 <= i <= size && index == -1
        invariant forall s :: 0 <= s < i ==> !IsSameID(data[s].createID, id)
      {
        if IsSameID(data[i].createID, id) {
          index := i;
          break;
        }
        i := i + 1;
      }
    }

    /** `create_`: the slot is cleared, linked behind the tail and filled. */
    method Create(id: CreateID, sex: bool, index: int)
      requires Valid() && IsPermanentID(id) && id !in Contents()
      requires 0 <= index < size && !IsValidID(data[index].createID)
      modifies this, data
      ensures Valid() && order == old(order) + [index] && Contents() == old(Contents()) + [id]
      ensures OthersStay(old(data[..]), data[..], index)
      ensures data[index].createID == id && data[index].sex == sex
    {
      ghost var t := data[..];
      AppendParts(t, order, head, tail);
      hide Linked, Occupied, Ids, Distinct, IsPermanentID, IsValidID, WellFormed, Appended;
      ClearTableData(index);
      if tail >= 0 {
        SetNext(tail, index);
        SetPrev(index, tail);
        tail := index;
        SetNext(index, -1);
      } else {
        tail := index;
        head := index;
        SetPrev(index, -1);
        SetNext(index, -1);
      }
      SetOwner(index, id, sex);
      ShowAppended(t, data[..], index, old(tail), id, sex);
      AppendWellFormed(t, data[..], order, old(head), old(tail), index, id, sex);
      order := order + [index];
    }

    /** The assignments of `overwrite_`: the head slot moves behind the tail and changes hands. */
    method Recycle(id: CreateID, sex: bool, first: int, next: int, prev: int)
      requires 0 <= first < data.Length && 0 <= next < data.Length && 0 <= prev < data.Length
      requires first != next && first != prev
      modifies this`head, this`tail, data
      ensures Recycled(old(data[..]), data[..], first, next, prev, id, sex) && head == next && tail == first
    {
      hide Recycled;
      ClearTableData(first);
      head := next;
      SetPrev(next, -1);
      SetNext(prev, first);
      SetPrev(first, prev);
      tail := first;
      SetNext(first, -1);
      SetOwner(first, id, sex);
      ShowRecycled(old(data[..]), data[..], first, next, prev, id, sex);
    }

    /** `overwrite_`: the oldest entry gives up its slot, which becomes the newest; an empty list has none to
        give. A list of one entry is ruled out, for there the source writes through its link of -1. */
    method Overwrite(id: CreateID, sex: bool) returns (slot: int)
      requires Valid() && IsPermanentID(id) && id !in Contents() && |order| != 1
      modifies this, data
      ensures Valid()
      ensures old(order) == [] ==> slot == -1 && data[..] == old(data[..]) && order == []
      ensures old(order) != [] ==>
                && slot == old(order)[0] && order == old(order)[1..] + [slot]
                && Contents() == old(Contents())[1..] + [id] && OthersStay(old(data[..]), data[..], slot)
                && 0 <= slot < size && data[slot].createID == id && data[slot].sex == sex
    {
      if head < 0 || head >= size {
        EmptyHead(data[..], order, head, tail);
        return -1;
      }
      ghost var t := data[..];
      EmptyHead(t, order, head, tail);
      AppendParts(t, order, head, tail);
      hide Linked, Occupied, Ids, Distinct, IsPermanentID, IsValidID, WellFormed, Recycled, At, OthersStay;
      slot := head;
      Recycle(id, sex, slot, data[slot].next, tail);
      RecycleWellFormed(t, data[..], order, old(head), old(tail), id, sex);
      RecycledParts(t, data[..], slot, old(data[head].next), old(tail), id, sex);
      order := order[1..] + [slot];
    }

    /** The table part of `writeData_`: update in place, take the first blank slot, or evict. */
    method WriteData(id: CreateID, sex: bool) returns (slot: int)
      requires Valid() && IsPermanentID(id)
      modifies this, data
      ensures Valid() && Contents() == Push(size, old(Contents()), id)
      ensures 0 <= slot < size && data[slot].createID == id
      ensures OthersStay(old(data[..]), data[..], slot)
      ensures id in old(Contents()) ==> data[..] == old(data[..]) && order == old(order)
      ensures id !in old(Contents()) ==> data[slot].sex == sex
      ensures id !in old(Contents()) && |old(order)| < size ==>
                && slot !in old(order) && (forall s :: 0 <= s < slot ==> s in old(order))
                && order == old(order) + [slot]
      ensures id !in old(Contents()) && |old(order)| == size ==>
                slot == old(order)[0] && order == old(order)[1..] + [slot]
    {
      var blank := GetFirstBlank();
      var index := Search(id);
      IdsInTable(data[..], order, id);
      Pigeonhole(order, size);
      if index != -1 {
        assert data[..][index].createID == id;
        slot := index;
      } else if blank < 0 {
        slot := Overwrite(id, sex);
      } else {
        Create(id, sex, blank);
        slot := blank;
      }
    }
  }
}
