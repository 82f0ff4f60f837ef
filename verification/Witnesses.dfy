/** Inputs that the code can receive, on which it falls short: records that leave the table wrong about a sex, and
    tables of which the two readers of random samples make different samples. */
module Witnesses {
  import opened Powers
  import opened Words
  import opened CreateIds
  import opened Packing
  import opened Faces
  import opened RandomFaces
  import opened Controller
  import opened HiddenTable
  import opened HiddenWriter
  import opened RecordQueue
  import opened Pages
  import opened RandomPage

  lemma SexRead(r: Record)
    requires |r.words| == 12
    ensures HiddenToInfo(r).sex == SexOf(r) && HiddenToInfo(r).createID == r.createID
  {
    hide Fields;
  }

  /** The two flags of a record are single bits. */
  lemma FlagsRead(r: Record)
    requires Wide16(r)
    ensures OneBit(HiddenToInfo(r)) && |HiddenToInfo(r).name| == 10
  {
    AssembledFields(r.words);
    hide Fields;
    assert Fits(Fields(r.words)[0], Layout()[0]) && Fits(Fields(r.words)[1], Layout()[1]);
    Powers2();
  }

  /** A valid info under a permanent identifier makes a record that is fit for the database. */
  lemma StoredInfo(info: CharInfo, was: Record)
    requires |info.name| == 10 && CheckValidInfo(info) && OneBit(info) && IsPermanentID(info.createID)
    requires Wide16(was) && |was.words| == 12
    ensures var r := InfoToHidden(info, was);
            Storable(r) && r.createID == info.createID && SexOf(r) == info.sex
  {
    hide CheckValidInfo, InfoToHidden, HiddenToInfo, OneBit, InfoFits, Wide16;
    var r := InfoToHidden(info, was);
    ValidInfoFits(info);
    HiddenRoundTrip(info, was);
    StillValid(info);
    SexRead(r);
  }

  lemma SexFlipped(info: CharInfo)
    requires |info.name| == 10 && CheckValidInfo(info) && OneBit(info)
    ensures info.sex <= 1 && CheckValidInfo(info.(sex := 1 - info.sex)) && OneBit(info.(sex := 1 - info.sex))
  {
  }

  /** Every record that is fit for the database has a twin of the other sex under the same identifier. */
  lemma OtherSex(r: Record) returns (r': HiddenRecord)
    requires Storable(r)
    ensures Storable(r') && r'.createID == r.createID && IsFemale(r') != IsFemale(r)
  {
    hide CheckValidInfo, InfoToHidden, HiddenToInfo, OneBit, SexOf;
    var info := HiddenToInfo(r);
    FlagsRead(r);
    SexRead(r);
    SexFlipped(info);
    StoredInfo(info.(sex := 1 - info.sex), r);
    r' := InfoToHidden(info.(sex := 1 - info.sex), r);
  }

  lemma TopOnly(hi: U32, bit: U32)
    requires hi == SIGN && bit < SIGN
    ensures And(hi, bit) == 0 && And(hi, SIGN) == SIGN
  {
    hide And;
    AndCommutes(hi, bit);
    AndSign(bit);
    AndSign(hi);
  }

  lemma PlainID(id: CreateID)
    requires id.hi == NOT_SPECIAL
    ensures IsPermanentID(id) && !IsSpecialID(id)
  {
    hide And;
    TopOnly(id.hi, TEMPORARY);
  }

  function PlainInfo(id: CreateID, sex: nat): CharInfo {
    CharInfo(
      Faceline(0, 0, 0), Hair(0, 0, 0), Eye(0, 0, 0, 0, 0, 0), Eye(0, 0, 0, 0, 0, 3), Nose(0, 0, 0), Mouth(0, 0, 0, 0),
      Beard(0, 0, 0, 0, 0), Mouth(0, 0, 0, 0), Mole(0, 0, 0, 0), 64, 64, [0x41, 0, 0, 0, 0, 0, 0, 0, 0, 0], NoCreator(),
      sex, 0, 0, 0, 0, 0, id)
  }

  /** The record of a plain face. */
  function PlainRecord(id: CreateID, sex: nat): Record {
    InfoToHidden(PlainInfo(id, sex), Blank())
  }

  /** There are records that are fit for the database, of either sex and under any identifier that is not special. */
  lemma PlainStorable(id: CreateID, sex: nat)
    requires id.hi == NOT_SPECIAL && sex <= 1
    ensures var r := PlainRecord(id, sex);
            Storable(r) && Wide16(r) && r.createID == id && IsFemale(r) == (sex == 1)
  {
    hide InfoToHidden, HiddenToInfo, IsPermanentID, IsSpecialID, SexOf;
    PlainID(id);
    StoredInfo(PlainInfo(id, sex), Blank());
  }

  lemma NoBirthday(r: Record)
    requires |r.words| == 12 && Fields(r.words)[0][2] == Fields(r.words)[0][3] == 0
    ensures InfoOf(r, NoCreator()) == HiddenToInfo(r)
  {
    hide Fields;
  }

  /** There are records of a controller that enter the database: a screening that cleared them all would not do. */
  lemma PlainEnters(id: CreateID, sex: nat, secret: bool, ch: bool, official: CreateID -> bool)
    requires id.hi == NOT_SPECIAL && sex <= 1
    ensures var r := PlainRecord(id, sex);
            Wide16(r) && Screened(r) && (Enters(r, secret, ch, official) <==> (ch ==> secret) && !official(id))
  {
    hide InfoToHidden, HiddenToInfo, IsSpecialID, InfoOf, Fields, FieldsOf, And;
    var r, info := PlainRecord(id, sex), PlainInfo(id, sex);
    PlainID(id);
    StoredInfo(info, Blank());
    ValidInfoFits(info);
    HiddenRoundTrip(info, Blank());
    StoredFields(info, Blank());
    NoBirthday(r);
  }

  /** For every capacity, two records that the readers accept leave the table wrong about the sex. */
  lemma SexChanges(capacity: nat) returns (a: HiddenRecord, b: HiddenRecord)
    requires capacity > 0
    ensures AllStorable([a, b]) && a.createID == b.createID
    ensures PutAll(capacity, [], [a, b]) == [Entry(IsFemale(a), b)] && !AllAgree(PutAll(capacity, [], [a, b]))
  {
    hide Storable, IsFemale, PutAll, AllAgree, PlainRecord, Wide16;
    PlainStorable(CreateID(NOT_SPECIAL, 0), 0);
    a := PlainRecord(CreateID(NOT_SPECIAL, 0), 0);
    b := OtherSex(a);
    StaleSex(capacity, a, b);
  }

  // ---------- two women in a full table ----------

  function NumberedID(i: nat): CreateID
    requires i < 0x1_0000
  {
    CreateID(NOT_SPECIAL, i)
  }

  /** A full table of n slots in the order of their numbers, with women in slot a and in the last one. */
  function FullTable(n: nat, a: nat): (t: seq<TableData>)
    requires n <= 0x1_0000
    ensures |t| == n
  {
    seq(n, i requires 0 <= i < n =>
      TableData(NumberedID(i), i == a || i == n - 1, if i + 1 < n then i + 1 else -1, i - 1))
  }

  function FullFile(n: nat, a: nat): (file: seq<Record>)
    requires n <= 0x1_0000
    ensures |file| == n
  {
    seq(n, i requires 0 <= i < n => PlainRecord(NumberedID(i), if i == a || i == n - 1 then 1 else 0))
  }

  function InOrder(n: nat): (order: seq<int>)
    ensures |order| == n
  {
    seq(n, i => i)
  }

  lemma FullTableLinked(n: nat, a: nat)
    requires 0 < n <= 0x1_0000
    ensures Linked(FullTable(n, a), InOrder(n), 0, n - 1)
  {
  }

  lemma FullTableWellFormed(n: nat, a: nat)
    requires 0 < n <= 0x1_0000
    ensures WellFormed(FullTable(n, a), InOrder(n), 0, n - 1)
  {
    hide IsPermanentID, IsSpecialID, And, Linked;
    FullTableLinked(n, a);
    var t, order := FullTable(n, a), InOrder(n);
    forall s | 0 <= s < n
      ensures s in order && IsValidID(t[s].createID) && IsPermanentID(t[s].createID)
    {
      assert order[s] == s;
      PlainID(t[s].createID);
    }
  }

  lemma FullTableInFile(n: nat, a: nat)
    requires n <= 0x1_0000
    ensures InFile(FullTable(n, a), FullFile(n, a), -1)
    ensures forall s :: 0 <= s < n ==>
              Wide16(FullFile(n, a)[s]) && IsFemale(FullFile(n, a)[s]) == FullTable(n, a)[s].sex
  {
    hide Storable, PlainRecord, IsFemale, Wide16;
    forall s | 0 <= s < n
      ensures Storable(FullFile(n, a)[s]) && FullFile(n, a)[s].createID == FullTable(n, a)[s].createID
      ensures Wide16(FullFile(n, a)[s]) && IsFemale(FullFile(n, a)[s]) == FullTable(n, a)[s].sex
    {
      PlainStorable(NumberedID(s), if s == a || s == n - 1 then 1 else 0);
    }
  }

  lemma OnlyWomen(n: nat, a: nat, s: nat)
    requires s < n <= 0x1_0000
    ensures IsCandidate(FullTable(n, a)[s], Female) <==> s == a || s == n - 1
  {
  }

  lemma TwoCandidates(n: nat, a: nat)
    requires a + 1 < n <= 0x1_0000
    ensures Candidates(FullTable(n, a), Female) == [a, n - 1]
  {
    var t, c := FullTable(n, a), Candidates(FullTable(n, a), Female);
    hide Candidates, IsCandidate;
    forall s | 0 <= s < n
      ensures IsCandidate(t[s], Female) <==> s == a || s == n - 1
    {
      OnlyWomen(n, a, s);
    }
    assert a in c && n - 1 in c;
    forall k | 0 <= k < |c|
      ensures c[k] == a || c[k] == n - 1
    {
      assert c[k] in c;
    }
    var i :| 0 <= i < |c| && c[i] == a;
    assert i + 1 < |c| && c[0] < c[1] <= c[|c| - 1];
  }

  /** In tables of any size that fits, with every clock, the readers make different samples: with two candidates one
      of which is the last slot, the synchronous reader takes one record, and the asynchronous one both. The table is
      right about every sex. */
  lemma SamplesDiffer(n: nat, a: nat, tick: U32)
    returns (t: seq<TableData>, file: seq<HiddenRecord>, order: seq<int>, drawn: seq<int>)
    requires a + 1 < n <= 0x1_0000
    ensures |t| == n && WellFormed(t, order, 0, n - 1) && InFile(t, file, -1)
    ensures (forall i :: 0 <= i < |order| ==> 0 <= order[i] < |t|) && AllAgree(Held(t, file, order))
    ensures Candidates(t, Female) == [a, n - 1] && drawn == Shuffled(Candidates(t, Female), 0, tick) == [n - 1, a]
    ensures SlotsOf(drawn, n) && SyncEnd(drawn, n, 0) == 1 && AsyncEnd(drawn, n, 0) == 2
    ensures |Taken(file, t, drawn, 1)| == 1 && |Taken(file, t, drawn, 2)| == 2
  {
    hide WellFormed, InFile, Shuffled, Candidates, Taken, IsFemale, Wide16, Storable, PlainRecord, Wanted;
    t, order := FullTable(n, a), InOrder(n);
    FullTableInFile(n, a);
    file := FullFile(n, a);
    FullTableWellFormed(n, a);
    TwoCandidates(n, a);
    ShuffleOfTwo(a, n - 1, tick);
    drawn := [n - 1, a];
    DrawnTaken(file, t, order, 0, n - 1, Female, tick, drawn);
    AllTaken(file, t, drawn, 1);
    AllTaken(file, t, drawn, 2);
  }
}
