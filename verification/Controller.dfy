/** What enters the hidden database: the screening of controller data in
    src/RVLFaceLib/RFL_Controller.c and the selection in src/RVLFaceLib/RFL_HiddenDatabase.c. */
module Controller {
  import opened CreateIds
  import opened Faces

  /** A record that the controller check lets stand: no identifier, or a valid permanent face. */
  ghost predicate Screened(r: Record) {
    Wide16(r) && (IsValidID(r.createID) ==> IsPermanentID(r.createID) && CheckValidInfo(InfoOf(r, NoCreator())))
  }

  /** A record fit for the hidden database. */
  ghost predicate Storable(r: Record) {
    Wide16(r) && IsPermanentID(r.createID) && CheckHiddenData(r)
  }

  lemma InfoID(r: Record)
    requires Wide16(r)
    ensures InfoOf(r, NoCreator()).createID == r.createID && InfoOf(r, NoCreator()).name == r.name
  {
  }

  /** `validBufferFound_`: the loop over the copied records. A record without an identifier, or with a permanent one and
      a valid face, is kept as it is; every other one is cleared. The creator plays no part in the check. */
  method ValidBufferFound(data: array<Record>)
    requires forall i :: 0 <= i < data.Length ==> Wide16(data[i])
    modifies data
    ensures forall i :: 0 <= i < data.Length ==>
              && data[i] == (if Screened(old(data[i])) then old(data[i]) else Blank())
              && |data[i].words| == 12 && Screened(data[i])
  {
    hide CheckValidInfo, InfoOf;
    var i := 0;
    while i < data.Length
      invariant 0 <= i <= data.Length
      invariant forall k :: 0 <= k < i ==>
                  data[k] == (if Screened(old(data[k])) then old(data[k]) else Blank()) && Screened(data[k])
      invariant forall k :: i <= k < data.Length ==> data[k] == old(data[k])
    {
      InfoID(data[i]);
      if IsValidID(data[i].createID) {
        var info := InfoOf(data[i], NoCreator());
        if !CheckValidInfo(info) || IsTemporaryID(info.createID) {
          data[i] := Blank();
        }
      }
      i := i + 1;
    }
  }

  /** `checkCtrlWritableData_`: secret says which records the controller marks as hidden, and
      `official` which identifiers the official database holds. */
  predicate Writable(r: Record, secret: bool, ch: bool, official: CreateID -> bool)
    requires |r.words| == 12
  {
    (ch ==> secret) && IsValidID(r.createID) && LocalOnlyOf(RawToHidden(r)) == 0 && !official(r.createID)
  }

  /** Which records are to be written: any one with an identifier that is neither local nor official, and marked as
      hidden if only those are wanted. */
  ghost predicate ToWrite(r: Record, secret: bool, ch: bool, official: CreateID -> bool) {
    && (ch ==> secret) && IsValidID(r.createID) && !official(r.createID)
    && Wide16(r) && InfoOf(r, NoCreator()).localOnly == 0
  }

  /** Which records of a controller enter the hidden database: those to be written whose identifier is permanent and
      whose face is valid. */
  ghost predicate Enters(r: Record, secret: bool, ch: bool, official: CreateID -> bool) {
    && (ch ==> secret) && IsPermanentID(r.createID) && !official(r.createID)
    && Wide16(r) && CheckValidInfo(InfoOf(r, NoCreator())) && InfoOf(r, NoCreator()).localOnly == 0
  }

  lemma EntersExactly(r: Record, secret: bool, ch: bool, official: CreateID -> bool)
    requires Wide16(r)
    ensures ToWrite(if Screened(r) then r else Blank(), secret, ch, official) <==> Enters(r, secret, ch, official)
  {
    hide CheckValidInfo, InfoOf;
    InfoID(r);
  }

  /** A record in the form in which it is written: the same but for the creator, the birthday and the favorite mark. */
  ghost predicate WrittenForm(h: Record, r: Record) {
    && Wide16(h) && Wide16(r) && h.createID == r.createID
    && HiddenToInfo(h) == InfoOf(r, NoCreator()).(bmonth := 0, bday := 0, favorite := 0)
  }

  lemma LocalOnlyRead(r: Record)
    requires |r.words| == 12
    ensures LocalOnlyOf(r) == HiddenToInfo(r).localOnly
  {
    hide Fields;
  }

  lemma WritableExactly(r: Record, secret: bool, ch: bool, official: CreateID -> bool)
    requires Wide16(r)
    ensures Writable(r, secret, ch, official) <==> ToWrite(r, secret, ch, official)
  {
    RawToHiddenInfo(r, NoCreator());
    LocalOnlyRead(RawToHidden(r));
    hide Fields, InfoFrom, HiddenToInfo, InfoOf, LocalOnlyOf, RawToHidden;
  }

  lemma HiddenName(r: Record)
    requires Wide16(r)
    ensures |HiddenToInfo(r).name| == 10
  {
  }

  lemma FavoriteDoesNotMatter(info: CharInfo)
    requires |info.name| == 10
    ensures CheckValidInfo(info.(favorite := 0)) <==> CheckValidInfo(info)
  {
  }

  lemma SelectedStorable(r: Record)
    requires Screened(r) && IsValidID(r.createID)
    ensures Storable(ClearFavorite(RawToHidden(r)))
  {
    hide CheckValidInfo, InfoOf, IsPermanentID;
    ControllerRecordReadable(r, NoCreator());
    ClearFavoriteInfo(RawToHidden(r));
    HiddenName(RawToHidden(r));
    FavoriteDoesNotMatter(HiddenToInfo(RawToHidden(r)));
  }

  lemma NoCreatorInfo(r: Record)
    requires |r.words| == 12
    ensures InfoOf(r, NoCreator()).creator == NoCreator()
  {
    hide Fields;
  }

  lemma WrittenInfo(r: Record)
    requires Wide16(r)
    ensures WrittenForm(ClearFavorite(RawToHidden(r)), r)
  {
    hide InfoOf, HiddenToInfo;
    RawToHiddenInfo(r, NoCreator());
    ClearFavoriteInfo(RawToHidden(r));
    NoCreatorInfo(r);
  }

  /** The list holds, in ascending order of their numbers `from`, exactly the records before number n that are to be
      written. */
  ghost predicate Lists(list: seq<Record>, from: seq<int>, data: seq<Record>, secret: seq<bool>, n: nat, ch: bool,
                        official: CreateID -> bool)
  {
    && n <= |data| == |secret| && |from| == |list|
    && (forall k :: 0 <= k < |from| ==> 0 <= from[k] < n) && (forall k, l :: 0 <= k < l < |from| ==> from[k] < from[l])
    && (forall k :: 0 <= k < |list| ==> WrittenForm(list[k], data[from[k]]))
    && forall i :: 0 <= i < n ==> (i in from <==> ToWrite(data[i], secret[i], ch, official))
  }

  lemma ListsNext(list: seq<Record>, from: seq<int>, data: seq<Record>, secret: seq<bool>, n: nat, ch: bool,
                  official: CreateID -> bool)
    requires Lists(list, from, data, secret, n, ch, official) && n < |data| && Wide16(data[n])
    ensures if Writable(data[n], secret[n], ch, official)
            then Lists(list + [ClearFavorite(RawToHidden(data[n]))], from + [n], data, secret, n + 1, ch, official)
            else Lists(list, from, data, secret, n + 1, ch, official)
  {
    hide ClearFavorite, RawToHidden, Wide16, Writable, ToWrite, WrittenForm;
    WritableExactly(data[n], secret[n], ch, official);
    WrittenInfo(data[n]);
  }

  lemma ListsNothing(data: seq<Record>, secret: seq<bool>, ch: bool, official: CreateID -> bool)
    requires |secret| == |data|
    ensures Lists([], [], data, secret, 0, ch, official)
  {
  }

  lemma WritableID(r: Record, secret: bool, ch: bool, official: CreateID -> bool)
    requires |r.words| == 12 && Writable(r, secret, ch, official)
    ensures IsValidID(r.createID)
  {
  }

  lemma ScreenedWide(r: Record)
    requires Screened(r)
    ensures Wide16(r)
  {
  }

  /** `getCtrlWritableCount_`: the list of records to write. All of them are fit for the database. */
  method CollectWritable(data: array<Record>, secret: seq<bool>, ch: bool, official: CreateID -> bool)
    returns (list: seq<Record>, ghost from: seq<int>)
    requires |secret| == data.Length && forall i :: 0 <= i < data.Length ==> |data[i].words| == 12 && Screened(data[i])
    ensures Lists(list, from, data[..], secret, data.Length, ch, official)
    ensures forall i :: 0 <= i < |list| ==> Storable(list[i])
  {
    hide Screened, Storable, Writable, ClearFavorite, RawToHidden, Lists, Wide16;
    list, from := [], [];
    var i := 0;
    ListsNothing(data[..], secret, ch, official);
    while i < data.Length
      invariant 0 <= i <= data.Length
      invariant Lists(list, from, data[..], secret, i, ch, official)
      invariant forall k :: 0 <= k < |list| ==> Storable(list[k])
    {
      ScreenedWide(data[i]);
      ListsNext(list, from, data[..], secret, i, ch, official);
      if Writable(data[i], secret[i], ch, official) {
        WritableID(data[i], secret[i], ch, official);
        SelectedStorable(data[i]);
        list := list + [ClearFavorite(RawToHidden(data[i]))];
        from := from + [i];
      }
      i := i + 1;
    }
  }
}
