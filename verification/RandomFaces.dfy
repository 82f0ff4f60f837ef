/** Random faces: src/RVLFaceLib/RFL_MakeRandomFace.c, and `updateRandom_` of
    src/RVLFaceLib/RFL_MiddleDatabase.c, which fills a buffer with faces that all differ. The clock that drives
    the draws is arbitrary. */
module RandomFaces {
  import opened Powers
  import opened Words
  import opened CreateIds
  import opened Packing
  import opened Faces
  import opened FaceTables
  import opened FaceComparison

  datatype Age = Child | Adult | Elder | AnyAge
  datatype Race = Black | White | Asian | AnyRace

  const TEMPORARY_ID := CreateID(TEMPORARY, 0)

  // ---------- valid infos fit their bit fields ----------

  predicate OneBit(info: CharInfo) {
    info.favorite <= 1 && info.localOnly <= 1
  }

  lemma Powers2()
    ensures Pow2(1) == 2 && Pow2(2) == 4 && Pow2(3) == 8 && Pow2(4) == 16 && Pow2(5) == 32 && Pow2(6) == 64
    ensures Pow2(7) == 128
  {
  }

  lemma ValidMembersFit(info: CharInfo)
    requires |info.name| == 10 && CheckValidInfo(info)
    ensures MembersFit(info)
  {
    Powers2();
    hide Pow2, CheckBirthday, IsSpecialID;
  }

  lemma BirthdayFits(info: CharInfo)
    requires |info.name| == 10 && CheckValidInfo(info)
    ensures info.bmonth < 16 && info.bday < 32
  {
    hide IsSpecialID;
  }

  lemma FirstWordsFit(info: CharInfo, z: seq<seq<nat>>, i: nat)
    requires |info.name| == 10 && CheckValidInfo(info) && OneBit(info) && info.bmonth < 16 && info.bday < 32
    requires FieldsFit(z) && i < 6
    ensures Fits(FieldsOf(info, z)[i], Layout()[i])
  {
    assert Fits(z[0], Layout()[0]) && Fits(z[1], Layout()[1]) && Fits(z[2], Layout()[2]) && Fits(z[3], Layout()[3]);
    Powers2();
    hide Pow2, CheckBirthday, IsSpecialID;
  }

  lemma LastWordsFit(info: CharInfo, z: seq<seq<nat>>, i: nat)
    requires |info.name| == 10 && CheckValidInfo(info) && FieldsFit(z) && 6 <= i < 12
    ensures Fits(FieldsOf(info, z)[i], Layout()[i])
  {
    assert Fits(z[6], Layout()[6]) && Fits(z[7], Layout()[7]) && Fits(z[11], Layout()[11]);
    Powers2();
    hide Pow2, CheckBirthday, IsSpecialID;
  }

  lemma ValidInfoFits(info: CharInfo)
    requires |info.name| == 10 && CheckValidInfo(info) && OneBit(info)
    ensures InfoFits(info)
  {
    var zeros := seq(12, _ => 0);
    AssembledFields(zeros);
    BirthdayFits(info);
    hide CheckValidInfo, OneBit, Fields, FieldsOf, Layout, Fits;
    var z := Fields(zeros);
    var f := FieldsOf(info, z);
    forall i | 0 <= i < 12
      ensures Fits(f[i], Layout()[i])
    {
      if i < 6 {
        FirstWordsFit(info, z, i);
      } else {
        LastWordsFit(info, z, i);
      }
    }
  }

  // ---------- drawing a face ----------

  /** `RFLi_GetRandU32`: the clock shows anything. */
  method GetRandU32(max: nat) returns (r: nat)
    requires max > 0
    ensures r < max
  {
    var tick: U32 := *;
    r := tick % max;
  }

  function RaceAge(age: Age, race: Race): (row: nat)
    ensures row < 9
  {
    (if age == Adult then 3 else if age == Elder then 6 else 0)
    + (if race == White then 1 else if race == Asian then 2 else 0)
  }

  /** The number of the row of the tables. */
  function Row(sex: Sex, age: Age, race: Race): (row: nat)
    ensures row < 18
  {
    (if sex == Female then 9 else 0) + RaceAge(age, race)
  }

  method Pick(table: seq<nat>) returns (v: nat)
    requires |table| > 0
    ensures v in table
  {
    var r := GetRandU32(|table|);
    v := table[r];
  }

  /** `RFLi_GetGlassType`. */
  method GetGlassType(age: Age) returns (g: nat)
    ensures g <= 7 && (age == Child ==> g <= 3) && (age == Elder ==> g in {0, 1, 3, 6, 7})
  {
    var rand := GetRandU32(100);
    match age {
      case Child =>
        g := if rand < 90 then 0 else if rand < 94 then 1 else if rand < 96 then 2 else 3;
      case Adult =>
        g := if rand < 83 then 0 else if rand < 86 then 1 else if rand < 90 then 2 else if rand < 93 then 3
             else if rand < 94 then 4 else if rand < 96 then 5 else if rand < 98 then 6 else 7;
      case Elder =>
        g := if rand < 78 then 0 else if rand < 83 then 1 else if rand < 93 then 3 else if rand < 98 then 6 else 7;
      case _ =>
        g := 0;
    }
  }

  function RaceRow(race: Race): nat {
    if race == White then 1 else if race == Asian then 2 else 0
  }

  function AgeRow(age: Age): nat {
    if age == Adult then 1 else if age == Elder then 2 else 0
  }

  /** Skin by sex and race, hair by race and age, eyes by race; eyebrows and beard have the colour of the hair, and
      men's mouths are plain. */
  ghost predicate ColorsOf(info: CharInfo, sex: Sex, age: Age, race: Race) {
    && info.faceline.color in FaceColors((if sex == Female then 3 else 0) + RaceRow(race))
    && info.hair.color in HairColors(3 * RaceRow(race) + AgeRow(age))
    && info.eye.color in EyeColors(RaceRow(race))
    && info.eyebrow.color == info.hair.color
    && (info.beard.mustache > 0 || info.beard.kind > 0 ==> info.beard.color == info.hair.color)
    && (sex == Male ==> info.mouth.color == 0)
  }

  /** All parts are lowered by the same amount, which only women and children have. */
  ghost predicate PlacesOf(info: CharInfo, sex: Sex, age: Age, race: Race) {
    var y := info.eye.y - 12;
    && 0 <= y <= (if sex == Female then 2 else 0) + (if age == Child then 2 else 0)
    && info.eyebrow.y == y + (if race == Asian then 9 else 10)
    && info.nose.y == y + 9 && info.mouth.y == y + 13 && info.glass.y == y + 10
    && info.eye.x == info.eyebrow.x == 2 && info.nose.scale == if sex == Male then 4 else 3
  }

  /** The parts come from the tables of the given kind of face, and only grown men have beards. */
  ghost predicate OfKind(info: CharInfo, sex: Sex, age: Age, race: Race) {
    && info.sex == (if sex == Female then 1 else 0)
    && info.faceline.kind in FacelineTypes(Row(sex, age, race)) && info.hair.kind in HairTypes(Row(sex, age, race))
    && info.eye.kind in EyeTypes(Row(sex, age, race)) && info.eyebrow.kind in EyebrowTypes(Row(sex, age, race))
    && info.nose.kind in NoseTypes(Row(sex, age, race)) && info.mouth.kind in MouthTypes(Row(sex, age, race))
    && info.faceline.texture in FaceTexTypes(Row(sex, age, race))
    && (info.beard.mustache > 0 || info.beard.kind > 0 ==> sex == Male && age != Child)
    && ColorsOf(info, sex, age, race) && PlacesOf(info, sex, age, race)
  }

  /** A mask lets a kind pass when it names it, or leaves it open. */
  predicate Passes(sex: Sex, age: Age, race: Race, sex': Sex, age': Age, race': Race) {
    && (sex == AnySex || sex' == sex) && (age == AnyAge || age' == age) && (race == AnyRace || race' == race)
    && sex' != AnySex && age' != AnyAge && race' != AnyRace
  }

  /** The face is of some kind that the mask lets pass. */
  ghost predicate OfMask(info: CharInfo, sex: Sex, age: Age, race: Race) {
    exists s, a, r :: Passes(sex, age, race, s, a, r) && OfKind(info, s, a, r)
  }

  lemma OfKindKept(info: CharInfo, info': CharInfo, s: Sex, a: Age, r: Race)
    requires OfKind(info, s, a, r)
    requires info'
          == info.(createID := info'.createID, creator := info'.creator, bmonth := info'.bmonth, bday := info'.bday)
    ensures OfKind(info', s, a, r)
  {
    hide Row, FacelineTypes, HairTypes, EyeTypes, EyebrowTypes, NoseTypes, MouthTypes, FaceTexTypes, FaceColors;
    hide HairColors, EyeColors;
  }

  /** Neither identifier, creator nor birthday tells the kind of a face. */
  lemma OfMaskKept(info: CharInfo, info': CharInfo, sex: Sex, age: Age, race: Race)
    requires OfMask(info, sex, age, race)
    requires info'
          == info.(createID := info'.createID, creator := info'.creator, bmonth := info'.bmonth, bday := info'.bday)
    ensures OfMask(info', sex, age, race)
  {
    var s, a, r :| Passes(sex, age, race, s, a, r) && OfKind(info, s, a, r);
    OfKindKept(info, info', s, a, r);
  }

  method DrawBeard(sex: Sex, age: Age, hairColor: nat) returns (beard: Beard)
    requires hairColor <= 7
    ensures beard.mustache <= 3 && beard.kind <= 3 && beard.color <= 7 && beard.scale <= 4 && beard.y <= 10
    ensures beard.mustache > 0 || beard.kind > 0 ==>
              sex == Male && (age == Adult || age == Elder) && beard.color == hairColor
  {
    if sex == Male && (age == Adult || age == Elder) {
      var chance := GetRandU32(10);
      if chance < 2 {
        var r := GetRandU32(3);
        var mustache, kind := 0, 0;
        if r == 0 {
          kind := GetRandU32(3);
          kind := kind + 1;
        } else if r == 1 {
          mustache := GetRandU32(3);
          mustache := mustache + 1;
        } else {
          mustache := GetRandU32(3);
          mustache := mustache + 1;
          kind := GetRandU32(3);
          kind := kind + 1;
        }
        return Beard(mustache, kind, hairColor, 4, 10);
      }
    }
    beard := Beard(0, 0, 0, 0, 0);
  }

  /** The eyes: the rotation makes up for the offset of the drawn type, and stays in range for every type. */
  method DrawEye(sex: Sex, row: nat, race: Race, y: nat) returns (eye: Eye)
    requires y <= 4 && row < 18
    ensures eye.kind in EyeTypes(row) && eye.kind <= 47 && eye.color <= 5 && eye.scale == 4 && eye.x == 2
    ensures eye.y == y + 12 && eye.color in EyeColors(RaceRow(race))
    ensures 3 <= eye.rotate <= 4
    ensures eye.rotate + EyeRotOffsets()[eye.kind]
         == if sex == Male then 4 + EyeRotOffsets()[2] else 3 + EyeRotOffsets()[4]
  {
    hide EyeTypes, EyeColors, EyeRotOffsets;
    var offsets := EyeRotOffsets();
    var kind := Pick(EyeTypes(row));
    var color := Pick(EyeColors(if race == White then 1 else if race == Asian then 2 else 0));
    var rotate := if sex == Male then 4 + (offsets[2] - offsets[kind]) else 3 + (offsets[4] - offsets[kind]);
    eye := Eye(kind, color, 4, rotate, 2, y + 12);
  }

  method DrawEyebrow(row: nat, race: Race, hairColor: nat, y: nat) returns (brow: Eye)
    requires y <= 4 && row < 18 && hairColor <= 7
    ensures brow.kind in EyebrowTypes(row) && brow.kind <= 23 && brow.color == hairColor && brow.scale == 4
    ensures brow.x == 2
    ensures brow.y == y + (if race == Asian then 9 else 10) && 4 <= brow.rotate <= 8
    ensures brow.rotate + EyebrowRotOffsets()[brow.kind] == 6 + EyebrowRotOffsets()[if race == Asian then 6 else 0]
  {
    hide EyebrowTypes, EyebrowRotOffsets;
    var offsets := EyebrowRotOffsets();
    var kind := Pick(EyebrowTypes(row));
    var rotate := 6 + (offsets[if race == Asian then 6 else 0] - offsets[kind]);
    brow := Eye(kind, hairColor, 4, rotate, 2, y + (if race == Asian then 9 else 10));
  }

  function NoName(): (name: seq<nat>)
    ensures |name| == 10 && name[0] != 0
  {
    ['n' as int, 'o' as int, ' ' as int, 'n' as int, 'a' as int, 'm' as int, 'e' as int, 0, 0, 0]
  }

  lemma {:induction false} AndSelf(a: nat)
    ensures And(a, a) == a
  {
    if a > 0 {
      AndSelf(a / 2);
    }
  }

  lemma TemporaryBit()
    ensures And(TEMPORARY, TEMPORARY) != 0
  {
    AndSelf(TEMPORARY);
  }

  lemma TemporaryIsNotSpecial()
    ensures !IsSpecialID(TEMPORARY_ID) && IsValidID(TEMPORARY_ID)
  {
    hide And;
    TemporaryBit();
  }

  /** `RFLi_MakeRandomFace_Core`. The identifier is left as it was. */
  method MakeRandomFaceCore(was: CharInfo, sex: Sex, age: Age, race: Race) returns (info: CharInfo)
    requires Passes(AnySex, AnyAge, AnyRace, sex, age, race)
    ensures OfKind(info, sex, age, race) && OneBit(info) && info.createID == was.createID
    ensures |info.name| == 10 && CheckValidInfo(info.(createID := TEMPORARY_ID))
  {
    hide FacelineTypes, HairTypes, EyeTypes, EyebrowTypes, NoseTypes, MouthTypes, FaceTexTypes, FaceColors, HairColors;
    hide EyeColors, Row, RaceAge, EyeRotOffsets, EyebrowRotOffsets;
    TemporaryIsNotSpecial();
    hide IsSpecialID;
    var y, more := 0, 0;
    if sex == Female {
      y := GetRandU32(3);
    }
    if age == Child {
      more := GetRandU32(3);
      y := y + more;
    }
    var row := Row(sex, age, race);
    var faceType := Pick(FacelineTypes(row));
    var faceColor := Pick(FaceColors((if sex == Female then 3 else 0)
                                     + (if race == White then 1 else if race == Asian then 2 else 0)));
    var texture := Pick(FaceTexTypes(row));
    var hairType := Pick(HairTypes(row));
    var hairColor := Pick(HairColors((if race == White then 3 else if race == Asian then 6 else 0)
                                     + (if age == Adult then 1 else if age == Elder then 2 else 0)));
    var flip := GetRandU32(2);
    var eye := DrawEye(sex, row, race, y);
    var brow := DrawEyebrow(row, race, hairColor, y);
    var noseType := Pick(NoseTypes(row));
    var mouthType := Pick(MouthTypes(row));
    var mouthColor := 0;
    if sex != Male {
      mouthColor := GetRandU32(3);
    }
    var beard := DrawBeard(sex, age, hairColor);
    var glassType := GetGlassType(age);
    var moleX := GetRandU32(17);
    var moleY := GetRandU32(31);
    var color := GetRandU32(12);
    info := CharInfo(
      Faceline(faceType, faceColor, texture), Hair(hairType, hairColor, flip), eye, brow,
      Nose(noseType, if sex == Male then 4 else 3, y + 9), Mouth(mouthType, mouthColor, 4, y + 13), beard,
      Mouth(glassType, 0, 4, y + 10), Mole(0, 4, moleX, moleY), 64, 64, NoName(), NoCreator(),
      if sex == Female then 1 else 0, 0, 0, color, 0, 0, was.createID);
  }

  /** `RFLi_MakeRandomFace`: what the mask leaves open is drawn. */
  method MakeRandomFace(was: CharInfo, sex: Sex, age: Age, race: Race)
    returns (info: CharInfo, ghost sex': Sex, ghost age': Age, ghost race': Race)
    ensures Passes(sex, age, race, sex', age', race') && OfKind(info, sex', age', race')
    ensures OneBit(info) && info.createID == was.createID
    ensures |info.name| == 10 && CheckValidInfo(info.(createID := TEMPORARY_ID))
  {
    hide OfKind, CheckValidInfo;
    var s, a, r, rand := sex, age, race, 0;
    if sex == AnySex {
      rand := GetRandU32(2);
      s := if rand == 0 then Male else Female;
    }
    if age == AnyAge {
      rand := GetRandU32(10);
      a := if rand < 4 then Child else if rand < 8 then Adult else Elder;
    }
    if race == AnyRace {
      rand := GetRandU32(10);
      r := if rand < 4 then Asian else if rand < 8 then White else Black;
    }
    info := MakeRandomFaceCore(was, s, a, r);
    sex', age', race' := s, a, r;
  }

  // ---------- filling a buffer ----------

  /** Padding bits of memory that nothing has set. */
  method LeftOver() returns (p: Padding)
    ensures PaddingFits(p)
  {
    var a, b, c, d, e, f: int := *, *, *, *, *, *;
    p := Padding(a % 64, b % 32, c % 32, d % 64, e % 8, f % 2);
    Powers2();
  }

  /** A record that reads back as a valid face. */
  ghost predicate GoodFace(r: HiddenRecord) {
    CheckHiddenData(r) && MembersFit(HiddenToInfo(r))
  }

  /** The first n records are valid faces, no two the same. */
  ghost predicate AllDifferent(d: seq<HiddenRecord>, n: nat) {
    && n <= |d| && (forall i :: 0 <= i < n ==> GoodFace(d[i]))
    && forall i, j :: 0 <= i < j < n ==> !SameFace(HiddenToInfo(d[i]), HiddenToInfo(d[j]))
  }

  ghost predicate Among(info: CharInfo, d: seq<HiddenRecord>, n: nat) {
    exists i :: 0 <= i < n <= |d| && SameFace(info, HiddenToInfo(d[i]))
  }

  /** Every face drawn is among the first n records. */
  ghost predicate AllKept(drawn: seq<CharInfo>, d: seq<HiddenRecord>, n: nat) {
    forall k :: 0 <= k < |drawn| ==> Among(drawn[k], d, n)
  }

  lemma IdKept(info: CharInfo, was: HiddenRecord)
    ensures InfoToHidden(info, was).createID == info.createID
  {
  }

  /** What is stored reads back as the same face. */
  lemma StoredFace(info: CharInfo, was: HiddenRecord)
    requires |info.name| == 10 && CheckValidInfo(info) && OneBit(info) && info.createID == TEMPORARY_ID
    ensures Wide16(InfoToHidden(info, was)) && GoodFace(InfoToHidden(info, was))
    ensures SameFace(info, HiddenToInfo(InfoToHidden(info, was)))
    ensures HiddenToInfo(InfoToHidden(info, was)) == info.(creator := NoCreator(), bmonth := 0, bday := 0)
  {
    hide CheckValidInfo, InfoToHidden, HiddenToInfo, MembersFit, OneBit, InfoFits, Wide16, And;
    TemporaryIsNotSpecial();
    ValidInfoFits(info);
    ValidMembersFit(info);
    HiddenRoundTrip(info, was);
    StillValid(info);
    ValidMembersFit(info.(creator := NoCreator(), bmonth := 0, bday := 0));
    IdKept(info, was);
  }

  lemma SameFaceSteps(a: CharInfo, b: CharInfo, c: CharInfo)
    requires SameFace(a, b)
    ensures SameFace(a, c) <==> SameFace(b, c)
    ensures SameFace(b, a)
  {
  }

  lemma Stored(d: seq<HiddenRecord>, d': seq<HiddenRecord>, n: nat, info: CharInfo, drawn: seq<CharInfo>)
    requires AllDifferent(d, n) && n < |d| && AllKept(drawn, d, n)
    requires |d'| == |d| && (forall i :: 0 <= i < n ==> d'[i] == d[i]) && GoodFace(d'[n])
    requires SameFace(info, HiddenToInfo(d'[n]))
    requires forall j :: 0 <= j < n ==> !SameFace(info, HiddenToInfo(d[j]))
    ensures AllDifferent(d', n + 1) && AllKept(drawn + [info], d', n + 1)
  {
    hide GoodFace, SameFace, HiddenToInfo;
    forall i | 0 <= i < n
      ensures !SameFace(HiddenToInfo(d'[i]), HiddenToInfo(d'[n]))
    {
      SameFaceSteps(info, HiddenToInfo(d'[n]), HiddenToInfo(d[i]));
      if SameFace(HiddenToInfo(d'[i]), HiddenToInfo(d'[n])) {
        SameFaceSteps(HiddenToInfo(d'[i]), HiddenToInfo(d'[n]), HiddenToInfo(d'[n]));
      }
    }
    forall k | 0 <= k < |drawn|
      ensures Among(drawn[k], d', n + 1)
    {
      assert Among(drawn[k], d, n);
      var i :| 0 <= i < n && SameFace(drawn[k], HiddenToInfo(d[i]));
      assert SameFace(drawn[k], HiddenToInfo(d'[i]));
    }
  }

  lemma Rejected(d: seq<HiddenRecord>, n: nat, info: CharInfo, j: nat, drawn: seq<CharInfo>)
    requires j < n <= |d| && SameFace(info, HiddenToInfo(d[j])) && AllKept(drawn, d, n)
    ensures AllKept(drawn + [info], d, n)
  {
    hide SameFace, HiddenToInfo;
    assert Among(info, d, n);
  }

  lemma KindPasses(info: CharInfo, sex: Sex, age: Age, race: Race, s: Sex, a: Age, r: Race)
    requires Passes(sex, age, race, s, a, r) && OfKind(info, s, a, r)
    ensures OfMask(info.(createID := TEMPORARY_ID), sex, age, race)
  {
    OfKindKept(info, info.(createID := TEMPORARY_ID), s, a, r);
  }

  lemma OneBitKept(info: CharInfo)
    ensures OneBit(info) <==> OneBit(info.(createID := TEMPORARY_ID))
  {
  }

  lemma NothingStored(d: seq<HiddenRecord>)
    ensures AllDifferent(d, 0) && AllKept([], d, 0)
  {
  }

  /** `RFLiMiddleDB` of type Random. */
  class RandomFaceDB {
    const data: array<HiddenRecord>
    const sex: Sex
    const age: Age
    const race: Race
    var storedSize: nat

    constructor (buffer: array<HiddenRecord>, wantedSex: Sex, wantedAge: Age, wantedRace: Race)
      ensures data == buffer && storedSize == 0
    {
      data, sex, age, race, storedSize := buffer, wantedSex, wantedAge, wantedRace, 0;
    }

    /** One comparison of the inner loop, on the memory of two infos with whatever their padding holds. */
    method IsSame(info: CharInfo, j: nat) returns (same: bool)
      requires j < data.Length && MembersFit(info) && MembersFit(HiddenToInfo(data[j]))
      ensures same == SameFace(info, HiddenToInfo(data[j]))
    {
      hide MembersFit, SameFace, IsSameFaceCore, RawOf, HiddenToInfo, PaddingFits;
      var p := LeftOver();
      var q := LeftOver();
      var temp := HiddenToInfo(data[j]);
      MasksCompareMembers(info, temp, p, q);
      same := IsSameFaceCore(RawOf(info, p), RawOf(temp, q));
    }

    /** The inner loop: is the face among the stored ones? */
    method FindSame(info: CharInfo) returns (isSame: bool, ghost at: nat)
      requires MembersFit(info) && AllDifferent(data[..], storedSize)
      ensures isSame ==> at < storedSize && SameFace(info, HiddenToInfo(data[at]))
      ensures !isSame ==> forall j :: 0 <= j < storedSize ==> !SameFace(info, HiddenToInfo(data[j]))
    {
      hide SameFace, HiddenToInfo, MembersFit, CheckHiddenData;
      isSame, at := false, 0;
      var j := 0;
      while j < storedSize
        invariant 0 <= j <= storedSize && !isSame
        invariant forall k :: 0 <= k < j ==> !SameFace(info, HiddenToInfo(data[k]))
      {
        assert GoodFace(data[..][j]);
        isSame := IsSame(info, j);
        if isSame {
          at := j;
          break;
        }
        j := j + 1;
      }
    }

    /** `startUpdateDB_` and `updateRandom_`, up to a number of draws. All stored faces are valid and pairwise
        different, all are of the mask, and every face drawn is the same as a stored one; the buffer is full
        unless the draws are used up. */
    method UpdateRandom(draws: nat) returns (ghost drawn: seq<CharInfo>)
      modifies this, data
      ensures AllDifferent(data[..], storedSize) && AllKept(drawn, data[..], storedSize)
      ensures forall i :: 0 <= i < storedSize <= data.Length ==> OfMask(HiddenToInfo(data[i]), sex, age, race)
      ensures storedSize <= |drawn| <= draws
      ensures |drawn| < draws ==> storedSize == data.Length
    {
      hide AllDifferent, AllKept, CheckValidInfo, OneBit, OfKind, OfMask, Passes;
      hide SameFace, HiddenToInfo, InfoToHidden, MembersFit, GoodFace;
      storedSize, drawn := 0, [];
      forall i | 0 <= i < data.Length {
        data[i] := Blank();
      }
      NothingStored(data[..]);
      var tries := 0;
      var info: CharInfo := *;
      while storedSize < data.Length && tries < draws
        invariant storedSize <= |drawn| == tries <= draws && storedSize <= data.Length
        invariant AllDifferent(data[..], storedSize) && AllKept(drawn, data[..], storedSize)
        invariant forall i :: 0 <= i < storedSize ==> OfMask(HiddenToInfo(data[i]), sex, age, race)
      {
        ghost var sex', age', race';
        info, sex', age', race' := MakeRandomFace(info, sex, age, race);
        OneBitKept(info);
        KindPasses(info, sex, age, race, sex', age', race');
        info := info.(createID := TEMPORARY_ID);
        ValidMembersFit(info);
        var isSame;
        ghost var at;
        isSame, at := FindSame(info);
        ghost var before := data[..];
        if !isSame {
          StoredFace(info, data[storedSize]);
          OfMaskKept(info, HiddenToInfo(InfoToHidden(info, data[storedSize])), sex, age, race);
          data[storedSize] := InfoToHidden(info, data[storedSize]);
          Stored(before, data[..], storedSize, info, drawn);
          storedSize := storedSize + 1;
        } else {
          Rejected(before, storedSize, info, at, drawn);
        }
        drawn := drawn + [info];
        tries := tries + 1;
      }
    }
  }
}
