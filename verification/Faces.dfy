/** Face records: the bit-field layouts of include/RVLFaceLib/RFLi_Types.h, the conversions of
    src/RVLFaceLib/RFL_Database.c and the checks of src/RVLFaceLib/RFL_DataUtility.c. */
module Faces {
  import opened Powers
  import opened Words
  import opened CreateIds
  import opened Packing

  /** `RFLSex`. */
  datatype Sex = Male | Female | AnySex

  datatype Faceline = Faceline(kind: nat, color: nat, texture: nat)
  datatype Hair = Hair(kind: nat, color: nat, flip: nat)
  datatype Eye = Eye(kind: nat, color: nat, scale: nat, rotate: nat, x: nat, y: nat)
  datatype Nose = Nose(kind: nat, scale: nat, y: nat)
  datatype Mouth = Mouth(kind: nat, color: nat, scale: nat, y: nat)
  datatype Beard = Beard(mustache: nat, kind: nat, color: nat, scale: nat, y: nat)
  datatype Mole = Mole(kind: nat, scale: nat, x: nat, y: nat)

  /** `RFLiCharInfo`. Eyes and eyebrows have the same members, and so have mouth and glasses. */
  datatype CharInfo = CharInfo(
    faceline: Faceline, hair: Hair, eye: Eye, eyebrow: Eye, nose: Nose, mouth: Mouth, beard: Beard,
    glass: Mouth, mole: Mole, height: nat, build: nat, name: seq<nat>, creator: seq<nat>,
    sex: nat, bmonth: nat, bday: nat, color: nat, favorite: nat, localOnly: nat, createID: CreateID)

  /** Record memory: the bit-field half-words in address order, and the plain members. The creator
      name exists in `RFLiCharData` only; a hidden record leaves it empty. */
  datatype Record = Record(words: seq<nat>, name: seq<nat>, height: nat, build: nat, createID: CreateID)

  // ---------- layouts ----------

  /** The half-words of `RFLiCharData` at 0x0 and 0x20 to 0x34. */
  function Layout(): (l: seq<seq<nat>>)
    ensures |l| == 12
  {
    [[1, 1, 4, 5, 4, 1],   // padding, sex, birthMonth, birthDay, favoriteColor, favorite
     [3, 3, 4, 3, 1, 2],   // faceType, faceColor, faceTex, padding, localonly, type
     [7, 3, 1, 5],         // hairType, hairColor, hairFlip, padding
     [5, 5, 6],            // eyebrowType, eyebrowRotate, padding
     [3, 4, 5, 4],         // eyebrowColor, eyebrowScale, eyebrowY, eyebrowX
     [6, 5, 5],            // eyeType, eyeRotate, eyeY
     [3, 4, 4, 5],         // eyeColor, eyeScale, eyeX, padding
     [4, 4, 5, 3],         // noseType, noseScale, noseY, padding
     [5, 2, 4, 5],         // mouthType, mouthColor, mouthScale, mouthY
     [4, 3, 4, 5],         // glassType, glassColor, glassScale, glassY
     [2, 2, 3, 4, 5],      // mustacheType, beardType, beardColor, beardScale, beardY
     [1, 4, 5, 5, 1]]      // moleType, moleScale, moleY, moleX, padding
  }

  /** The first half-word of `RFLiHiddenCharData`: one 9-bit `birthPadding` over the birthday. */
  function HiddenFlags(): seq<nat> {
    [1, 1, 9, 4, 1]
  }

  /** A record whose half-words are 16 bits wide. */
  predicate Wide16(r: Record) {
    |r.words| == 12 && |r.name| == 10 && forall i :: 0 <= i < 12 ==> r.words[i] < 0x1_0000
  }

  /** One list of members for each half-word. */
  predicate Shaped(f: seq<seq<nat>>) {
    && |f| == 12
    && |f[0]| == |f[1]| == 6 && |f[2]| == 4 && |f[3]| == 3 && |f[4]| == 4 && |f[5]| == 3
    && |f[6]| == |f[7]| == |f[8]| == |f[9]| == 4 && |f[10]| == |f[11]| == 5
  }

  lemma ShapedByLayout(f: seq<seq<nat>>)
    ensures Shaped(f) <==> |f| == 12 && forall i :: 0 <= i < 12 ==> |f[i]| == |Layout()[i]|
  {
    if |f| == 12 && forall i :: 0 <= i < 12 ==> |f[i]| == |Layout()[i]| {
      assert |f[0]| == |Layout()[0]| && |f[1]| == |Layout()[1]| && |f[2]| == |Layout()[2]|;
      assert |f[3]| == |Layout()[3]| && |f[4]| == |Layout()[4]| && |f[5]| == |Layout()[5]|;
      assert |f[6]| == |Layout()[6]| && |f[7]| == |Layout()[7]| && |f[8]| == |Layout()[8]|;
      assert |f[9]| == |Layout()[9]| && |f[10]| == |Layout()[10]| && |f[11]| == |Layout()[11]|;
    }
  }

  function Fields(words: seq<nat>): (f: seq<seq<nat>>)
    requires |words| == 12
    ensures Shaped(f)
  {
    var f := seq(12, i requires 0 <= i < 12 => Unpack(words[i], Layout()[i]));
    ShapedByLayout(f);
    f
  }

  function Assembled(f: seq<seq<nat>>): (words: seq<nat>)
    requires Shaped(f)
    ensures |words| == 12
  {
    ShapedByLayout(f);
    seq(12, i requires 0 <= i < 12 => Pack(f[i], Layout()[i]))
  }

  predicate FieldsFit(f: seq<seq<nat>>) {
    Shaped(f) && forall i :: 0 <= i < 12 ==> Fits(f[i], Layout()[i])
  }

  lemma TotalOf(l: seq<nat>)
    ensures |l| == 3 ==> Total(l) == l[0] + l[1] + l[2]
    ensures |l| == 4 ==> Total(l) == l[0] + l[1] + l[2] + l[3]
    ensures |l| == 5 ==> Total(l) == l[0] + l[1] + l[2] + l[3] + l[4]
    ensures |l| == 6 ==> Total(l) == l[0] + l[1] + l[2] + l[3] + l[4] + l[5]
  {
    if |l| >= 3 {
      assert Total(l) == l[0] + Total(l[1..]) && Total(l[1..]) == l[1] + Total(l[2..]);
      assert Total(l[2..]) == l[2] + Total(l[3..]);
      if |l| >= 4 {
        assert Total(l[3..]) == l[3] + Total(l[4..]);
        if |l| >= 5 {
          assert Total(l[4..]) == l[4] + Total(l[5..]);
          if |l| == 6 {
            assert Total(l[5..]) == l[5] + Total(l[6..]);
          }
        }
      }
    }
  }

  lemma LayoutIs16Bits(i: nat)
    requires i < 12
    ensures Total(Layout()[i]) == 16
  {
    var l := Layout()[i];
    TotalOf(l);
  }

  /** Storing all bit fields and reading them back. */
  lemma FieldsOfAssembled(f: seq<seq<nat>>)
    requires FieldsFit(f)
    ensures Fields(Assembled(f)) == f
    ensures forall i :: 0 <= i < 12 ==> Assembled(f)[i] < 0x1_0000
  {
    hide Pack, Unpack, Layout;
    forall i | 0 <= i < 12
      ensures Fields(Assembled(f))[i] == f[i] && Assembled(f)[i] < 0x1_0000
    {
      UnpackPack(f[i], Layout()[i]);
      PackBound(f[i], Layout()[i]);
      LayoutIs16Bits(i);
      Pow16();
    }
  }

  lemma AssembledFields(words: seq<nat>)
    requires |words| == 12 && forall i :: 0 <= i < 12 ==> words[i] < 0x1_0000
    ensures FieldsFit(Fields(words)) && Assembled(Fields(words)) == words
  {
    hide Pack, Unpack, Layout;
    forall i | 0 <= i < 12
      ensures Fits(Fields(words)[i], Layout()[i]) && Assembled(Fields(words))[i] == words[i]
    {
      LayoutIs16Bits(i);
      Pow16();
      PackUnpack(words[i], Layout()[i]);
    }
  }

  // ---------- conversions ----------

  /** `convertRaw2InfoCore_`: the members of the info, out of the bit fields. */
  function InfoFrom(f: seq<seq<nat>>, r: Record, creator: seq<nat>): CharInfo
    requires Shaped(f)
  {
    CharInfo(
      Faceline(f[1][0], f[1][1], f[1][2]),
      Hair(f[2][0], f[2][1], f[2][2]),
      Eye(f[5][0], f[6][0], f[6][1], f[5][1], f[6][2], f[5][2]),
      Eye(f[3][0], f[4][0], f[4][1], f[3][1], f[4][3], f[4][2]),
      Nose(f[7][0], f[7][1], f[7][2]),
      Mouth(f[8][0], f[8][1], f[8][2], f[8][3]),
      Beard(f[10][0], f[10][1], f[10][2], f[10][3], f[10][4]),
      Mouth(f[9][0], f[9][1], f[9][2], f[9][3]),
      Mole(f[11][0], f[11][1], f[11][3], f[11][2]),
      r.height, r.build, r.name, creator,
      f[0][1], f[0][2], f[0][3], f[0][4], f[0][5], f[1][4], r.createID)
  }

  /** `RFLiConvertRaw2Info`. */
  function InfoOf(r: Record, creator: seq<nat>): CharInfo
    requires |r.words| == 12
  {
    InfoFrom(Fields(r.words), r, creator)
  }

  /** `convertInfo2RawCore_`: the bit fields out of the members; padding keeps what was there. */
  function FieldsOf(info: CharInfo, was: seq<seq<nat>>): (f: seq<seq<nat>>)
    requires Shaped(was)
    ensures Shaped(f)
  {
    [[was[0][0], info.sex, info.bmonth, info.bday, info.color, info.favorite],
     [info.faceline.kind, info.faceline.color, info.faceline.texture, was[1][3], info.localOnly, was[1][5]],
     [info.hair.kind, info.hair.color, info.hair.flip, was[2][3]],
     [info.eyebrow.kind, info.eyebrow.rotate, was[3][2]],
     [info.eyebrow.color, info.eyebrow.scale, info.eyebrow.y, info.eyebrow.x],
     [info.eye.kind, info.eye.rotate, info.eye.y],
     [info.eye.color, info.eye.scale, info.eye.x, was[6][3]],
     [info.nose.kind, info.nose.scale, info.nose.y, was[7][3]],
     [info.mouth.kind, info.mouth.color, info.mouth.scale, info.mouth.y],
     [info.glass.kind, info.glass.color, info.glass.scale, info.glass.y],
     [info.beard.mustache, info.beard.kind, info.beard.color, info.beard.scale, info.beard.y],
     [info.mole.kind, info.mole.scale, info.mole.y, info.mole.x, was[11][4]]]
  }

  /** `birthPadding = 0` on the first half-word of a hidden record. */
  function ClearBirth(flags: nat): nat {
    Pack(Unpack(flags, HiddenFlags())[2 := 0], HiddenFlags())
  }

  function NoCreator(): seq<nat> {
    seq(10, _ => 0)
  }

  /** `RFLiConvertHRaw2Info`: the record is read through the layout of `RFLiCharData`; creator and
      birthday are then cleared. */
  function HiddenToInfo(r: Record): CharInfo
    requires |r.words| == 12
  {
    InfoOf(r, NoCreator()).(bmonth := 0, bday := 0)
  }

  /** `RFLiConvertInfo2HRaw`, into memory that held `was`. */
  function InfoToHidden(info: CharInfo, was: Record): (r: Record)
    requires |was.words| == 12
    ensures |r.words| == 12
  {
    var w := Assembled(FieldsOf(info, Fields(was.words)));
    Record(w[0 := ClearBirth(w[0])], info.name, info.height, info.build, info.createID)
  }

  /** `RFLiConvertRaw2HRaw`: a memory copy without the creator, and the birthday cleared. */
  function RawToHidden(r: Record): (h: Record)
    requires |r.words| == 12
    ensures |h.words| == 12
  {
    r.(words := r.words[0 := ClearBirth(r.words[0])])
  }

  lemma PackCons(v: nat, rest: seq<nat>, w: nat, widths: seq<nat>)
    requires |rest| == |widths|
    ensures Pack([v] + rest, [w] + widths) == Up(v, Total(widths)) + Pack(rest, widths)
  {
    assert ([v] + rest)[1..] == rest && ([w] + widths)[1..] == widths;
  }

  lemma SixFields(a: nat, b: nat, c: nat, d: nat, e: nat, f: nat)
    ensures Pack([a, b, c, d, e, f], [1, 1, 4, 5, 4, 1])
         == Up(a, 15) + (Up(b, 14) + (Up(c, 10) + (Up(d, 5) + (Up(e, 1) + f))))
  {
    PackCons(a, [b, c, d, e, f], 1, [1, 4, 5, 4, 1]);
    PackCons(b, [c, d, e, f], 1, [4, 5, 4, 1]);
    PackCons(c, [d, e, f], 4, [5, 4, 1]);
    PackCons(d, [e, f], 5, [4, 1]);
    PackCons(e, [f], 4, [1]);
    PackCons(f, [], 1, []);
    hide Pack, Up;
    TotalOf([1, 4, 5, 4, 1]);
    TotalOf([4, 5, 4, 1]);
    TotalOf([5, 4, 1]);
    assert Total([4, 1]) == 5 && Total([1]) == 1;
  }

  lemma FiveFields(a: nat, b: nat, c: nat, e: nat, f: nat)
    ensures Pack([a, b, c, e, f], HiddenFlags()) == Up(a, 15) + (Up(b, 14) + (Up(c, 5) + (Up(e, 1) + f)))
  {
    PackCons(a, [b, c, e, f], 1, [1, 9, 4, 1]);
    PackCons(b, [c, e, f], 1, [9, 4, 1]);
    PackCons(c, [e, f], 9, [4, 1]);
    PackCons(e, [f], 4, [1]);
    PackCons(f, [], 1, []);
    hide Pack, Up;
    TotalOf([1, 9, 4, 1]);
    TotalOf([9, 4, 1]);
    assert Total([4, 1]) == 5 && Total([1]) == 1;
  }

  /** The nine-bit member lies exactly over the month and the day. */
  lemma BirthOverlay(a: nat, b: nat, c: nat, d: nat, e: nat, f: nat)
    requires Fits([a, b, c, d, e, f], [1, 1, 4, 5, 4, 1])
    ensures Pack([a, b, c, d, e, f], [1, 1, 4, 5, 4, 1]) == Pack([a, b, 32 * c + d, e, f], HiddenFlags())
    ensures Fits([a, b, 32 * c + d, e, f], HiddenFlags())
  {
    hide Up;
    var v := [a, b, c, d, e, f];
    assert v[0] < Pow2(1) && v[1] < Pow2(1) && v[2] < Pow2(4) && v[3] < Pow2(5) && v[4] < Pow2(4) && v[5] < Pow2(1);
    assert Pow2(9) == 512 && Pow2(4) == 16 && Pow2(5) == 32;
    hide Pack, Up;
    SixFields(a, b, c, d, e, f);
    FiveFields(a, b, 32 * c + d, e, f);
    UpIsProduct(c, 5);
    UpUp(c, 5, 5);
    UpSum(Up(c, 5), d, 5);
  }

  // ---------- round trips ----------

  /** Every member of the info fits its bit field, and the name has its ten characters. */
  predicate InfoFits(info: CharInfo) {
    |info.name| == 10 && FieldsFit(FieldsOf(info, Fields(seq(12, _ => 0))))
  }

  lemma ClearedPack(a: nat, b: nat, c: nat, e: nat, f: nat, w: nat)
    requires Fits([a, b, c, e, f], HiddenFlags()) && w == Pack([a, b, c, e, f], HiddenFlags())
    ensures ClearBirth(w) == Pack([a, b, 32 * 0 + 0, e, f], HiddenFlags())
  {
    hide Pack, Unpack;
    UnpackPack([a, b, c, e, f], HiddenFlags());
    assert [a, b, c, e, f][2 := 0] == [a, b, 0, e, f];
  }

  /** Clearing `birthPadding` clears month and day and nothing else. */
  lemma ClearBirthFields(w: nat)
    requires w < 0x1_0000
    ensures ClearBirth(w) < 0x1_0000
    ensures Unpack(ClearBirth(w), Layout()[0]) == Unpack(w, Layout()[0])[2 := 0][3 := 0]
  {
    var l := Layout()[0];
    Pow16();
    LayoutIs16Bits(0);
    PackUnpack(w, l);
    var f := Unpack(w, l);
    var cleared := [f[0], f[1], 0, 0, f[4], f[5]];
    hide Pack, Unpack;
    assert f == [f[0], f[1], f[2], f[3], f[4], f[5]] && cleared == f[2 := 0][3 := 0];
    assert Fits(cleared, l);
    BirthOverlay(f[0], f[1], f[2], f[3], f[4], f[5]);
    BirthOverlay(f[0], f[1], 0, 0, f[4], f[5]);
    ClearedPack(f[0], f[1], 32 * f[2] + f[3], f[4], f[5], w);
    UnpackPack(cleared, l);
    PackBound(cleared, l);
  }

  /** The members with month and day zero. */
  function Birthless(f: seq<seq<nat>>): (g: seq<seq<nat>>)
    requires Shaped(f)
    ensures Shaped(g)
  {
    f[0 := f[0][2 := 0][3 := 0]]
  }

  /** The same on a whole record. */
  lemma ClearBirthRecord(words: seq<nat>)
    requires |words| == 12 && forall i :: 0 <= i < 12 ==> words[i] < 0x1_0000
    ensures Fields(words[0 := ClearBirth(words[0])]) == Birthless(Fields(words))
    ensures ClearBirth(words[0]) < 0x1_0000
  {
    hide Pack, Unpack, ClearBirth, Layout;
    ClearBirthFields(words[0]);
  }

  lemma StoredFieldsFit(info: CharInfo, was: Record)
    requires InfoFits(info) && Wide16(was)
    ensures FieldsFit(FieldsOf(info, Fields(was.words)))
  {
    hide Pack, Unpack, Fields;
    AssembledFields(was.words);
    var z, f := FieldsOf(info, Fields(seq(12, _ => 0))), FieldsOf(info, Fields(was.words));
    var p := Fields(was.words);
    forall i | 0 <= i < 12
      ensures Fits(f[i], Layout()[i])
    {
      assert Fits(z[i], Layout()[i]) && Fits(p[i], Layout()[i]);
    }
  }

  /** The two member-by-member copies undo each other. */
  lemma CopyBack(info: CharInfo, p: seq<seq<nat>>, r: Record)
    requires Shaped(p) && r.name == info.name && r.height == info.height && r.build == info.build
    requires r.createID == info.createID
    ensures InfoFrom(FieldsOf(info, p), r, NoCreator()) == info.(creator := NoCreator())
  {
  }

  lemma ClearedInfo(f: seq<seq<nat>>, r: Record)
    requires Shaped(f)
    ensures InfoFrom(Birthless(f), r, NoCreator()) == InfoFrom(f, r, NoCreator()).(bmonth := 0, bday := 0)
  {
  }

  lemma NameLength(info: CharInfo)
    requires InfoFits(info)
    ensures |info.name| == 10
  {
  }

  /** The bit fields of a stored info: the copied ones, the birthday cleared. */
  lemma StoredFields(info: CharInfo, was: Record)
    requires InfoFits(info) && Wide16(was)
    ensures Wide16(InfoToHidden(info, was))
    ensures Fields(InfoToHidden(info, was).words) == Birthless(FieldsOf(info, Fields(was.words)))
  {
    hide InfoFits, Fields, Assembled, FieldsFit, ClearBirth, FieldsOf, Layout, Birthless;
    StoredFieldsFit(info, was);
    NameLength(info);
    var f := FieldsOf(info, Fields(was.words));
    FieldsOfAssembled(f);
    ClearBirthRecord(Assembled(f));
  }

  lemma SameMembers(info: CharInfo, was: Record)
    requires |was.words| == 12
    ensures var r := InfoToHidden(info, was);
            r.name == info.name && r.height == info.height && r.build == info.build && r.createID == info.createID
  {
  }

  /** Storing an info as a hidden record and reading it back loses the creator and the birthday, and
      nothing else. */
  lemma HiddenRoundTrip(info: CharInfo, was: Record)
    requires InfoFits(info) && Wide16(was)
    ensures HiddenToInfo(InfoToHidden(info, was)) == info.(creator := NoCreator(), bmonth := 0, bday := 0)
    ensures Wide16(InfoToHidden(info, was))
  {
    var p, r := Fields(was.words), InfoToHidden(info, was);
    StoredFields(info, was);
    SameMembers(info, was);
    hide Fields, FieldsOf, InfoFrom, InfoToHidden, Wide16, Layout, Birthless;
    ClearedInfo(FieldsOf(info, p), r);
    CopyBack(info, p, r);
  }

  lemma OtherCreator(f: seq<seq<nat>>, h: Record, r: Record, creator: seq<nat>)
    requires Shaped(f) && h == r.(words := h.words)
    ensures InfoFrom(f, h, NoCreator()) == InfoFrom(f, r, creator).(creator := NoCreator())
  {
  }

  /** A controller record copied to the hidden form reads back as the same info, less the creator and
      the birthday. */
  lemma RawToHiddenInfo(r: Record, creator: seq<nat>)
    requires Wide16(r)
    ensures HiddenToInfo(RawToHidden(r)) == InfoOf(r, creator).(creator := NoCreator(), bmonth := 0, bday := 0)
    ensures Wide16(RawToHidden(r))
  {
    hide Fields, ClearBirth, InfoFrom, Birthless, Layout;
    ClearBirthRecord(r.words);
    ClearedInfo(Fields(r.words), RawToHidden(r));
    OtherCreator(Fields(r.words), RawToHidden(r), r, creator);
  }

  // ---------- validation ----------

  /** `RFLiCheckBirthday`. */
  predicate CheckBirthday(month: nat, day: nat) {
    var max := [0, 31, 29, 31, 30, 31, 30, 31, 31, 30, 31, 30, 31];
    && !(month == 0 && day != 0)
    && !(month != 0 && day == 0)
    && !(month > 12 || day > 31)
    && day <= max[month]
  }

  /** `RFLiCheckValidInfo`. The name test goes through the raw form, which copies the name. */
  predicate CheckValidInfo(info: CharInfo)
    requires |info.name| == 10
  {
    && info.faceline.kind <= 7 && info.faceline.color <= 5 && info.faceline.texture <= 11
    && info.hair.kind <= 71 && info.hair.color <= 7 && info.hair.flip <= 1
    && info.eye.kind <= 47 && info.eye.color <= 5 && info.eye.scale <= 7
    && info.eye.rotate <= 7 && info.eye.x <= 12 && info.eye.y <= 18
    && info.eyebrow.kind <= 23 && info.eyebrow.color <= 7 && info.eyebrow.scale <= 8
    && info.eyebrow.rotate <= 11 && info.eyebrow.x <= 12 && 3 <= info.eyebrow.y <= 18
    && info.nose.kind <= 11 && info.nose.scale <= 8 && info.nose.y <= 18
    && info.mouth.kind <= 23 && info.mouth.color <= 2 && info.mouth.scale <= 8 && info.mouth.y <= 18
    && info.beard.mustache <= 3 && info.beard.kind <= 3 && info.beard.color <= 7
    && info.beard.scale <= 8 && info.beard.y <= 16
    && info.glass.kind <= 8 && info.glass.color <= 5 && info.glass.scale <= 7 && info.glass.y <= 20
    && info.mole.kind <= 1 && info.mole.scale <= 8 && info.mole.x <= 16 && info.mole.y <= 30
    && info.name[0] != 0
    && info.height <= 128 && info.build <= 128
    && info.sex <= 1 && CheckBirthday(info.bmonth, info.bday) && info.color < 12
    && !(IsSpecialID(info.createID) && info.localOnly == 0)
  }

  /** What both hidden-record readers accept: `checkHiddenData_` of RFL_MiddleDatabase.c. */
  predicate CheckHiddenData(r: Record)
    requires Wide16(r)
  {
    IsValidID(r.createID) && CheckValidInfo(HiddenToInfo(r))
  }

  /** Losing the creator and the birthday keeps an info valid. */
  lemma StillValid(info: CharInfo)
    requires |info.name| == 10 && CheckValidInfo(info)
    ensures CheckValidInfo(info.(creator := NoCreator(), bmonth := 0, bday := 0))
  {
  }

  /** A record that a controller passed the check with stays valid in the hidden form: what
      `validBufferFound_` lets in, both readers accept. */
  lemma ControllerRecordReadable(r: Record, creator: seq<nat>)
    requires Wide16(r) && IsValidID(r.createID) && CheckValidInfo(InfoOf(r, creator))
    ensures Wide16(RawToHidden(r)) && CheckHiddenData(RawToHidden(r))
  {
    hide CheckValidInfo;
    RawToHiddenInfo(r, creator);
    StillValid(InfoOf(r, creator));
  }

  // ---------- single members ----------

  function SexOf(r: Record): nat
    requires |r.words| == 12
  {
    Fields(r.words)[0][1]
  }

  function LocalOnlyOf(r: Record): nat
    requires |r.words| == 12
  {
    Fields(r.words)[1][4]
  }

  /** `dst->favorite = FALSE`. */
  function ClearFavorite(r: Record): (c: Record)
    requires |r.words| == 12
    ensures |c.words| == 12 && c == r.(words := c.words)
  {
    r.(words := r.words[0 := Pack(Unpack(r.words[0], HiddenFlags())[4 := 0], HiddenFlags())])
  }

  function Zeros(n: nat): (z: seq<nat>)
    ensures |z| == n && forall i :: 0 <= i < n ==> z[i] == 0
  {
    seq(n, _ => 0)
  }

  /** A record cleared by memset. */
  function Blank(): (r: Record)
    ensures Wide16(r) && r.createID == NO_ID
  {
    Record(Zeros(12), Zeros(10), 0, 0, NO_ID)
  }

  /** Record memory of the size of `RFLiHiddenCharData`. */
  type HiddenRecord = r: Record | Wide16(r) witness Blank()

  lemma ClearFavoriteFields(w: nat)
    requires w < 0x1_0000
    ensures var c := Pack(Unpack(w, HiddenFlags())[4 := 0], HiddenFlags());
            c < 0x1_0000 && Unpack(c, Layout()[0]) == Unpack(w, Layout()[0])[5 := 0]
  {
    hide Pack, Unpack;
    var l := Layout()[0];
    Pow16();
    LayoutIs16Bits(0);
    PackUnpack(w, l);
    var f := Unpack(w, l);
    var cleared := f[5 := 0];
    hide Pack, Unpack;
    assert f == [f[0], f[1], f[2], f[3], f[4], f[5]] && cleared == [f[0], f[1], f[2], f[3], f[4], 0];
    assert Fits(cleared, l);
    BirthOverlay(f[0], f[1], f[2], f[3], f[4], f[5]);
    BirthOverlay(f[0], f[1], f[2], f[3], f[4], 0);
    var v := [f[0], f[1], 32 * f[2] + f[3], f[4], f[5]];
    UnpackPack(v, HiddenFlags());
    assert v[4 := 0] == [f[0], f[1], 32 * f[2] + f[3], f[4], 0];
    UnpackPack(cleared, l);
    PackBound(cleared, l);
  }

  function Unfavored(f: seq<seq<nat>>): (g: seq<seq<nat>>)
    requires Shaped(f)
    ensures Shaped(g)
  {
    f[0 := f[0][5 := 0]]
  }

  lemma FavoriteCleared(r: Record)
    requires Wide16(r)
    ensures Wide16(ClearFavorite(r)) && Fields(ClearFavorite(r).words) == Unfavored(Fields(r.words))
  {
    hide Pack, Unpack, Layout;
    ClearFavoriteFields(r.words[0]);
  }

  lemma FavoriteInfo(f: seq<seq<nat>>, c: Record, r: Record)
    requires Shaped(f) && c == r.(words := c.words)
    ensures InfoFrom(Unfavored(f), c, NoCreator()).(bmonth := 0, bday := 0)
         == InfoFrom(f, r, NoCreator()).(bmonth := 0, bday := 0, favorite := 0)
  {
  }

  /** Clearing the favorite mark leaves every other member alone. */
  lemma ClearFavoriteInfo(r: Record)
    requires Wide16(r)
    ensures Wide16(ClearFavorite(r)) && HiddenToInfo(ClearFavorite(r)) == HiddenToInfo(r).(favorite := 0)
  {
    ClearFavoriteFields(r.words[0]);
    hide Fields, InfoFrom, Layout, Pack, Unpack;
    FavoriteCleared(r);
    FavoriteInfo(Fields(r.words), ClearFavorite(r), r);
  }
}
