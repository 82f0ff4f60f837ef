/** The members of an info by their bits in the record memory, include/RVLFaceLib/RFLi_Types.h:270-345: each is
    the half-word shifted down and cut to its width. */
module FaceBits {
  import opened Powers
  import opened Words
  import opened CreateIds
  import opened Packing
  import opened Faces

  lemma TailTotals(l: seq<nat>)
    requires 3 <= |l| <= 6
    ensures forall k :: 0 <= k < |l| ==> Total(l[k..]) == l[k] + Total(l[k + 1..])
    ensures Total(l[|l|..]) == 0
  {
    forall k | 0 <= k < |l|
      ensures Total(l[k..]) == l[k] + Total(l[k + 1..])
    {
      assert l[k..][1..] == l[k + 1..];
    }
  }

  lemma SmallPowers()
    ensures Pow2(0) == 1 && Pow2(1) == 2 && Pow2(2) == 4 && Pow2(3) == 8 && Pow2(4) == 0x10 && Pow2(5) == 0x20
    ensures Pow2(6) == 0x40 && Pow2(7) == 0x80 && Pow2(8) == 0x100 && Pow2(9) == 0x200 && Pow2(10) == 0x400
    ensures Pow2(11) == 0x800 && Pow2(12) == 0x1000 && Pow2(13) == 0x2000 && Pow2(14) == 0x4000
    ensures Pow2(15) == 0x8000 && Pow2(16) == 0x1_0000
  {
    Pow16();
  }

  /** A field with its shift and its width. The highest field needs no cut. */
  lemma FieldOf(r: Record, i: nat, k: nat, shift: nat)
    requires Wide16(r) && i < 12 && k < |Layout()[i]| && shift == Total(Layout()[i][k + 1..])
    ensures |Fields(r.words)| == 12 && |Fields(r.words)[i]| == |Layout()[i]|
    ensures Fields(r.words)[i][k] == r.words[i] / Pow2(shift) % Pow2(Layout()[i][k])
    ensures k == 0 ==> Fields(r.words)[i][k] == r.words[i] / Pow2(shift)
  {
    hide Pow2, Down, Low;
    LayoutIs16Bits(i);
    Pow16();
    FieldBits(r.words[i], Layout()[i], k);
    if k == 0 {
      DownIsQuotient(r.words[i], shift);
    }
  }

  lemma Word0(r: Record)
    requires Wide16(r)
    ensures var f, w := Fields(r.words)[0], r.words[0];
            && f[1] == w / 0x4000 % 0x2
            && f[2] == w / 0x400 % 0x10
            && f[3] == w / 0x20 % 0x20
            && f[4] == w / 0x2 % 0x10
            && f[5] == w % 0x2
  {
    hide Pow2, Fields, Total, Unpack;
    var l := Layout()[0];
    TailTotals(l);
    SmallPowers();
    assert Total(l[5..]) == l[5] + Total(l[6..]) == 1;
    assert Total(l[4..]) == l[4] + Total(l[5..]) == 5;
    assert Total(l[3..]) == l[3] + Total(l[4..]) == 10;
    assert Total(l[2..]) == l[2] + Total(l[3..]) == 14;
    assert Total(l[1..]) == l[1] + Total(l[2..]) == 15;
    FieldOf(r, 0, 1, 14);
    FieldOf(r, 0, 2, 10);
    FieldOf(r, 0, 3, 5);
    FieldOf(r, 0, 4, 1);
    FieldOf(r, 0, 5, 0);
  }

  lemma Word1(r: Record)
    requires Wide16(r)
    ensures var f, w := Fields(r.words)[1], r.words[1];
            && f[0] == w / 0x2000
            && f[1] == w / 0x400 % 0x8
            && f[2] == w / 0x40 % 0x10
            && f[4] == w / 0x4 % 0x2
  {
    hide Pow2, Fields, Total, Unpack;
    var l := Layout()[1];
    TailTotals(l);
    SmallPowers();
    assert Total(l[5..]) == l[5] + Total(l[6..]) == 2;
    assert Total(l[4..]) == l[4] + Total(l[5..]) == 3;
    assert Total(l[3..]) == l[3] + Total(l[4..]) == 6;
    assert Total(l[2..]) == l[2] + Total(l[3..]) == 10;
    assert Total(l[1..]) == l[1] + Total(l[2..]) == 13;
    FieldOf(r, 1, 0, 13);
    FieldOf(r, 1, 1, 10);
    FieldOf(r, 1, 2, 6);
    FieldOf(r, 1, 4, 2);
  }

  lemma Word2(r: Record)
    requires Wide16(r)
    ensures var f, w := Fields(r.words)[2], r.words[2];
            && f[0] == w / 0x200
            && f[1] == w / 0x40 % 0x8
            && f[2] == w / 0x20 % 0x2
  {
    hide Pow2, Fields, Total, Unpack;
    var l := Layout()[2];
    TailTotals(l);
    SmallPowers();
    assert Total(l[3..]) == l[3] + Total(l[4..]) == 5;
    assert Total(l[2..]) == l[2] + Total(l[3..]) == 6;
    assert Total(l[1..]) == l[1] + Total(l[2..]) == 9;
    FieldOf(r, 2, 0, 9);
    FieldOf(r, 2, 1, 6);
    FieldOf(r, 2, 2, 5);
  }

  lemma Word3(r: Record)
    requires Wide16(r)
    ensures var f, w := Fields(r.words)[3], r.words[3];
            && f[0] == w / 0x800
            && f[1] == w / 0x40 % 0x20
  {
    hide Pow2, Fields, Total, Unpack;
    var l := Layout()[3];
    TailTotals(l);
    SmallPowers();
    assert Total(l[2..]) == l[2] + Total(l[3..]) == 6;
    assert Total(l[1..]) == l[1] + Total(l[2..]) == 11;
    FieldOf(r, 3, 0, 11);
    FieldOf(r, 3, 1, 6);
  }

  lemma Word4(r: Record)
    requires Wide16(r)
    ensures var f, w := Fields(r.words)[4], r.words[4];
            && f[0] == w / 0x2000
            && f[1] == w / 0x200 % 0x10
            && f[2] == w / 0x10 % 0x20
            && f[3] == w % 0x10
  {
    hide Pow2, Fields, Total, Unpack;
    var l := Layout()[4];
    TailTotals(l);
    SmallPowers();
    assert Total(l[3..]) == l[3] + Total(l[4..]) == 4;
    assert Total(l[2..]) == l[2] + Total(l[3..]) == 9;
    assert Total(l[1..]) == l[1] + Total(l[2..]) == 13;
    FieldOf(r, 4, 0, 13);
    FieldOf(r, 4, 1, 9);
    FieldOf(r, 4, 2, 4);
    FieldOf(r, 4, 3, 0);
  }

  lemma Word5(r: Record)
    requires Wide16(r)
    ensures var f, w := Fields(r.words)[5], r.words[5];
            && f[0] == w / 0x400
            && f[1] == w / 0x20 % 0x20
            && f[2] == w % 0x20
  {
    hide Pow2, Fields, Total, Unpack;
    var l := Layout()[5];
    TailTotals(l);
    SmallPowers();
    assert Total(l[2..]) == l[2] + Total(l[3..]) == 5;
    assert Total(l[1..]) == l[1] + Total(l[2..]) == 10;
    FieldOf(r, 5, 0, 10);
    FieldOf(r, 5, 1, 5);
    FieldOf(r, 5, 2, 0);
  }

  lemma Word6(r: Record)
    requires Wide16(r)
    ensures var f, w := Fields(r.words)[6], r.words[6];
            && f[0] == w / 0x2000
            && f[1] == w / 0x200 % 0x10
            && f[2] == w / 0x20 % 0x10
  {
    hide Pow2, Fields, Total, Unpack;
    var l := Layout()[6];
    TailTotals(l);
    SmallPowers();
    assert Total(l[3..]) == l[3] + Total(l[4..]) == 5;
    assert Total(l[2..]) == l[2] + Total(l[3..]) == 9;
    assert Total(l[1..]) == l[1] + Total(l[2..]) == 13;
    FieldOf(r, 6, 0, 13);
    FieldOf(r, 6, 1, 9);
    FieldOf(r, 6, 2, 5);
  }

  lemma Word7(r: Record)
    requires Wide16(r)
    ensures var f, w := Fields(r.words)[7], r.words[7];
            && f[0] == w / 0x1000
            && f[1] == w / 0x100 % 0x10
            && f[2] == w / 0x8 % 0x20
  {
    hide Pow2, Fields, Total, Unpack;
    var l := Layout()[7];
    TailTotals(l);
    SmallPowers();
    assert Total(l[3..]) == l[3] + Total(l[4..]) == 3;
    assert Total(l[2..]) == l[2] + Total(l[3..]) == 8;
    assert Total(l[1..]) == l[1] + Total(l[2..]) == 12;
    FieldOf(r, 7, 0, 12);
    FieldOf(r, 7, 1, 8);
    FieldOf(r, 7, 2, 3);
  }

  lemma Word8(r: Record)
    requires Wide16(r)
    ensures var f, w := Fields(r.words)[8], r.words[8];
            && f[0] == w / 0x800
            && f[1] == w / 0x200 % 0x4
            && f[2] == w / 0x20 % 0x10
            && f[3] == w % 0x20
  {
    hide Pow2, Fields, Total, Unpack;
    var l := Layout()[8];
    TailTotals(l);
    SmallPowers();
    assert Total(l[3..]) == l[3] + Total(l[4..]) == 5;
    assert Total(l[2..]) == l[2] + Total(l[3..]) == 9;
    assert Total(l[1..]) == l[1] + Total(l[2..]) == 11;
    FieldOf(r, 8, 0, 11);
    FieldOf(r, 8, 1, 9);
    FieldOf(r, 8, 2, 5);
    FieldOf(r, 8, 3, 0);
  }

  lemma Word9(r: Record)
    requires Wide16(r)
    ensures var f, w := Fields(r.words)[9], r.words[9];
            && f[0] == w / 0x1000
            && f[1] == w / 0x200 % 0x8
            && f[2] == w / 0x20 % 0x10
            && f[3] == w % 0x20
  {
    hide Pow2, Fields, Total, Unpack;
    var l := Layout()[9];
    TailTotals(l);
    SmallPowers();
    assert Total(l[3..]) == l[3] + Total(l[4..]) == 5;
    assert Total(l[2..]) == l[2] + Total(l[3..]) == 9;
    assert Total(l[1..]) == l[1] + Total(l[2..]) == 12;
    FieldOf(r, 9, 0, 12);
    FieldOf(r, 9, 1, 9);
    FieldOf(r, 9, 2, 5);
    FieldOf(r, 9, 3, 0);
  }

  lemma Word10(r: Record)
    requires Wide16(r)
    ensures var f, w := Fields(r.words)[10], r.words[10];
            && f[0] == w / 0x4000
            && f[1] == w / 0x1000 % 0x4
            && f[2] == w / 0x200 % 0x8
            && f[3] == w / 0x20 % 0x10
            && f[4] == w % 0x20
  {
    hide Pow2, Fields, Total, Unpack;
    var l := Layout()[10];
    TailTotals(l);
    SmallPowers();
    assert Total(l[4..]) == l[4] + Total(l[5..]) == 5;
    assert Total(l[3..]) == l[3] + Total(l[4..]) == 9;
    assert Total(l[2..]) == l[2] + Total(l[3..]) == 12;
    assert Total(l[1..]) == l[1] + Total(l[2..]) == 14;
    FieldOf(r, 10, 0, 14);
    FieldOf(r, 10, 1, 12);
    FieldOf(r, 10, 2, 9);
    FieldOf(r, 10, 3, 5);
    FieldOf(r, 10, 4, 0);
  }

  lemma Word11(r: Record)
    requires Wide16(r)
    ensures var f, w := Fields(r.words)[11], r.words[11];
            && f[0] == w / 0x8000
            && f[1] == w / 0x800 % 0x10
            && f[2] == w / 0x40 % 0x20
            && f[3] == w / 0x2 % 0x20
  {
    hide Pow2, Fields, Total, Unpack;
    var l := Layout()[11];
    TailTotals(l);
    SmallPowers();
    assert Total(l[4..]) == l[4] + Total(l[5..]) == 1;
    assert Total(l[3..]) == l[3] + Total(l[4..]) == 6;
    assert Total(l[2..]) == l[2] + Total(l[3..]) == 11;
    assert Total(l[1..]) == l[1] + Total(l[2..]) == 15;
    FieldOf(r, 11, 0, 15);
    FieldOf(r, 11, 1, 11);
    FieldOf(r, 11, 2, 6);
    FieldOf(r, 11, 3, 1);
  }

  /** Every member of the info, by its bits. */
  lemma MembersByBits(r: Record, creator: seq<nat>)
    requires Wide16(r)
    ensures var info, w := InfoOf(r, creator), r.words;
            && info.sex == w[0] / 0x4000 % 0x2 && info.bmonth == w[0] / 0x400 % 0x10
            && info.bday == w[0] / 0x20 % 0x20 && info.color == w[0] / 0x2 % 0x10 && info.favorite == w[0] % 0x2
            && info.faceline.kind == w[1] / 0x2000 && info.faceline.color == w[1] / 0x400 % 0x8
            && info.faceline.texture == w[1] / 0x40 % 0x10 && info.localOnly == w[1] / 0x4 % 0x2
            && info.hair.kind == w[2] / 0x200 && info.hair.color == w[2] / 0x40 % 0x8
            && info.hair.flip == w[2] / 0x20 % 0x2
            && info.eyebrow.kind == w[3] / 0x800 && info.eyebrow.rotate == w[3] / 0x40 % 0x20
            && info.eyebrow.color == w[4] / 0x2000 && info.eyebrow.scale == w[4] / 0x200 % 0x10
            && info.eyebrow.y == w[4] / 0x10 % 0x20 && info.eyebrow.x == w[4] % 0x10
            && info.eye.kind == w[5] / 0x400 && info.eye.rotate == w[5] / 0x20 % 0x20 && info.eye.y == w[5] % 0x20
            && info.eye.color == w[6] / 0x2000 && info.eye.scale == w[6] / 0x200 % 0x10
            && info.eye.x == w[6] / 0x20 % 0x10
            && info.nose.kind == w[7] / 0x1000 && info.nose.scale == w[7] / 0x100 % 0x10
            && info.nose.y == w[7] / 0x8 % 0x20
            && info.mouth.kind == w[8] / 0x800 && info.mouth.color == w[8] / 0x200 % 0x4
            && info.mouth.scale == w[8] / 0x20 % 0x10 && info.mouth.y == w[8] % 0x20
            && info.glass.kind == w[9] / 0x1000 && info.glass.color == w[9] / 0x200 % 0x8
            && info.glass.scale == w[9] / 0x20 % 0x10 && info.glass.y == w[9] % 0x20
            && info.beard.mustache == w[10] / 0x4000 && info.beard.kind == w[10] / 0x1000 % 0x4
            && info.beard.color == w[10] / 0x200 % 0x8 && info.beard.scale == w[10] / 0x20 % 0x10
            && info.beard.y == w[10] % 0x20
            && info.mole.kind == w[11] / 0x8000 && info.mole.scale == w[11] / 0x800 % 0x10
            && info.mole.y == w[11] / 0x40 % 0x20 && info.mole.x == w[11] / 0x2 % 0x20
            && info.name == r.name && info.height == r.height && info.build == r.build && info.createID == r.createID
            && info.creator == creator
  {
    hide Fields;
    Word0(r);
    Word1(r);
    Word2(r);
    Word3(r);
    Word4(r);
    Word5(r);
    Word6(r);
    Word7(r);
    Word8(r);
    Word9(r);
    Word10(r);
    Word11(r);
  }

  /** The sex that the table takes over, by its bit. */
  lemma SexByBit(r: Record)
    requires Wide16(r)
    ensures SexOf(r) == r.words[0] / 0x4000 % 2
  {
    hide Fields;
    Word0(r);
  }

  lemma Pow29()
    ensures Pow2(29) == 0x2000_0000 && Pow2(1) == 2
  {
    Pow20();
    Add(20, 9);
    assert Pow2(9) == 0x200;
  }

  lemma TemporaryField(w: U32)
    ensures And(w, 0x2000_0000) != 0 <==> w / 0x2000_0000 % 2 == 1
    ensures w / 0x2000_0000 % 2 == 1 ==> w != 0
  {
    Pow29();
    hide And, Up, Down, Low, Pow2;
    var d := Down(w, 29);
    UpOne(29);
    AndField(w, 1, 29);
    DownIsQuotient(w, 29);
    DownIsQuotient(d, 1);
    UpIsProduct(Low(d, 1), 29);
  }

  /** The kinds of identifiers by the top bits of the first word: bit 29 marks a temporary one, and a permanent one is
      special unless bit 31 is set. */
  lemma IdentifierBits(id: CreateID)
    ensures IsTemporaryID(id) <==> id.hi / 0x2000_0000 % 2 == 1
    ensures IsPermanentID(id) <==> id != NO_ID && id.hi / 0x2000_0000 % 2 == 0
    ensures IsSpecialID(id) <==> IsPermanentID(id) && id.hi < 0x8000_0000
  {
    hide And, Up, Down, Low, Pow2;
    TemporaryField(id.hi);
    AndSign(id.hi);
  }
}
