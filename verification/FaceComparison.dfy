/** The masked comparison of faces in src/RVLFaceLib/RFL_DataUtility.c: it works on the words of an info, and
    compares all members in front of the padding, but the last bit of the glasses' height. */
module FaceComparison {
  import opened Powers
  import opened Words
  import opened Packing
  import opened Faces

  /** The words of an `RFLiCharInfo` that the comparison reads. */
  datatype RawInfo = RawInfo(faceline: nat, hair: nat, eye: nat, eyebrow: nat, nose: nat, mouth: nat, beard: nat,
                             glass: nat, mole: nat)

  /** What the padding bits happen to hold. */
  datatype Padding = Padding(faceline: nat, hair: nat, eye: nat, eyebrow: nat, nose: nat, mole: nat)

  /** `PADMASK`: a word of the given width with its lowest bits clear. */
  function Mask(bits: nat, size: nat): (m: nat)
    requires size <= bits
  {
    Monotone(size, bits);
    Pow2(bits) - Pow2(size)
  }

  /** `RFLiIsSameFaceCore`. */
  predicate IsSameFaceCore(l: RawInfo, r: RawInfo) {
    && And(l.eye, Mask(32, 5)) == And(r.eye, Mask(32, 5))
    && And(l.eyebrow, Mask(32, 6)) == And(r.eyebrow, Mask(32, 6))
    && And(l.mouth, Mask(16, 0)) == And(r.mouth, Mask(16, 0))
    && And(l.beard, Mask(16, 0)) == And(r.beard, Mask(16, 0))
    && And(l.glass, Mask(16, 1)) == And(r.glass, Mask(16, 1))
    && And(l.mole, Mask(16, 1)) == And(r.mole, Mask(16, 1))
    && And(l.nose, Mask(16, 3)) == And(r.nose, Mask(16, 3))
    && And(l.hair, Mask(16, 5)) == And(r.hair, Mask(16, 5))
    && And(l.faceline, Mask(16, 6)) == And(r.faceline, Mask(16, 6))
  }

  lemma Masked(a: nat, bits: nat, size: nat)
    requires size <= bits && a < Pow2(bits)
    ensures And(a, Mask(bits, size)) == Up(Down(a, size), size)
  {
    hide And, Down, Up, Low, Pow2;
    UpOnes(bits - size, size);
    AndShifted(a, Pow2(bits - size) - 1, size);
    AndLow(Down(a, size), bits - size);
    DownBound(a, bits - size, size);
    DownSmall(Down(a, size), bits - size);
  }

  /** Under a mask two words are equal exactly if they are equal without the masked bits. */
  lemma MaskedEqual(a: nat, b: nat, bits: nat, size: nat)
    requires size <= bits && a < Pow2(bits) && b < Pow2(bits)
    ensures And(a, Mask(bits, size)) == And(b, Mask(bits, size)) <==> Down(a, size) == Down(b, size)
  {
    hide And, Down, Up, Low, Pow2;
    Masked(a, bits, size);
    Masked(b, bits, size);
    UpMonotone(Down(a, size), Down(b, size), size);
    UpMonotone(Down(b, size), Down(a, size), size);
  }

  lemma PaddedFits(v: seq<nat>, p: nat, widths: seq<nat>, size: nat)
    requires Fits(v, widths) && p < Pow2(size)
    ensures Fits(v + [p], widths + [size])
  {
  }

  /** One word of members with padding behind them. */
  lemma PaddedWords(v: seq<nat>, v': seq<nat>, widths: seq<nat>, p: nat, p': nat, size: nat, bits: nat)
    requires Fits(v, widths) && Fits(v', widths) && p < Pow2(size) && p' < Pow2(size) && Total(widths) + size == bits
    ensures And(Pack(v + [p], widths + [size]), Mask(bits, size))
         == And(Pack(v' + [p'], widths + [size]), Mask(bits, size))
       <==> v == v'
  {
    hide And, Down, Pack, Total, Mask, Pow2;
    PaddedFits(v, p, widths, size);
    PaddedFits(v', p', widths, size);
    PackBound(v + [p], widths + [size]);
    PackBound(v' + [p'], widths + [size]);
    DropLast(v, widths, p, size);
    DropLast(v', widths, p', size);
    MaskedEqual(Pack(v + [p], widths + [size]), Pack(v' + [p'], widths + [size]), bits, size);
    if Pack(v, widths) == Pack(v', widths) {
      PackInjective(v, v', widths);
    }
  }

  /** One word without padding. */
  lemma FullWords(v: seq<nat>, v': seq<nat>, widths: seq<nat>, bits: nat)
    requires Fits(v, widths) && Fits(v', widths) && Total(widths) == bits
    ensures And(Pack(v, widths), Mask(bits, 0)) == And(Pack(v', widths), Mask(bits, 0)) <==> v == v'
  {
    hide And, Pack, Total, Mask, Pow2;
    PackBound(v, widths);
    PackBound(v', widths);
    MaskedEqual(Pack(v, widths), Pack(v', widths), bits, 0);
    if Pack(v, widths) == Pack(v', widths) {
      PackInjective(v, v', widths);
    }
  }

  lemma {:induction false} PackSnoc(v: seq<nat>, widths: seq<nat>, last: nat, width: nat)
    requires |v| == |widths|
    ensures Pack(v + [last], widths + [width]) == Up(Pack(v, widths), width) + last
    ensures Total(widths + [width]) == Total(widths) + width
  {
    if v == [] {
      assert (v + [last])[1..] == [] && (widths + [width])[1..] == [];
      UpZero(width);
    } else {
      assert (v + [last])[1..] == v[1..] + [last] && (widths + [width])[1..] == widths[1..] + [width];
      PackSnoc(v[1..], widths[1..], last, width);
      UpUp(v[0], Total(widths[1..]), width);
      UpSum(Up(v[0], Total(widths[1..])), Pack(v[1..], widths[1..]), width);
    }
  }

  lemma Shortened(v: seq<nat>, widths: seq<nat>, y: nat, width: nat)
    requires |v| == |widths|
    ensures Down(Pack(v + [y], widths + [width + 1]), 1) == Pack(v + [y / 2], widths + [width])
    ensures Total(widths + [width + 1]) == Total(widths) + width + 1
  {
    hide Pack, Total;
    PackSnoc(v, widths, y, width + 1);
    PackSnoc(v, widths, y / 2, width);
    assert Down(Pack(v + [y], widths + [width + 1]), 1) == Pack(v + [y], widths + [width + 1]) / 2;
  }

  /** A word whose last member loses its lowest bit. */
  lemma ShortenedWords(v: seq<nat>, v': seq<nat>, widths: seq<nat>, y: nat, y': nat, width: nat, bits: nat)
    requires Fits(v, widths) && Fits(v', widths) && y < Pow2(width + 1) && y' < Pow2(width + 1)
    requires Total(widths) + width + 1 == bits
    ensures And(Pack(v + [y], widths + [width + 1]), Mask(bits, 1))
         == And(Pack(v' + [y'], widths + [width + 1]), Mask(bits, 1))
       <==> v == v' && y / 2 == y' / 2
  {
    assert Pow2(width + 1) == 2 * Pow2(width);
    hide And, Pack, Total, Mask, Pow2, Down;
    PaddedFits(v, y, widths, width + 1);
    PaddedFits(v', y', widths, width + 1);
    PackBound(v + [y], widths + [width + 1]);
    PackBound(v' + [y'], widths + [width + 1]);
    Shortened(v, widths, y, width);
    Shortened(v', widths, y', width);
    MaskedEqual(Pack(v + [y], widths + [width + 1]), Pack(v' + [y'], widths + [width + 1]), bits, 1);
    PaddedFits(v, y / 2, widths, width);
    PaddedFits(v', y' / 2, widths, width);
    if Pack(v + [y / 2], widths + [width]) == Pack(v' + [y' / 2], widths + [width]) {
      PackInjective(v + [y / 2], v' + [y' / 2], widths + [width]);
      assert (v + [y / 2])[..|v|] == v && (v' + [y' / 2])[..|v'|] == v';
    }
  }

  // ---------- the words of an info ----------

  function FacelineOf(i: CharInfo): seq<nat> { [i.faceline.kind, i.faceline.color, i.faceline.texture] }
  function HairOf(i: CharInfo): seq<nat> { [i.hair.kind, i.hair.color, i.hair.flip] }
  function EyeOf(e: Eye): seq<nat> { [e.kind, e.color, e.scale, e.rotate, e.x, e.y] }
  function NoseOf(i: CharInfo): seq<nat> { [i.nose.kind, i.nose.scale, i.nose.y] }
  function MouthOf(m: Mouth): seq<nat> { [m.kind, m.color, m.scale, m.y] }
  function GlassOf(m: Mouth): seq<nat> { [m.kind, m.color, m.scale] }
  function BeardOf(i: CharInfo): seq<nat> { [i.beard.mustache, i.beard.kind, i.beard.color, i.beard.scale, i.beard.y] }
  function MoleOf(i: CharInfo): seq<nat> { [i.mole.kind, i.mole.scale, i.mole.x, i.mole.y] }

  const FACELINE: seq<nat> := [3, 3, 4]
  const HAIR: seq<nat> := [7, 3, 1]
  const EYE: seq<nat> := [6, 3, 4, 5, 4, 5]
  const EYEBROW: seq<nat> := [5, 3, 4, 5, 4, 5]
  const NOSE: seq<nat> := [4, 4, 5]
  const MOUTH: seq<nat> := [5, 2, 4, 5]
  const BEARD: seq<nat> := [2, 2, 3, 4, 5]
  const GLASS: seq<nat> := [4, 3, 4]
  const MOLE: seq<nat> := [1, 4, 5, 5]

  /** Every member fits its bit field. */
  predicate MembersFit(i: CharInfo) {
    && Fits(FacelineOf(i), FACELINE) && Fits(HairOf(i), HAIR) && Fits(EyeOf(i.eye), EYE)
    && Fits(EyeOf(i.eyebrow), EYEBROW) && Fits(NoseOf(i), NOSE) && Fits(MouthOf(i.mouth), MOUTH)
    && Fits(BeardOf(i), BEARD) && Fits(GlassOf(i.glass), GLASS) && i.glass.y < Pow2(5) && Fits(MoleOf(i), MOLE)
  }

  predicate PaddingFits(p: Padding) {
    && p.faceline < Pow2(6) && p.hair < Pow2(5) && p.eye < Pow2(5) && p.eyebrow < Pow2(6)
    && p.nose < Pow2(3) && p.mole < Pow2(1)
  }

  /** The memory of an info, with any padding. */
  function RawOf(i: CharInfo, p: Padding): RawInfo {
    RawInfo(
      Pack(FacelineOf(i) + [p.faceline], FACELINE + [6]), Pack(HairOf(i) + [p.hair], HAIR + [5]),
      Pack(EyeOf(i.eye) + [p.eye], EYE + [5]), Pack(EyeOf(i.eyebrow) + [p.eyebrow], EYEBROW + [6]),
      Pack(NoseOf(i) + [p.nose], NOSE + [3]), Pack(MouthOf(i.mouth), MOUTH), Pack(BeardOf(i), BEARD),
      Pack(GlassOf(i.glass) + [i.glass.y], GLASS + [5]), Pack(MoleOf(i) + [p.mole], MOLE + [1]))
  }

  /** The same face, member by member. */
  predicate SameFace(a: CharInfo, b: CharInfo) {
    && a.faceline == b.faceline && a.hair == b.hair && a.eye == b.eye && a.eyebrow == b.eyebrow && a.nose == b.nose
    && a.mouth == b.mouth && a.beard == b.beard && a.mole == b.mole
    && a.glass.(y := 0) == b.glass.(y := 0) && a.glass.y / 2 == b.glass.y / 2
  }

  lemma ListsOfFaceline(a: CharInfo, b: CharInfo)
    ensures FacelineOf(a) == FacelineOf(b) <==> a.faceline == b.faceline
    ensures HairOf(a) == HairOf(b) <==> a.hair == b.hair
    ensures NoseOf(a) == NoseOf(b) <==> a.nose == b.nose
  {
    if FacelineOf(a) == FacelineOf(b) {
      assert FacelineOf(a)[0] == FacelineOf(b)[0] && FacelineOf(a)[1] == FacelineOf(b)[1];
      assert FacelineOf(a)[2] == FacelineOf(b)[2];
    }
    if HairOf(a) == HairOf(b) {
      assert HairOf(a)[0] == HairOf(b)[0] && HairOf(a)[1] == HairOf(b)[1] && HairOf(a)[2] == HairOf(b)[2];
    }
    if NoseOf(a) == NoseOf(b) {
      assert NoseOf(a)[0] == NoseOf(b)[0] && NoseOf(a)[1] == NoseOf(b)[1] && NoseOf(a)[2] == NoseOf(b)[2];
    }
  }

  lemma ListsOfEye(a: Eye, b: Eye)
    ensures EyeOf(a) == EyeOf(b) <==> a == b
  {
    if EyeOf(a) == EyeOf(b) {
      assert EyeOf(a)[0] == EyeOf(b)[0] && EyeOf(a)[1] == EyeOf(b)[1] && EyeOf(a)[2] == EyeOf(b)[2];
      assert EyeOf(a)[3] == EyeOf(b)[3] && EyeOf(a)[4] == EyeOf(b)[4] && EyeOf(a)[5] == EyeOf(b)[5];
    }
  }

  lemma ListsOfMouth(a: Mouth, b: Mouth)
    ensures MouthOf(a) == MouthOf(b) <==> a == b
    ensures GlassOf(a) == GlassOf(b) <==> a.(y := 0) == b.(y := 0)
  {
    if GlassOf(a) == GlassOf(b) {
      assert GlassOf(a)[0] == GlassOf(b)[0] && GlassOf(a)[1] == GlassOf(b)[1];
      assert GlassOf(a)[2] == GlassOf(b)[2];
    }
    if MouthOf(a) == MouthOf(b) {
      assert MouthOf(a)[0] == MouthOf(b)[0] && MouthOf(a)[1] == MouthOf(b)[1] && MouthOf(a)[2] == MouthOf(b)[2];
      assert MouthOf(a)[3] == MouthOf(b)[3];
    }
  }

  lemma ListsOfBeard(a: CharInfo, b: CharInfo)
    ensures BeardOf(a) == BeardOf(b) <==> a.beard == b.beard
    ensures MoleOf(a) == MoleOf(b) <==> a.mole == b.mole
  {
    if BeardOf(a) == BeardOf(b) {
      assert BeardOf(a)[0] == BeardOf(b)[0] && BeardOf(a)[1] == BeardOf(b)[1] && BeardOf(a)[2] == BeardOf(b)[2];
      assert BeardOf(a)[3] == BeardOf(b)[3] && BeardOf(a)[4] == BeardOf(b)[4];
    }
    if MoleOf(a) == MoleOf(b) {
      assert MoleOf(a)[0] == MoleOf(b)[0] && MoleOf(a)[1] == MoleOf(b)[1] && MoleOf(a)[2] == MoleOf(b)[2];
      assert MoleOf(a)[3] == MoleOf(b)[3];
    }
  }

  lemma ListsAreMembers(a: CharInfo, b: CharInfo)
    ensures FacelineOf(a) == FacelineOf(b) <==> a.faceline == b.faceline
    ensures HairOf(a) == HairOf(b) <==> a.hair == b.hair
    ensures EyeOf(a.eye) == EyeOf(b.eye) <==> a.eye == b.eye
    ensures EyeOf(a.eyebrow) == EyeOf(b.eyebrow) <==> a.eyebrow == b.eyebrow
    ensures NoseOf(a) == NoseOf(b) <==> a.nose == b.nose
    ensures MouthOf(a.mouth) == MouthOf(b.mouth) <==> a.mouth == b.mouth
    ensures BeardOf(a) == BeardOf(b) <==> a.beard == b.beard
    ensures GlassOf(a.glass) == GlassOf(b.glass) <==> a.glass.(y := 0) == b.glass.(y := 0)
    ensures MoleOf(a) == MoleOf(b) <==> a.mole == b.mole
  {
    ListsOfFaceline(a, b);
    ListsOfEye(a.eye, b.eye);
    ListsOfEye(a.eyebrow, b.eyebrow);
    ListsOfMouth(a.mouth, b.mouth);
    ListsOfMouth(a.glass, b.glass);
    ListsOfBeard(a, b);
    hide FacelineOf, HairOf, EyeOf, NoseOf, MouthOf, GlassOf, BeardOf, MoleOf;
  }

  lemma Totals()
    ensures Total(FACELINE) == 10 && Total(HAIR) == 11 && Total(NOSE) == 13
    ensures Total(EYE) == 27 && Total(EYEBROW) == 26
    ensures Total(MOUTH) == Total(BEARD) == 16 && Total(GLASS) == 11 && Total(MOLE) == 15
  {
    hide Total;
    TotalOf(FACELINE);
    TotalOf(HAIR);
    TotalOf(NOSE);
    TotalOf(EYE);
    TotalOf(EYEBROW);
    TotalOf(MOUTH);
    TotalOf(BEARD);
    TotalOf(GLASS);
    TotalOf(MOLE);
  }

  /** The masked comparison sees all members, no padding, and not the last bit of the glasses' height. */
  lemma MasksCompareMembers(a: CharInfo, b: CharInfo, p: Padding, q: Padding)
    requires MembersFit(a) && MembersFit(b) && PaddingFits(p) && PaddingFits(q)
    ensures IsSameFaceCore(RawOf(a, p), RawOf(b, q)) <==> SameFace(a, b)
  {
    hide And, Pack, Mask, Pow2, Fits, FacelineOf, HairOf, EyeOf, NoseOf, MouthOf, GlassOf, BeardOf, MoleOf;
    Totals();
    PaddedWords(FacelineOf(a), FacelineOf(b), FACELINE, p.faceline, q.faceline, 6, 16);
    PaddedWords(HairOf(a), HairOf(b), HAIR, p.hair, q.hair, 5, 16);
    PaddedWords(EyeOf(a.eye), EyeOf(b.eye), EYE, p.eye, q.eye, 5, 32);
    PaddedWords(EyeOf(a.eyebrow), EyeOf(b.eyebrow), EYEBROW, p.eyebrow, q.eyebrow, 6, 32);
    PaddedWords(NoseOf(a), NoseOf(b), NOSE, p.nose, q.nose, 3, 16);
    FullWords(MouthOf(a.mouth), MouthOf(b.mouth), MOUTH, 16);
    FullWords(BeardOf(a), BeardOf(b), BEARD, 16);
    ShortenedWords(GlassOf(a.glass), GlassOf(b.glass), GLASS, a.glass.y, b.glass.y, 4, 16);
    PaddedWords(MoleOf(a), MoleOf(b), MOLE, p.mole, q.mole, 1, 16);
    ListsAreMembers(a, b);
  }
}
