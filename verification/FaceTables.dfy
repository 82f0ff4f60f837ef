/** The tables of src/RVLFaceLib/RFL_MakeRandomFace.c and the rotation offsets of
    include/RVLFaceLib/RFLi_Config.h. A row stands for sex * 9 + age * 3 + race, with male, child and black
    first; equal rows are written once, and only the entries that can be drawn are listed. */
module FaceTables {
  function FacelineTypes(row: nat): (t: seq<nat>)
    ensures |t| > 0 && forall i :: 0 <= i < |t| ==> t[i] <= 7
  {
    if row <= 2 then
      [0, 0, 0, 1, 1, 1, 2, 3, 4, 5]
    else if row <= 3 then
      [0, 0, 1, 2, 2, 3, 4, 5, 6, 7]
    else if row <= 4 then
      [0, 1, 2, 2, 3, 4, 5, 6, 6, 7]
    else if row <= 6 then
      [0, 0, 1, 2, 2, 3, 4, 5, 6, 7]
    else if row <= 7 then
      [0, 1, 2, 2, 3, 4, 5, 6, 7, 7]
    else if row <= 8 then
      [0, 0, 1, 2, 2, 3, 4, 5, 6, 7]
    else if row <= 11 then
      [0, 0, 0, 1, 1, 1, 2, 3, 4, 5]
    else
      [0, 0, 0, 1, 1, 2, 2, 3, 4, 5]
  }

  function HairTypesOfBoys(row: nat): (t: seq<nat>)
    ensures |t| > 0 && forall i :: 0 <= i < |t| ==> t[i] <= 71
  {
    [13, 23, 30, 31, 32, 33, 34, 35, 36, 37, 38, 40, 43, 44, 45, 47, 48, 49, 50, 51, 52, 54, 56, 57, 64,
     66]
  }

  function HairTypesOfMen(row: nat): (t: seq<nat>)
    ensures |t| > 0 && forall i :: 0 <= i < |t| ==> t[i] <= 71
  {
    if row <= 3 then
      [13, 23, 30, 31, 32, 33, 34, 36, 37, 38, 40, 42, 43, 44, 45, 47, 48, 49, 50, 51, 52, 53, 54, 55, 56,
       58, 59, 60, 64, 65, 66, 67, 68, 70]
    else if row <= 5 then
      [13, 23, 30, 31, 32, 33, 34, 36, 37, 38, 39, 40, 43, 44, 45, 47, 48, 49, 50, 51, 52, 53, 54, 55, 56,
       58, 59, 60, 64, 65, 66, 67, 68, 70]
    else if row <= 6 then
      [13, 23, 30, 36, 37, 41, 45, 47, 51, 53, 54, 55, 58, 59, 65, 67]
    else
      [13, 23, 30, 36, 37, 39, 41, 45, 47, 51, 53, 54, 55, 58, 59, 65, 67]
  }

  function HairTypesOfGirls(row: nat): (t: seq<nat>)
    ensures |t| > 0 && forall i :: 0 <= i < |t| ==> t[i] <= 71
  {
    [0, 1, 2, 3, 4, 5, 6, 8, 9, 10, 11, 12, 13, 14, 15, 16, 17, 18, 19, 20, 21, 22, 24, 25, 26, 28, 46,
     50, 61, 62, 63, 64, 69]
  }

  function HairTypesOfWomen(row: nat): (t: seq<nat>)
    ensures |t| > 0 && forall i :: 0 <= i < |t| ==> t[i] <= 71
  {
    if row <= 12 then
      [0, 1, 2, 3, 4, 5, 6, 7, 8, 9, 10, 11, 12, 13, 14, 15, 16, 17, 18, 19, 20, 21, 22, 24, 25, 26, 27, 29,
       42, 50, 58, 60, 62, 63, 64, 69, 71]
    else if row <= 14 then
      [0, 1, 2, 3, 4, 5, 6, 7, 8, 9, 10, 11, 12, 13, 14, 15, 16, 17, 18, 19, 20, 21, 22, 24, 25, 26, 27, 29,
       50, 58, 60, 62, 63, 64, 69, 71]
    else
      [0, 1, 2, 3, 4, 5, 6, 10, 11, 12, 13, 14, 16, 17, 18, 20, 21, 24, 25, 58, 62, 69]
  }

  function HairTypes(row: nat): (t: seq<nat>)
    ensures |t| > 0 && forall i :: 0 <= i < |t| ==> t[i] <= 71
  {
    if row <= 2 then HairTypesOfBoys(row) else if row <= 8 then HairTypesOfMen(row)
    else if row <= 11 then HairTypesOfGirls(row) else HairTypesOfWomen(row)
  }

  function EyeTypesOfBoys(row: nat): (t: seq<nat>)
    ensures |t| > 0 && forall i :: 0 <= i < |t| ==> t[i] <= 47
  {
    if row <= 1 then
      [2, 3, 5, 7, 8, 9, 11, 12, 13, 15, 16, 18, 27, 29, 32, 34, 36, 38, 39, 41, 43, 47]
    else
      [2, 3, 5, 7, 8, 9, 11, 12, 13, 15, 16, 18, 26, 27, 29, 32, 34, 36, 38, 39, 41, 43, 47]
  }

  function EyeTypesOfMen(row: nat): (t: seq<nat>)
    ensures |t| > 0 && forall i :: 0 <= i < |t| ==> t[i] <= 47
  {
    if row <= 4 then
      [2, 3, 5, 6, 7, 8, 9, 11, 12, 13, 15, 16, 17, 18, 21, 22, 27, 29, 31, 32, 34, 36, 37, 38, 39, 41, 43,
       44, 47]
    else
      [2, 3, 5, 6, 7, 8, 9, 11, 12, 13, 15, 16, 18, 21, 22, 26, 27, 29, 31, 32, 34, 36, 37, 38, 39, 41, 43,
       44, 47]
  }

  function EyeTypesOfOldMen(row: nat): (t: seq<nat>)
    ensures |t| > 0 && forall i :: 0 <= i < |t| ==> t[i] <= 47
  {
    if row <= 7 then
      [2, 3, 5, 7, 8, 9, 11, 12, 13, 14, 15, 16, 17, 18, 21, 22, 31, 32, 34, 36, 37, 39, 41, 44]
    else
      [2, 3, 5, 7, 8, 9, 11, 12, 13, 14, 15, 16, 18, 21, 22, 26, 31, 32, 34, 36, 37, 39, 41, 44]
  }

  function EyeTypesOfGirls(row: nat): (t: seq<nat>)
    ensures |t| > 0 && forall i :: 0 <= i < |t| ==> t[i] <= 47
  {
    if row <= 10 then
      [0, 1, 2, 4, 5, 7, 8, 9, 10, 11, 12, 13, 15, 16, 18, 19, 23, 24, 25, 27, 28, 29, 32, 33, 34, 35, 38,
       39, 40, 41, 42, 45, 46, 47]
    else
      [0, 1, 2, 4, 5, 7, 8, 9, 10, 11, 12, 13, 15, 16, 18, 19, 23, 24, 25, 26, 27, 28, 29, 32, 33, 34, 35,
       38, 39, 40, 41, 42, 45, 46, 47]
  }

  function EyeTypesOfWomen(row: nat): (t: seq<nat>)
    ensures |t| > 0 && forall i :: 0 <= i < |t| ==> t[i] <= 47
  {
    if row <= 13 then
      [0, 1, 2, 4, 5, 6, 7, 8, 9, 10, 11, 12, 13, 15, 16, 17, 18, 19, 20, 21, 23, 24, 25, 27, 28, 29, 30,
       32, 33, 34, 35, 37, 38, 39, 40, 41, 42, 45, 46, 47]
    else
      [0, 1, 2, 4, 5, 6, 7, 8, 9, 10, 11, 12, 13, 15, 16, 18, 19, 20, 21, 23, 24, 25, 26, 27, 28, 29, 30,
       32, 33, 34, 35, 37, 38, 39, 40, 41, 42, 45, 46, 47]
  }

  function EyeTypesOfOldWomen(row: nat): (t: seq<nat>)
    ensures |t| > 0 && forall i :: 0 <= i < |t| ==> t[i] <= 47
  {
    if row <= 16 then
      [1, 2, 5, 7, 8, 9, 11, 12, 13, 14, 15, 16, 17, 18, 21, 32, 34, 37, 39, 41]
    else
      [1, 2, 5, 7, 8, 9, 11, 12, 13, 14, 15, 16, 18, 21, 26, 32, 34, 37, 39, 41]
  }

  function EyeTypes(row: nat): (t: seq<nat>)
    ensures |t| > 0 && forall i :: 0 <= i < |t| ==> t[i] <= 47
  {
    if row <= 2 then EyeTypesOfBoys(row) else if row <= 5 then EyeTypesOfMen(row)
    else if row <= 8 then EyeTypesOfOldMen(row) else if row <= 11 then EyeTypesOfGirls(row)
    else if row <= 14 then EyeTypesOfWomen(row) else EyeTypesOfOldWomen(row)
  }

  function EyebrowTypes(row: nat): (t: seq<nat>)
    ensures |t| > 0 && forall i :: 0 <= i < |t| ==> t[i] <= 23
  {
    if row <= 2 then
      [0, 1, 2, 3, 4, 5, 6, 7, 8, 9, 10, 11, 12, 13, 14, 17, 18, 20]
    else if row <= 5 then
      [0, 1, 2, 3, 4, 5, 6, 7, 8, 9, 10, 11, 12, 13, 14, 15, 16, 17, 18, 19, 20, 21, 22]
    else if row <= 8 then
      [0, 2, 3, 4, 5, 6, 7, 8, 9, 10, 11, 12, 13, 14, 15, 16, 17, 18, 20, 21, 22]
    else if row <= 11 then
      [0, 1, 3, 7, 8, 9, 10, 11, 13]
    else if row <= 14 then
      [0, 1, 3, 7, 8, 9, 10, 11, 13, 15, 19]
    else
      [0, 3, 7, 8, 9, 10, 11, 13, 15]
  }

  function NoseTypes(row: nat): (t: seq<nat>)
    ensures |t| > 0 && forall i :: 0 <= i < |t| ==> t[i] <= 11
  {
    if row <= 2 then
      [0, 1, 2, 3, 4, 5, 7, 8, 10]
    else if row <= 4 then
      [0, 1, 2, 3, 4, 5, 6, 7, 8, 9, 10, 11]
    else if row <= 5 then
      [0, 1, 2, 3, 4, 5, 6, 7, 8, 10, 11]
    else if row <= 7 then
      [0, 1, 2, 3, 4, 5, 6, 7, 8, 9, 10, 11]
    else if row <= 8 then
      [0, 1, 2, 3, 4, 5, 6, 7, 8, 10, 11]
    else if row <= 11 then
      [0, 1, 3, 4, 8, 10]
    else if row <= 13 then
      [0, 1, 3, 4, 6, 8, 9, 10, 11]
    else if row <= 14 then
      [0, 1, 3, 4, 6, 8, 10, 11]
    else if row <= 16 then
      [0, 1, 3, 4, 6, 8, 9, 10, 11]
    else
      [0, 1, 3, 4, 6, 8, 10, 11]
  }

  function MouthTypesOfMen(row: nat): (t: seq<nat>)
    ensures |t| > 0 && forall i :: 0 <= i < |t| ==> t[i] <= 23
  {
    if row <= 0 then
      [0, 2, 3, 6, 7, 8, 9, 10, 12, 14, 15, 17, 18, 19, 21, 22, 23]
    else if row <= 2 then
      [0, 2, 3, 6, 7, 8, 9, 10, 11, 12, 13, 14, 15, 17, 18, 19, 21, 22, 23]
    else if row <= 3 then
      [0, 2, 3, 6, 7, 8, 9, 10, 12, 14, 15, 16, 17, 18, 19, 20, 21, 22, 23]
    else if row <= 5 then
      [0, 2, 3, 6, 7, 8, 9, 10, 11, 12, 13, 14, 15, 16, 17, 18, 19, 20, 21, 22, 23]
    else if row <= 6 then
      [0, 2, 3, 6, 7, 8, 9, 10, 12, 14, 15, 16, 17, 18, 19, 20, 21, 22, 23]
    else
      [0, 2, 3, 6, 7, 8, 9, 10, 11, 12, 13, 14, 15, 16, 17, 18, 19, 20, 21, 22, 23]
  }

  function MouthTypesOfWomen(row: nat): (t: seq<nat>)
    ensures |t| > 0 && forall i :: 0 <= i < |t| ==> t[i] <= 23
  {
    if row <= 9 then
      [0, 1, 2, 3, 4, 5, 6, 7, 8, 9, 12, 14, 15, 17, 18, 19, 21, 22, 23]
    else if row <= 11 then
      [0, 1, 2, 3, 4, 5, 6, 7, 8, 9, 12, 13, 14, 15, 17, 18, 19, 21, 22, 23]
    else if row <= 12 then
      [0, 1, 2, 3, 4, 5, 6, 7, 8, 9, 12, 14, 15, 17, 18, 19, 21, 22, 23]
    else if row <= 14 then
      [0, 1, 2, 3, 4, 5, 6, 7, 8, 9, 12, 13, 14, 15, 17, 18, 19, 21, 22, 23]
    else if row <= 15 then
      [0, 1, 2, 3, 4, 5, 6, 7, 8, 9, 12, 14, 15, 16, 17, 18, 19, 21, 22, 23]
    else
      [0, 1, 2, 3, 4, 5, 6, 7, 8, 9, 12, 13, 14, 15, 16, 17, 18, 19, 21, 22, 23]
  }

  function MouthTypes(row: nat): (t: seq<nat>)
    ensures |t| > 0 && forall i :: 0 <= i < |t| ==> t[i] <= 23
  {
    if row <= 8 then MouthTypesOfMen(row) else MouthTypesOfWomen(row)
  }

  function FaceTexTypesOfMen(row: nat): (t: seq<nat>)
    ensures |t| > 0 && forall i :: 0 <= i < |t| ==> t[i] <= 11
  {
    if row <= 0 then
      [0, 0, 0, 0, 0, 0, 0, 0, 0, 0, 0, 0, 0, 0, 0, 0, 0, 0, 3, 3]
    else if row <= 1 then
      [0, 0, 0, 0, 0, 0, 0, 0, 0, 0, 0, 0, 0, 0, 3, 3, 3, 3, 8, 8]
    else if row <= 2 then
      [0, 0, 0, 0, 0, 0, 0, 0, 0, 0, 0, 0, 0, 0, 0, 0, 0, 0, 3, 3]
    else if row <= 4 then
      [0, 0, 0, 0, 0, 0, 0, 0, 0, 0, 0, 0, 3, 4, 5, 6, 7, 8, 9, 10]
    else if row <= 5 then
      [0, 0, 0, 0, 0, 0, 0, 0, 0, 0, 0, 0, 0, 3, 4, 5, 6, 7, 9, 10]
    else
      [10, 10, 11, 11, 11, 11, 11, 11, 11, 11, 11, 11, 11, 11, 11, 11, 11, 11, 11, 11]
  }

  function FaceTexTypesOfWomen(row: nat): (t: seq<nat>)
    ensures |t| > 0 && forall i :: 0 <= i < |t| ==> t[i] <= 11
  {
    if row <= 9 then
      [0, 0, 0, 0, 0, 0, 0, 0, 0, 0, 0, 0, 0, 0, 0, 0, 3, 3, 4, 4]
    else if row <= 11 then
      [0, 0, 0, 0, 0, 0, 0, 0, 1, 1, 1, 1, 1, 1, 1, 1, 3, 3, 4, 4]
    else if row <= 12 then
      [0, 0, 0, 0, 0, 0, 0, 0, 0, 0, 0, 0, 0, 0, 3, 3, 4, 4, 8, 8]
    else if row <= 13 then
      [0, 0, 1, 1, 1, 1, 1, 1, 1, 1, 1, 1, 2, 2, 2, 2, 4, 4, 8, 8]
    else if row <= 14 then
      [0, 0, 0, 0, 1, 1, 1, 1, 1, 1, 1, 1, 1, 1, 2, 2, 2, 2, 4, 4]
    else
      [10, 10, 11, 11, 11, 11, 11, 11, 11, 11, 11, 11, 11, 11, 11, 11, 11, 11, 11, 11]
  }

  function FaceTexTypes(row: nat): (t: seq<nat>)
    ensures |t| > 0 && forall i :: 0 <= i < |t| ==> t[i] <= 11
  {
    if row <= 8 then FaceTexTypesOfMen(row) else FaceTexTypesOfWomen(row)
  }

  function FaceColors(row: nat): (t: seq<nat>)
    ensures |t| > 0 && forall i :: 0 <= i < |t| ==> t[i] <= 5
  {
    if row <= 0 then
      [2, 2, 4, 4, 4, 4, 5, 5, 5, 5]
    else if row <= 1 then
      [0, 0, 0, 0, 1, 1, 2, 3, 3, 3]
    else if row <= 2 then
      [0, 0, 1, 1, 1, 1, 1, 1, 1, 2]
    else if row <= 3 then
      [2, 2, 4, 4, 4, 4, 5, 5, 5, 5]
    else if row <= 4 then
      [0, 0, 0, 0, 0, 0, 0, 0, 1, 3]
    else
      [0, 0, 0, 0, 0, 0, 0, 0, 1, 1]
  }

  // Rows of hair colours stand for race * 3 + age.

  function HairColorsOfBlack(row: nat): (t: seq<nat>)
    ensures |t| == 20 && forall i :: 0 <= i < |t| ==> t[i] <= 7
  {
    if row <= 1 then
      [0, 0, 0, 0, 0, 0, 0, 0, 0, 0, 0, 0, 0, 0, 0, 0, 0, 0, 0, 0]
    else
      [0, 0, 0, 0, 4, 4, 4, 4, 4, 4, 4, 4, 4, 4, 4, 4, 4, 4, 4, 4]
  }

  function HairColorsOfWhite(row: nat): (t: seq<nat>)
    ensures |t| == 20 && forall i :: 0 <= i < |t| ==> t[i] <= 7
  {
    if row <= 3 then
      [2, 3, 3, 5, 5, 5, 5, 6, 6, 6, 6, 6, 6, 7, 7, 7, 7, 7, 7, 7]
    else if row <= 4 then
      [2, 3, 3, 3, 5, 5, 5, 5, 6, 6, 6, 6, 6, 6, 7, 7, 7, 7, 7, 7]
    else
      [2, 3, 3, 4, 4, 4, 4, 4, 4, 5, 6, 6, 6, 6, 7, 7, 7, 7, 7, 7]
  }

  function HairColorsOfAsian(row: nat): (t: seq<nat>)
    ensures |t| == 20 && forall i :: 0 <= i < |t| ==> t[i] <= 7
  {
    if row <= 6 then
      [0, 0, 0, 0, 0, 0, 0, 0, 0, 0, 0, 0, 0, 0, 1, 1, 1, 1, 1, 1]
    else if row <= 7 then
      [0, 0, 0, 0, 0, 0, 1, 1, 1, 1, 1, 1, 1, 1, 2, 3, 3, 3, 3, 3]
    else
      [4, 4, 4, 4, 4, 4, 4, 4, 4, 4, 4, 4, 4, 4, 4, 4, 4, 4, 4, 4]
  }

  function HairColors(row: nat): (t: seq<nat>)
    ensures |t| == 20 && forall i :: 0 <= i < |t| ==> t[i] <= 7
  {
    if row <= 2 then HairColorsOfBlack(row) else if row <= 5 then HairColorsOfWhite(row) else HairColorsOfAsian(row)
  }

  function EyeColors(row: nat): (t: seq<nat>)
    ensures |t| > 0 && forall i :: 0 <= i < |t| ==> t[i] <= 5
  {
    if row <= 0 then
      [0, 0, 0, 0, 0, 0, 0, 0, 0, 1]
    else if row <= 1 then
      [0, 1, 1, 2, 3, 3, 4, 4, 4, 5]
    else
      [0, 0, 0, 0, 0, 0, 0, 0, 0, 1]
  }

  function EyeRotOffsets(): (t: seq<int>)
    ensures |t| == 50 && t[2] == 28 && t[4] == 29 && forall i :: 0 <= i < 50 ==> 28 <= t[i] <= 29
  {
    [29, 28, 28, 28, 29, 28, 28, 28, 29, 28, 28, 28, 28, 29, 29, 28, 28, 28, 29, 29, 28, 29, 28, 29, 29]
    + [28, 29, 28, 28, 29, 28, 28, 28, 29, 29, 29, 28, 28, 29, 29, 29, 28, 28, 29, 29, 29, 29, 29, 28, 28]
  }

  function EyebrowRotOffsets(): (t: seq<int>)
    ensures |t| == 24 && t[0] == t[6] == 26 && forall i :: 0 <= i < 24 ==> 24 <= t[i] <= 28
  {
    [26, 26, 27, 25, 26, 25, 26, 25, 28, 25, 26, 24, 27, 27, 26, 26, 25, 25, 26, 26, 27, 26, 25, 27]
  }
}
