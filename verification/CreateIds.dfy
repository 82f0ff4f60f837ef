/** Creator identifiers: two words, tested by the predicates of src/RVLFaceLib/RFL_Database.c. */
module CreateIds {
  import opened Words

  datatype CreateID = CreateID(hi: U32, lo: U32)

  const TEMPORARY: U32 := 0x2000_0000
  const NOT_SPECIAL: U32 := 0x8000_0000

  predicate IsValidID(id: CreateID) {
    id.hi != 0 || id.lo != 0
  }

  predicate IsTemporaryID(id: CreateID) {
    IsValidID(id) && And(id.hi, TEMPORARY) != 0
  }

  predicate IsSpecialID(id: CreateID) {
    IsValidID(id) && !IsTemporaryID(id) && And(id.hi, NOT_SPECIAL) == 0
  }

  /** Invalid and temporary identifiers are the same as nothing, not even themselves. */
  predicate IsSameID(a: CreateID, b: CreateID) {
    IsValidID(a) && IsValidID(b) && !IsTemporaryID(a) && !IsTemporaryID(b) && a.hi == b.hi && a.lo == b.lo
  }

  /** The identifiers that the hidden database holds. */
  predicate IsPermanentID(id: CreateID) {
    IsValidID(id) && !IsTemporaryID(id)
  }

  const NO_ID := CreateID(0, 0)
}
