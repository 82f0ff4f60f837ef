# Wii Play: hidden database, checksums and math kernels

A Dafny model of three parts of the Wii Play decompilation, with proofs of what they are for.

* **The face database** (`src/RVLFaceLib`). The hidden database keeps its entries in a table whose slots are threaded
  into a doubly linked list. The model proves that the table is a bounded first-in first-out queue of identifiers
  (`HiddenTable`), that table and file together are such a queue of records, in which a known record is rewritten in
  place (`RecordQueue`), that a batch of writes keeps table, file and cache to it (`HiddenWriter`), that the
  synchronous and the callback-driven readers page through the list once, in order, in either direction, and exactly
  which entries are lost when loads fail (`Pages`, `PageWalks`, `PageReader`), that the random reader samples without
  repetition although seeds and records share one buffer (`RandomPage`, `RandomReader`), what the clock decides about
  the sample (`ShuffleDraws`), and that writer and readers fit together, from any controller memory to the pages or the
  samples (`WriteThenRead`). Below that lie the bit-field layouts and conversions (`Packing`, `Faces`, `FaceBits`), the
  masked comparison of faces (`FaceComparison`), the screening of controller data (`Controller`), and the random faces
  (`FaceTables`, `RandomFaces`). `Witnesses` holds inputs on which the code falls short.
* **Checksum and request protocol.** The CRC-16 with the generator x^16 + x^12 + x^5 + 1 (`Crc`), its alarm-driven
  forms (`CrcAlarm`), the state machine of NAND requests and completions (`NandAccess`), and a load of the page readers
  on top of it (`LoadProtocol`).
* **Math kernels** (`src/MSL`). Correctly rounded square root (`Sqrt`), exact remainder (`Fmod`), floor, ceil and modf
  (`Floors`), and the limb arithmetic of the reduction modulo pi/2 (`RemPio2`), over `Powers`, `Words` and `Doubles`.

`CrossSymbols` is the backtracking search of `tools/cross_symbol.py`.

A finite double is a pair of 32-bit words; its value is an integer in units of 2^-1074. Machine words are subset types,
so every assignment carries the proof that it does not overflow, and wrap-around is written out. Shifts by 32 give 0,
as on the PowerPC. A table has `size` slots, where the program has 10000; the links are 15-bit signed fields
(`include/RVLFaceLib/RFLi_Format.h:15-19`), which bounds it by 0x4000, and `overwrite_` needs a second slot to become
the head. Record memory is the half-words that hold the bit fields and the plain members. The clock, the answers of
the NAND and the padding of uninitialised memory are arbitrary. A C function that does several things in turn is cut
into methods along its phases, and each doc comment names the function or the lines.

The proofs brought out where the code does something other than its comments or its sibling say:

* `src/MSL/e_sqrt.c:109-113` sets errno to EDOM for a positive infinity and for NaN as well; the header lists only
  their results.
* `src/MSL/s_modf.c:62-66` returns a signed zero as the fraction of a NaN.
* `RFLiEndWorking` keeps any earlier error, and the page readers do not start work: a page read synchronously after a
  no-data report still reports no data (`PageReader.MiddleDB.Update`).
* A successful close puts the error code in place of the reason, so the retry of a page that failed as busy is reached
  only when the close itself failed (`PageReader.MiddleDB.LoadFailed`) or a later open was refused. Any other failing
  load loses its entry: the next page starts behind it (`PageWalks.BusyLoads`, `PageWalks.NothingLost`).
* A load whose open fails late, or whose read or close is refused, calls nobody any more, so that a page reader that
  waits for it is never called back (`LoadProtocol.Load`).
* The synchronous sample stops behind the last slot of the table, the asynchronous one before it, with the status
  Broken, unless it is the first draw (`RandomPage.SampleEnds`), so they can take different records
  (`RandomPage.SameSamples`, `Witnesses.SamplesDiffer`). The synchronous one leaves the working flag set and so never
  calls back. Two candidates always change places (`RandomPage.ShuffleOfTwo`), three are only rotated, and in general
  half of all orders never come (`ShuffleDraws.ShuffleOfThree`, `ShuffleDraws.HalfOfTheOrders`).
* The mask for glasses ignores the lowest bit of their height (`FaceComparison.MasksCompareMembers`), as the source
  notes.
* The created checksum is stored only after its callback has run, which sees the field still zero
  (`CrcAlarm.Checksum.RunCreate`).
* Rewriting a known entry does not renew it (`HiddenTable.RewriteDoesNotRenew`), nor does it refresh the sex in the
  table, by which samples are drawn (`RecordQueue.StaleSex`, `Witnesses.SexChanges`, `WriteThenRead.WriteThenSample`).

`dafny verify dfyconfig.toml` checks the project.

## Model

| member | source | states |
|---|---|---|
| `Sqrt.Sqrt` | src/MSL/e_sqrt.c:94-197 | The whole routine: NaN, infinities, zeros and negative numbers as the header promises, with errno; for every positive finite double, normal or subnormal, the result is the correctly rounded square root in the mode in force |
| `Sqrt.ExtractBit` | src/MSL/e_sqrt.c:25-63 | The test bit fits exactly when the root with the bit still squares to at most the number; either way the remainder stays the one of the longer root |
| `Sqrt.RootBitsExtracts` | src/MSL/e_sqrt.c:64-68 | After all bits, root squared <= n < (root + 1) squared, and the remainder is zero exactly when the root is exact |
| `Sqrt.FillHighWord` | src/MSL/e_sqrt.c:125-128 | Moving 21 bits at a time keeps the two-word value, scaled by the count taken off the exponent, and ends with a nonzero high word |
| `Sqrt.RaiseLeadingBit` | src/MSL/e_sqrt.c:129-132 | Shifting by i (0 included, where the shift by 32 gives 0) keeps the scaled value and puts the leading bit at bit 20 |
| `Sqrt.HalveExponent` | src/MSL/e_sqrt.c:136-140 | Doubling on an odd exponent and halving it keeps significand times 2^exponent |
| `Sqrt.Normalize` | src/MSL/e_sqrt.c:122-140 | A positive finite double becomes a significand in [2^52, 2^54) and half an exponent, of the same value |
| `Sqrt.HighBit` | src/MSL/e_sqrt.c:148-158 | One turn of the first loop is one step of the bit-by-bit method on the wide numbers, though only the high words are compared |
| `Sqrt.HighBits` | src/MSL/e_sqrt.c:145-158 | The first loop takes 22 steps of the method |
| `Sqrt.CarryTest` | src/MSL/e_sqrt.c:165-166 | The sign-bit test recognises exactly the carry out of s1 + 2r |
| `Sqrt.SubtractPair` | src/MSL/e_sqrt.c:167-169 | Borrowing by comparison subtracts the two-word numbers |
| `Sqrt.SubtractLow` | src/MSL/e_sqrt.c:167-169 | The branch that subtracts leaves exactly the difference in the two words, the high one not negative |
| `Sqrt.LowBit` | src/MSL/e_sqrt.c:161-175 | One turn of the second loop is one step of the method, with its two-word comparison, carry and borrow |
| `Sqrt.LowBits` | src/MSL/e_sqrt.c:160-175 | The second loop completes the 54 steps |
| `Sqrt.Extract` | src/MSL/e_sqrt.c:142-175 | Both loops together leave the integer root of the significand times 2^54 in (q, q1) and the remainder in (ix0, ix1) |
| `Sqrt.RootOf` | src/MSL/e_sqrt.c:65-68 | The extracted root has 54 bits, and an odd last bit implies a nonzero remainder: the discarded part is never exactly half a unit |
| `Sqrt.RoundWords` | src/MSL/e_sqrt.c:177-189 | The branches on one - tiny and one + tiny, with the carry out of q1, round the 54-bit root to an even number in the direction of the mode |
| `Sqrt.Pack` | src/MSL/e_sqrt.c:190-196 | The packed words have the body of the 53-bit root at its exponent, carry into the exponent included |
| `Sqrt.RoundedBeats` | src/MSL/e_sqrt.c:64-71 | On any scale the rounded root is at least as close as, or for directed modes the best bound against, any competitor |
| `Sqrt.PackedIsRounded` | src/MSL/e_sqrt.c:177-196 | The packed double is the correctly rounded root among all doubles |
| `Sqrt.RoundingIsUnique` | src/MSL/e_sqrt.c:13-14 | Correct rounding leaves exactly one double |
| `Sqrt.PositiveRoot` | src/MSL/e_sqrt.c:142-196 | Extraction, rounding and packing of a normalised number give the correctly rounded root |
| `Fmod.Fmod` | src/MSL/e_fmod.c:29-140 | All inputs: NaN for y = 0, x not finite or y NaN; x itself for infinite y; otherwise the exact remainder of the magnitudes with the sign of x |
| `Fmod.RemainderLaw` | src/MSL/e_fmod.c:15-17 | The result is x - n * y for an integer n, below |y| in magnitude: section 7.12.10.1 of C99 |
| `Fmod.ResidueIsRemainder` | src/MSL/e_fmod.c:100-112 | The shift-and-subtract steps compute the remainder of a * 2^k by b, with the quotient as witness |
| `Fmod.NaNTest` | src/MSL/e_fmod.c:47-48 | Folding the low word of y into one bit recognises exactly the NaNs |
| `Fmod.BodyComparison` | src/MSL/e_fmod.c:50-54 | Comparing words decides the cases |x| < |y| and |x| = |y| |
| `Fmod.CountShifts` | src/MSL/e_fmod.c:57-62 | The subnormal loop counts the shifts that bring the leading bit to the sign |
| `Fmod.Ilogb` | src/MSL/e_fmod.c:56-72 | The binary exponent of any nonzero finite double |
| `Fmod.Align` | src/MSL/e_fmod.c:74-98 | The significand with its leading bit at bit 20, equal in value to the double, for normal and subnormal inputs |
| `Fmod.SubtractAndShift` | src/MSL/e_fmod.c:103-109 | One turn subtracts if y fits and doubles the two-word number; it reports exactly a zero difference |
| `Fmod.ShiftSubtract` | src/MSL/e_fmod.c:100-112 | The two-word loop computes the residue; leaving early means that it is zero |
| `Fmod.NormalizeRemainder` | src/MSL/e_fmod.c:117-120 | Normalising keeps the value and ends within the exponent range |
| `Fmod.ExactShift` | src/MSL/e_fmod.c:126-134 | The shift to a subnormal result drops only zero bits |
| `Fmod.PackSubnormal` | src/MSL/e_fmod.c:125-136 | All three ranges of the shift give the shifted pair, with the sign of x |
| `Fmod.PackNormal` | src/MSL/e_fmod.c:121-124 | The packed normal result has the body of its significand and exponent, with the sign of x |
| `Fmod.PackRemainder` | src/MSL/e_fmod.c:114-139 | Packing gives a finite double of exactly the remainder |
| `Fmod.RemainderValue` | src/MSL/e_fmod.c:74-112 | The residue of the aligned significands is the remainder of the values |
| `Fmod.Reduce` | src/MSL/e_fmod.c:56-139 | For |x| > |y|: the result is the remainder of the magnitudes, with the sign of x |
| `Floors.Floor` | src/MSL/s_floor.c:32-79 | For every finite double the greatest integral value not above it, with its sign; infinities and NaN as the source passes them on |
| `Floors.Ceil` | src/MSL/s_ceil.c:32-78 | For every finite double the least integral value not below it, with its sign |
| `Floors.FloorCeilDual` | src/MSL/s_ceil.c:32-78 | floor(-x) = -ceil(x), down to both words and the sign of zero |
| `Floors.Modf` | src/MSL/s_modf.c:33-80 | For every finite double the integral part is the truncation, the fraction the exact rest, both with the sign of x; a zero fraction for infinities and NaN |
| `Floors.FractionIsExact` | src/MSL/s_modf.c:57-59 | x minus its integral part is a double, so the subtraction does not round |
| `Floors.RoundHigh` | src/MSL/s_floor.c:50-57 | With the fraction starting in the high word: cut or raised to an integral magnitude, the carry running into the exponent |
| `Floors.RoundLow` | src/MSL/s_floor.c:61-74 | With the fraction in the low word: cut or raised, the carry running into the high word and the exponent |
| `Floors.BodyFraction` | src/MSL/s_floor.c:51-73 | Clearing the fraction bits of a body cuts its value; adding their weight raises it by one, across any carry |
| `Floors.HighMasks` | src/MSL/s_floor.c:51-55 | The masks shifted by j0 select exactly the fraction bits of both words |
| `Floors.LowMasks` | src/MSL/s_floor.c:62-73 | The masks shifted by j0 - 20 select exactly the fraction bits of the low word |
| `Floors.LowRaised` | src/MSL/s_floor.c:68-73 | Unsigned wrap-around tells the carry out of the low word |
| `Floors.SignedRounding` | src/MSL/s_floor.c:54-72 | Raising negative and cutting positive magnitudes is floor; the opposite is ceil |
| `RemPio2.UnitIsPower` | src/MSL/k_rem_pio2.c:200-236 | One unit of the quotient is 2^(24 jz - q0) in the weight of the lowest limb |
| `RemPio2.Distill` | src/MSL/k_rem_pio2.c:193-198 | The limbs and the last carry hold the total of the products, and all limbs have 24 bits |
| `RemPio2.SplitQuotient` | src/MSL/k_rem_pio2.c:200-212 | The total is a number of units, known modulo eight, plus the fraction that is left; ih tells whether the fraction reaches one half |
| `RemPio2.TrimEights` | src/MSL/k_rem_pio2.c:201-204 | Multiples of eight are dropped and the number of whole units above the limbs split off |
| `RemPio2.TrimTop` | src/MSL/k_rem_pio2.c:205-212 | With q0 > 0 the whole units in the last limb are split off too; ih tells whether the highest part reaches one half |
| `RemPio2.FractionHalf` | src/MSL/k_rem_pio2.c:205-214 | A fraction lies below the unit and reaches its half exactly if its highest part does |
| `RemPio2.ComplementLoop` | src/MSL/k_rem_pio2.c:215-223 | The loop complements the limbs, and its carry stays clear exactly if all of them are zero |
| `RemPio2.ComplementValue` | src/MSL/k_rem_pio2.c:214-223 | Limbs and complemented limbs add up to the unit, whatever the carry |
| `RemPio2.MaskTop` | src/MSL/k_rem_pio2.c:224-231 | The masks for q0 = 1 and 2 reduce the complement of the last limb modulo its unit |
| `RemPio2.ComplementedTop` | src/MSL/k_rem_pio2.c:214-231 | With q0 >= 0 the complemented limbs, the last one masked, make up what the fraction lacks to the unit |
| `RemPio2.TakeComplement` | src/MSL/k_rem_pio2.c:214-236 | Loop, mask and rest give 2^(24 jz - q0) minus the old value, the power written out |
| `RemPio2.Reduce` | src/MSL/k_rem_pio2.c:192-236 | The total is n units, modulo eight units, plus or minus the remaining value, which is at most half a unit: n is the nearest quotient |
| `RemPio2.Settle` | src/MSL/k_rem_pio2.c:258-271 | Dropping zero limbs, or breaking the rest into limbs, keeps the value and the weight of the lowest limb and leaves a nonzero highest limb |
| `Crc.FeedByte` | src/RVLFaceLib/RFL_Database.c:650-664 | The inner loop runs the register over the eight bits of a byte, most significant first |
| `Crc.CalculateCRC` | src/RVLFaceLib/RFL_Database.c:644-668 | The checksum of a buffer is the remainder of its bits, as a polynomial, by x^16 + x^12 + x^5 + 1 |
| `Crc.CheckIsRemainder` | src/RVLFaceLib/RFL_Database.c:644-668 | A buffer has exactly one remainder by the generator, and that is its checksum |
| `Crc.GeneratorConstant` | src/RVLFaceLib/RFL_Database.c:653-664 | The constant 0x1021 holds the coefficients of x^12 + x^5 + 1 |
| `Crc.BufferBurst` | src/RVLFaceLib/RFL_Database.c:644-668 | Buffers that differ only within sixteen consecutive bits have the same checksum exactly if they are the same |
| `Crc.BufferOddErrors` | src/RVLFaceLib/RFL_Database.c:644-668 | Buffers that differ in an odd number of bits have different checksums |
| `Crc.Linear` | src/RVLFaceLib/RFL_Database.c:653-664 | The register is linear: the run over a bitwise sum is the sum of the runs |
| `Crc.BurstDetected` | src/RVLFaceLib/RFL_Database.c:644-668 | An error pattern confined to 16 consecutive bits changes the checksum exactly if it is not empty, in messages of any length |
| `Crc.OddErrorsDetected` | src/RVLFaceLib/RFL_Database.c:644-668 | Any error in an odd number of bits changes the checksum |
| `Crc.CheckWithTail` | src/RVLFaceLib/RFL_Database.c:644-668 | The last two bytes enter the checksum unchanged |
| `Crc.StoredChecksumPasses` | src/RVLFaceLib/RFL_Database.c:21-29 | A buffer whose last two bytes hold a value big-endian has checksum zero exactly if the value is the checksum with these bytes zero |
| `Crc.MultiplesVanish` | src/RVLFaceLib/RFL_Database.c:653-664 | Multiples of the generator polynomial have checksum zero |
| `Crc.ChecksumIsRemainder` | src/RVLFaceLib/RFL_Database.c:653-664 | The checksum is the remainder of the division by the generator |
| `CrcAlarm.Checksum.StartCheck` | src/RVLFaceLib/RFL_Database.c:790-807 | The check starts at the head with an empty register and leaves the buffer alone |
| `CrcAlarm.Checksum.StartCreate` | src/RVLFaceLib/RFL_Database.c:720-739 | The creation clears the checksum field, and nothing else, before it starts |
| `CrcAlarm.Checksum.Chunk` | src/RVLFaceLib/RFL_Database.c:681-713 | One alarm reads at most the step size and leaves the checksum of what has been read |
| `CrcAlarm.Checksum.AlarmCheck` | src/RVLFaceLib/RFL_Database.c:741-788 | Either more alarms follow, or the callback has the checksum of the whole buffer |
| `CrcAlarm.Checksum.AlarmCreate` | src/RVLFaceLib/RFL_Database.c:670-718 | Either more alarms follow, or the callback has run, seeing the field still zero, and the checksum is then stored high byte first |
| `CrcAlarm.Checksum.RunCheck` | src/RVLFaceLib/RFL_Database.c:741-788 | For any positive step: as many alarms as the length needs, one callback, with the remainder of the buffer |
| `CrcAlarm.Checksum.RunCreate` | src/RVLFaceLib/RFL_Database.c:670-739 | For any positive step: one callback, and the buffer it leaves passes the boot check, while the one that the callback sees passes only if nothing is left to store |
| `Packing.UnpackPack` | include/RVLFaceLib/RFLi_Types.h:270-345 | Bit fields that fit are read back as stored |
| `Packing.PackUnpack` | include/RVLFaceLib/RFLi_Types.h:270-345 | Every word is made of its bit fields |
| `Packing.DropLast` | src/RVLFaceLib/RFL_DataUtility.c:5-16 | Shifting the padding out of a word leaves the word of the other fields |
| `Packing.FieldBits` | include/RVLFaceLib/RFLi_Types.h:270-345 | A bit field is the word shifted down by the widths behind it, modulo its own width |
| `Faces.FieldsOfAssembled` | src/RVLFaceLib/RFL_Database.c:344-404 | Storing all twelve half-words of a record and reading them back |
| `Faces.AssembledFields` | src/RVLFaceLib/RFL_Database.c:262-324 | Reading all members and storing them again leaves the record |
| `Faces.BirthOverlay` | include/RVLFaceLib/RFLi_Types.h:351-358 | The nine-bit birthPadding of the hidden layout lies exactly over birthMonth and birthDay |
| `Faces.HiddenRoundTrip` | src/RVLFaceLib/RFL_Database.c:334-415 | An info stored as a hidden record reads back the same but for the creator and the birthday |
| `Faces.RawToHiddenInfo` | src/RVLFaceLib/RFL_Database.c:417-422 | A controller record in hidden form reads back as its info without the creator and the birthday |
| `Faces.StillValid` | src/RVLFaceLib/RFL_DataUtility.c:18-171 | Losing creator and birthday keeps an info valid |
| `Faces.ControllerRecordReadable` | src/RVLFaceLib/RFL_Controller.c:83-90 | A record that passes the screening is accepted by both readers once it is in hidden form |
| `Faces.ClearFavoriteInfo` | src/RVLFaceLib/RFL_HiddenDatabase.c:265-267 | Clearing the favorite mark changes no other member |
| `FaceBits.MembersByBits` | include/RVLFaceLib/RFLi_Types.h:270-345 | Every member of an info, by its half-word, its shift and its width |
| `FaceBits.IdentifierBits` | src/RVLFaceLib/RFL_Database.c:522-562 | Temporary, permanent and special identifiers by the bits of their first word |
| `FaceBits.SexByBit` | src/RVLFaceLib/RFL_HiddenDatabase.c:295-301 | The sex that the table takes over is bit 14 of the first half-word |
| `FaceComparison.MaskedEqual` | src/RVLFaceLib/RFL_DataUtility.c:5-16 | Words are equal under a padding mask exactly if they are equal without the padding bits |
| `FaceComparison.ShortenedWords` | src/RVLFaceLib/RFL_DataUtility.c:198-204 | A mask of one bit on a word without padding ignores the lowest bit of its last member |
| `FaceComparison.MasksCompareMembers` | src/RVLFaceLib/RFL_DataUtility.c:177-226 | For any padding contents the masked comparison holds exactly if all members agree, but for the lowest bit of the height of the glasses |
| `RandomFaces.GetRandU32` | src/RVLFaceLib/RFL_MakeRandomFace.c:507-509 | Any number below the bound, as the clock is arbitrary |
| `RandomFaces.GetGlassType` | src/RVLFaceLib/RFL_MakeRandomFace.c:403-458 | Glasses by age |
| `RandomFaces.DrawEye` | src/RVLFaceLib/RFL_MakeRandomFace.c:86-99 | The eye rotation makes up for the offset of the drawn type and neither underflows nor leaves its range, for every type |
| `RandomFaces.DrawEyebrow` | src/RVLFaceLib/RFL_MakeRandomFace.c:101-114 | The same for the eyebrow rotation, by race |
| `RandomFaces.DrawBeard` | src/RVLFaceLib/RFL_MakeRandomFace.c:133-157 | Only grown men have a beard, and every beard is in range |
| `RandomFaces.MakeRandomFaceCore` | src/RVLFaceLib/RFL_MakeRandomFace.c:62-188 | Every drawn face passes the validator and has its parts and colours from the tables of its kind, all of them lowered by the same amount |
| `RandomFaces.MakeRandomFace` | src/RVLFaceLib/RFL_MakeRandomFace.c:5-60 | The kind of the face agrees with the mask wherever the mask names something |
| `RandomFaces.ValidMembersFit` | src/RVLFaceLib/RFL_DataUtility.c:18-171 | The members of a valid info fit the bit fields of the info |
| `RandomFaces.ValidInfoFits` | src/RVLFaceLib/RFL_DataUtility.c:18-171 | The members of a valid info fit the bit fields of the record |
| `RandomFaces.StoredFace` | src/RVLFaceLib/RFL_MiddleDatabase.c:453-456 | A valid info is stored as a record that reads back as the same face and is valid |
| `RandomFaces.RandomFaceDB.IsSame` | src/RVLFaceLib/RFL_MiddleDatabase.c:443-451 | The comparison of the inner loop is the memberwise one, whatever the padding bits of the two infos hold |
| `RandomFaces.RandomFaceDB.FindSame` | src/RVLFaceLib/RFL_MiddleDatabase.c:443-451 | The inner loop finds a stored face that is the same, if there is one |
| `RandomFaces.RandomFaceDB.UpdateRandom` | src/RVLFaceLib/RFL_MiddleDatabase.c:428-460 | All stored faces are valid, pairwise different and of the mask, and every face drawn is the same as a stored one, for every stream of draws |
| `Controller.ValidBufferFound` | src/RVLFaceLib/RFL_Controller.c:75-93 | Every copied record is kept as it is exactly if it has no identifier, or a permanent one and a valid face; every other one is cleared |
| `Controller.WritableExactly` | src/RVLFaceLib/RFL_HiddenDatabase.c:239-251 | The selection takes a record exactly if it has an identifier that is not official, is not local, and is marked as hidden where that is asked for |
| `Controller.WrittenInfo` | src/RVLFaceLib/RFL_HiddenDatabase.c:261-267 | A record is written with all its members but the creator, the birthday and the favorite mark |
| `Controller.EntersExactly` | src/RVLFaceLib/RFL_Controller.c:83-91 | After the screening exactly the records with a permanent identifier and a valid face are left to select from |
| `Controller.SelectedStorable` | src/RVLFaceLib/RFL_HiddenDatabase.c:253-275 | A screened record in hidden form without its favorite mark is fit for the database |
| `Controller.CollectWritable` | src/RVLFaceLib/RFL_HiddenDatabase.c:239-275 | The list holds exactly the records to be written, in ascending order of their numbers, all of them fit for the database |
| `HiddenTable.PushAllBounded` | src/RVLFaceLib/RFL_HiddenDatabase.c:290-309 | Every run keeps the queue of identifiers within its capacity and free of duplicates |
| `HiddenTable.Survives` | src/RVLFaceLib/RFL_HiddenDatabase.c:290-309 | An entry survives as many writes as there are older entries and free slots |
| `HiddenTable.SurvivesExactly` | src/RVLFaceLib/RFL_HiddenDatabase.c:290-309 | With new identifiers only, the entry goes out with exactly the next write |
| `HiddenTable.StaysExactly` | src/RVLFaceLib/RFL_HiddenDatabase.c:290-309 | For any stream of writes, repeats included, an entry stays exactly as long as no more new identifiers come in than there are older entries and free slots |
| `HiddenTable.NewEntrySurvives` | src/RVLFaceLib/RFL_HiddenDatabase.c:290-309 | A new identifier survives at least one write less than the table has slots |
| `HiddenTable.RewriteDoesNotRenew` | src/RVLFaceLib/RFL_HiddenDatabase.c:295-297 | Rewriting the oldest entry of a full table, of any size, does not renew it: the next new identifier drops it |
| `HiddenTable.Pigeonhole` | src/RVLFaceLib/RFL_HiddenDatabase.c:277-288 | A list of distinct slots covers the table exactly if it is as long: eviction is reached only when all slots are linked |
| `HiddenTable.AppendWellFormed` | src/RVLFaceLib/RFL_HiddenDatabase.c:183-207 | Linking a blank slot behind the tail keeps the list well formed: acyclic from head to tail, prev inverse to next, exactly the slots with identifiers, each identifier once |
| `HiddenTable.RecycleWellFormed` | src/RVLFaceLib/RFL_HiddenDatabase.c:154-181 | Moving the head slot behind the tail and refilling it keeps the list well formed |
| `HiddenTable.IdsInTable` | src/RVLFaceLib/RFL_HiddenDatabase.c:360-384 | A permanent identifier is in the table exactly if the list holds it |
| `HiddenTable.HiddenDB.ClearDBBuffer` | src/RVLFaceLib/RFL_Format.c:12-38 | The format leaves the empty list |
| `HiddenTable.HiddenDB.GetFirstBlank` | src/RVLFaceLib/RFL_HiddenDatabase.c:277-288 | The first slot without an identifier, or -1 if there is none |
| `HiddenTable.HiddenDB.Search` | src/RVLFaceLib/RFL_HiddenDatabase.c:360-384 | The first slot with the same identifier, or -1 if there is none |
| `HiddenTable.HiddenDB.Create` | src/RVLFaceLib/RFL_HiddenDatabase.c:183-207 | The new identifier is appended; every other slot keeps its identifier |
| `HiddenTable.HiddenDB.Recycle` | src/RVLFaceLib/RFL_HiddenDatabase.c:160-178 | The assignments relink the head slot behind the tail with its new identifier; all other links and identifiers stay |
| `HiddenTable.HiddenDB.Overwrite` | src/RVLFaceLib/RFL_HiddenDatabase.c:154-181 | Exactly the oldest identifier disappears and its slot is reused for the new one; an empty list is refused with -1 |
| `HiddenTable.HiddenDB.WriteData` | src/RVLFaceLib/RFL_HiddenDatabase.c:290-309 | The table refines the bounded first-in first-out queue, and says which slot changes: none, the first blank one with every slot below it in the list, or the oldest; a new entry gets the sex of its record |
| `HiddenTable.NextInTurn` | src/RVLFaceLib/RFL_HiddenDatabase.c:277-309 | When the slots were taken in turn from slot 0 on, the next new identifier takes the next slot, modulo the size of the table, and so it goes on |
| `RecordQueue.PutIds` | src/RVLFaceLib/RFL_HiddenDatabase.c:290-309 | One write to the queue of records is one write to the queue of identifiers |
| `RecordQueue.PutAllIds` | src/RVLFaceLib/RFL_HiddenDatabase.c:290-309 | The same over any run |
| `RecordQueue.History` | src/RVLFaceLib/RFL_HiddenDatabase.c:154-207 | Over any run, an entry holds the last record written under its identifier and is listed with the sex of the record with which the identifier last came in |
| `RecordQueue.AgreesExactly` | src/RVLFaceLib/RFL_HiddenDatabase.c:154-207 | The sex in the table is that of the record exactly if those two records agree in it |
| `RecordQueue.AgreementKept` | src/RVLFaceLib/RFL_HiddenDatabase.c:295-301 | One write keeps the table right about the sex exactly if it does not change the sex of a known entry |
| `RecordQueue.AgreementThroughout` | src/RVLFaceLib/RFL_HiddenDatabase.c:295-301 | The table stays right throughout a run exactly if no write changes the sex of a known entry |
| `RecordQueue.StaleSex` | src/RVLFaceLib/RFL_HiddenDatabase.c:295-301 | Writing a record of the other sex under a known identifier leaves the table wrong, for every such pair |
| `Witnesses.OtherSex` | src/RVLFaceLib/RFL_HiddenDatabase.c:295-301 | Every record that is fit for the database has a twin of the other sex under the same identifier that is fit, too |
| `Witnesses.PlainStorable` | src/RVLFaceLib/RFL_Controller.c:83-91 | There are records fit for the database, of either sex and under any identifier that is not special |
| `Witnesses.SexChanges` | src/RVLFaceLib/RFL_HiddenDatabase.c:295-301 | For every capacity, two records that are fit for the database leave the table wrong about the sex |
| `Witnesses.PlainEnters` | src/RVLFaceLib/RFL_Controller.c:83-104 | There are controller records that pass the screening and enter the database |
| `Witnesses.SamplesDiffer` | src/RVLFaceLib/RFL_MiddleDatabase.c:255-335 | In full tables of any size, right about every sex and with every record in the file, two candidates one of which is the last slot make the synchronous reader take one record and the asynchronous one two, whatever the clock shows |
| `HiddenWriter.QueueWritten` | src/RVLFaceLib/RFL_HiddenDatabase.c:290-308 | The table change of one write, with the record in its slot, is one write to the queue of records |
| `HiddenWriter.HiddenManager.QueueIds` | src/RVLFaceLib/RFL_HiddenDatabase.c:213-237 | The identifiers of the queue of records are those of the table |
| `HiddenWriter.HiddenManager.WriteData` | src/RVLFaceLib/RFL_HiddenDatabase.c:290-309 | Counting the write under way as done, table and file hold the queue of records after one more write: a known entry takes the new record and keeps its sex in the table, a new one enters last with its own sex; the record goes to the slot of its identifier, for a new one the first that is free or the oldest |
| `HiddenWriter.HiddenManager.Completed` | src/RVLFaceLib/RFL_HiddenDatabase.c:213-237 | On success exactly the slot written changes in the file, and in an enabled cache, to the record written, and the next write starts or the header is saved; on failure nothing changes and the batch ends |
| `HiddenWriter.HiddenManager.WriteBatch` | src/RVLFaceLib/RFL_HiddenDatabase.c:213-309 | For any outcomes: table and file hold the queue after the records up to the first failure, the failing slot aside, and their new identifiers have taken the slots in turn; an enabled cache equals the file; the header is saved once, after exactly as many writes as records, only if none failed |
| `Pages.ReadingLinks` | src/RVLFaceLib/RFL_HiddenDatabase.c:416-456 | The link functions lead along the list in either direction and end with -1 |
| `Pages.LoadedAppend` | src/RVLFaceLib/RFL_MiddleDatabase.c:188-217 | Pages of consecutive stretches join to the page of the whole stretch |
| `Pages.SameSource` | src/RVLFaceLib/RFL_MiddleDatabase.c:219-253 | Where cache and file agree, both readers deliver the same records in the same order |
| `Pages.NothingSkipped` | src/RVLFaceLib/RFL_MiddleDatabase.c:188-217 | Where every record is accepted, none is skipped |
| `Pages.WrittenIsReadable` | src/RVLFaceLib/RFL_HiddenDatabase.c:28-148 | With every linked record in the file, the readers deliver every entry of the table |
| `Pages.FillStep` | src/RVLFaceLib/RFL_MiddleDatabase.c:189-205 | A record counts exactly if it was accepted, since a refused one leaves a cleared place that does not check |
| `Pages.PagesCover` | src/RVLFaceLib/RFL_MiddleDatabase.c:219-253 | k pages cover k times the page size, or all there is |
| `PageReader.DeliveredTest` | src/RVLFaceLib/RFL_HiddenDatabase.c:28-52 | The extra temporary-identifier test of the file reader is implied by the comparison with the table |
| `PageReader.MiddleDB.EndWorking` | src/RVLFaceLib/RFL_NANDAccess.c:113-134 | Only Busy and Success give way to a new status |
| `PageReader.MiddleDB.LoadCached` | src/RVLFaceLib/RFL_HiddenDatabase.c:110-148 | The record goes to the buffer exactly if the cache is enabled and the record accepted; NotAvailable exactly if it is not enabled |
| `PageReader.MiddleDB.StoreCached` | src/RVLFaceLib/RFL_MiddleDatabase.c:195-205 | One turn of the loop extends the page by one slot |
| `PageReader.MiddleDB.LoadHiddenDataSync` | src/RVLFaceLib/RFL_MiddleDatabase.c:188-217 | The loop fills the page with the next stretch of the list |
| `PageReader.MiddleDB.Deliver` | src/RVLFaceLib/RFL_HiddenDatabase.c:21-52 | One load through read, test and close, for any outcome of the commands, with the status and the reason it leaves |
| `PageReader.MiddleDB.TakeRecord` | src/RVLFaceLib/RFL_HiddenDatabase.c:28-52 | A record that was read goes to the buffer exactly if it is accepted, and the status becomes Broken exactly if it is under its identifier and still not accepted |
| `PageReader.MiddleDB.CountAndGoOn` | src/RVLFaceLib/RFL_MiddleDatabase.c:115-147 | After a good load: the count, the next entry of the list, its load or the refusal of it, and the final status at the end |
| `PageReader.MiddleDB.UpdateHDBCallback` | src/RVLFaceLib/RFL_MiddleDatabase.c:107-162 | Count, advance, next load, refusal or final status; one call of the owner when the chain ends, and the cursor set back exactly if it ended as busy |
| `PageReader.MiddleDB.LoadSucceeded` | src/RVLFaceLib/RFL_MiddleDatabase.c:107-147 | One successful load extends the page by one slot and completes it, starts the next load, or ends with the refusal of that load |
| `PageReader.MiddleDB.LoadFailed` | src/RVLFaceLib/RFL_MiddleDatabase.c:107-162 | A failed load counts nothing: the page holds what the loads before have brought, and behind that a record of which only the close failed; the cursor stays at the failed entry, or goes back when the close failed as busy, never after a read that did |
| `PageReader.MiddleDB.LoadHiddenDataAsync` | src/RVLFaceLib/RFL_MiddleDatabase.c:107-162 | For any outcomes of its loads, the callback chain fills the page with the next stretch of the list, or stops at the first load that fails, with one call of the owner unless that load is lost |
| `PageReader.MiddleDB.StartLoads` | src/RVLFaceLib/RFL_MiddleDatabase.c:239-249 | The first load of a page is started, or refused with the cursor already moved |
| `PageReader.MiddleDB.UpdateHiddenOld` | src/RVLFaceLib/RFL_MiddleDatabase.c:219-253 | The next stretch by the loop over the cache, the first load of it from the file, or nothing at the end of the list, without a database, or without a buffer |
| `PageReader.MiddleDB.StepOne` | src/RVLFaceLib/RFL_MiddleDatabase.c:164-186 | With the cursor at position p of the reading order, the step gives the slot at position p + 1, or -1 behind the last entry |
| `PageReader.MiddleDB.StartUpdate` | src/RVLFaceLib/RFL_MiddleDatabase.c:462-480 | The page is cleared and the cursor remembered |
| `PageReader.MiddleDB.Update` | src/RVLFaceLib/RFL_MiddleDatabase.c:508-550 | One update by either reader, for any outcomes of its loads: the next stretch or its front up to the first load that fails, the cursor, the status and the callbacks |
| `PageReader.MiddleDB.PageThrough` | src/RVLFaceLib/RFL_MiddleDatabase.c:219-253 | When no command fails, any number of updates covers the list once, in insertion or reversed order, without gap or repetition; after the last page every update is empty and reports no data |
| `PageReader.MiddleDB.FailingPage` | src/RVLFaceLib/RFL_MiddleDatabase.c:107-253 | One update, for any outcomes of its loads, shows the accepted records of the stretch that the walk adds, and leaves the cursor behind it |
| `PageReader.MiddleDB.PageThroughFailures` | src/RVLFaceLib/RFL_MiddleDatabase.c:107-253 | For any outcomes of all loads of any number of updates, the pages show the accepted records of the list up to the cursor, in order, without the entries that were lost; an update loses at most one |
| `PageWalks.WalkCovers` | src/RVLFaceLib/RFL_MiddleDatabase.c:107-253 | The entries shown are the list up to the cursor without the lost ones, each once and in order |
| `PageWalks.NothingLost` | src/RVLFaceLib/RFL_MiddleDatabase.c:107-253 | The pages show the list without a gap exactly if every update that fails turns back |
| `PageWalks.BusyLoads` | src/RVLFaceLib/RFL_MiddleDatabase.c:149-156 | A busy read, or a refused first open, loses its entry; a busy close does not |
| `WriteThenRead.WriteThenPage` | src/RVLFaceLib/RFL_MiddleDatabase.c:188-253 | A batch of successful writes and then pages: the pages are exactly the records that the bounded queue then holds, in order |
| `WriteThenRead.Transfer` | src/RVLFaceLib/RFL_Controller.c:75-104 | From any controller memory to the pages: which records stay and which are cleared, exactly which of them enter the database, in what order and with which members, and that the pages are exactly the records of the queue |
| `WriteThenRead.WriteThenSample` | src/RVLFaceLib/RFL_MiddleDatabase.c:337-426 | A batch of successful writes and then a sample by either reader: each record is an entry listed under the wanted sex, no two the same, and of that sex exactly if the table is right about it; complete unless the last slot is a candidate |
| `RandomPage.Candidates` | src/RVLFaceLib/RFL_HiddenDatabase.c:458-490 | The slots of the requested sex, ascending, each once |
| `RandomPage.ShuffleKeeps` | src/RVLFaceLib/RFL_MiddleDatabase.c:382-395 | The exchanges rearrange the array and nothing else |
| `RandomPage.ShuffledCandidates` | src/RVLFaceLib/RFL_MiddleDatabase.c:375-395 | The shuffled array holds exactly the slots of the requested sex, each once |
| `RandomPage.ShuffleOfTwo` | src/RVLFaceLib/RFL_MiddleDatabase.c:382-395 | Two candidates always change places: the clock has no influence |
| `RandomPage.Target` | src/RVLFaceLib/RFL_MiddleDatabase.c:385-388 | The partner of a place is another place of the array |
| `ShuffleDraws.TargetReached` | src/RVLFaceLib/RFL_MiddleDatabase.c:385-388 | Every other place is the partner for some value of the generator, for up to 0x10000 candidates |
| `ShuffleDraws.ClockFor` | src/RVLFaceLib/RFL_MiddleDatabase.c:394 | Every value of the generator is reached after any number of steps, from some clock |
| `ShuffleDraws.EveryExchange` | src/RVLFaceLib/RFL_MiddleDatabase.c:382-395 | At every exchange of a run, for some clock, the place changes contents with any other place, and no third one is touched |
| `ShuffleDraws.FirstExchange` | src/RVLFaceLib/RFL_MiddleDatabase.c:350-395 | Which candidate each clock brings to the front at the first exchange, and the value with which the second exchange goes on |
| `ShuffleDraws.FirstDraw` | src/RVLFaceLib/RFL_MiddleDatabase.c:382-395 | Who is drawn first, for every clock and every number of candidates: the one that the first exchange brought to the front, unless a later exchange comes back to it; then the one at the place of the last such exchange |
| `ShuffleDraws.EveryoneFirst` | src/RVLFaceLib/RFL_MiddleDatabase.c:382-395 | With up to six candidates, every one behind the first is drawn first for some clock |
| `ShuffleDraws.ShuffleOfThree` | src/RVLFaceLib/RFL_MiddleDatabase.c:382-395 | Three candidates are only ever rotated, by two bits of the clock |
| `ShuffleDraws.HalfOfTheOrders` | src/RVLFaceLib/RFL_MiddleDatabase.c:382-395 | Half of all orders never come: the number of pairs drawn in the wrong order is odd exactly if the number of candidates is even |
| `RandomPage.SampleStep` | src/RVLFaceLib/RFL_MiddleDatabase.c:255-288 | A record lands only on cells whose seed has been read, and counts exactly if it was accepted |
| `RandomPage.SampleEnds` | src/RVLFaceLib/RFL_MiddleDatabase.c:255-335 | The loop stops behind the last slot of the table, the callback chain before it; they stop at the same place exactly if that slot is not drawn or is the only draw |
| `RandomPage.SamplesAgree` | src/RVLFaceLib/RFL_MiddleDatabase.c:255-335 | Stopping at different places makes a difference to the records exactly if one between them is accepted |
| `RandomPage.SameSamples` | src/RVLFaceLib/RFL_MiddleDatabase.c:255-335 | With every record in the file the two readers take the same records exactly if the last slot of the table is not drawn or is the only draw |
| `RandomPage.SampleOfWritten` | src/RVLFaceLib/RFL_MiddleDatabase.c:337-426 | With every record in the file there is one record for each draw up to the end of the sample, no two with the same identifier; each is an entry listed under the wanted sex, and of that sex exactly if the table is right about it |
| `RandomReader.RandomDB.CountupHiddenDataNum` | src/RVLFaceLib/RFL_HiddenDatabase.c:386-414 | The number of candidates |
| `RandomReader.RandomDB.Collect` | src/RVLFaceLib/RFL_MiddleDatabase.c:375-380 | The array of the candidates, within its bounds |
| `RandomReader.RandomDB.Shuffle` | src/RVLFaceLib/RFL_MiddleDatabase.c:382-395 | The in-place exchanges compute the shuffled array, with the generator started from the clock |
| `RandomReader.RandomDB.PlantSeeds` | src/RVLFaceLib/RFL_MiddleDatabase.c:397-400 | The first words of the records hold the draws, and no record shows an identifier |
| `RandomReader.RandomDB.LoadHiddenRandomSync` | src/RVLFaceLib/RFL_MiddleDatabase.c:255-288 | The loop stores the accepted records of the draws, in order, up to its end; no seed is overwritten before it is read |
| `RandomReader.RandomDB.CountAndGoOn` | src/RVLFaceLib/RFL_MiddleDatabase.c:294-320 | After a good load: the count, the next draw, its load or the refusal of it, and the final status, Broken at the last slot of the table |
| `RandomReader.RandomDB.UpdateHDBRandCallback` | src/RVLFaceLib/RFL_MiddleDatabase.c:290-335 | Count, advance, next load, refusal or final status; one call of the owner when the chain ends |
| `RandomReader.RandomDB.LoadSucceeded` | src/RVLFaceLib/RFL_MiddleDatabase.c:290-335 | One successful load extends the sample by one draw and completes it, starts the next load, or ends with the refusal of that load |
| `RandomReader.RandomDB.LoadFailed` | src/RVLFaceLib/RFL_MiddleDatabase.c:290-335 | A failed load counts nothing: the buffer holds what the loads before have brought, and behind that a record of which only the close failed; the counts are reset exactly if it ended as busy |
| `RandomReader.RandomDB.LoadHiddenRandomAsync` | src/RVLFaceLib/RFL_MiddleDatabase.c:290-335 | For any outcomes of its loads, the callback chain stores the accepted records of the draws, in order, up to its end or up to the first load that fails |
| `RandomReader.RandomDB.LoadFromFile` | src/RVLFaceLib/RFL_MiddleDatabase.c:404-425 | The same from the first load on, which can be refused |
| `RandomReader.RandomDB.Draw` | src/RVLFaceLib/RFL_MiddleDatabase.c:375-400 | The draws of the update are the front of the shuffled candidates, and stand in the buffer as seeds |
| `RandomReader.RandomDB.Update` | src/RVLFaceLib/RFL_MiddleDatabase.c:337-426 | One update by either reader, for any outcomes of its loads, with its status, working flag and callbacks |
| `NandAccess.Access.EndWorkingReason` | src/RVLFaceLib/RFL_NANDAccess.c:113-130 | Only Busy and Success give way to a new status |
| `NandAccess.Access.EndWorkingClose` | src/RVLFaceLib/RFL_NANDAccess.c:91-107 | A successful close restores the earlier error code and puts that code in place of the reason |
| `NandAccess.Access.OpenAsync` | src/RVLFaceLib/RFL_NANDAccess.c:377-451 | Accepted and busy, or refused: with which error and reason, for each answer and whether the file was open |
| `NandAccess.Access.ReadAsync` | src/RVLFaceLib/RFL_NANDAccess.c:566-604 | The same, for a read that starts with a seek |
| `NandAccess.Access.GetLengthAsync` | src/RVLFaceLib/RFL_NANDAccess.c:924-957 | The same, for the length |
| `NandAccess.Access.DeleteAsync` | src/RVLFaceLib/RFL_NANDAccess.c:991-1025 | The same, for a deletion; a missing file is a success |
| `NandAccess.Access.CloseAsync` | src/RVLFaceLib/RFL_NANDAccess.c:866-893 | The same, for a close, which saves the error code first |
| `NandAccess.Access.OpenDone` | src/RVLFaceLib/RFL_NANDAccess.c:193-251 | Each answer with what follows: the file is open exactly on success; a missing file opened for writing is created first; which answers are bearable and which fatal |
| `NandAccess.Access.CreateDone` | src/RVLFaceLib/RFL_NANDAccess.c:253-314 | Each answer with what follows: the created file is opened, or the work ends with one callback, with this error and reason |
| `NandAccess.Access.ReopenDone` | src/RVLFaceLib/RFL_NANDAccess.c:316-375 | Each answer with what follows: the closed file is opened again, or the work ends with one callback, with this error and reason |
| `NandAccess.Access.SeekDone` | src/RVLFaceLib/RFL_NANDAccess.c:504-564 | Each answer with what follows: the read starts exactly at the wanted offset |
| `NandAccess.Access.ReadDone` | src/RVLFaceLib/RFL_NANDAccess.c:453-502 | Each answer with its error and reason: success exactly for the wanted length |
| `NandAccess.Access.CloseDone` | src/RVLFaceLib/RFL_NANDAccess.c:835-864 | Each answer with its error and reason: restored error code and closed file, or an error and the file still marked open |
| `NandAccess.Access.GetLengthDone` | src/RVLFaceLib/RFL_NANDAccess.c:895-922 | Each answer with its error and reason: success exactly if the command succeeded |
| `NandAccess.Access.DeleteDone` | src/RVLFaceLib/RFL_NANDAccess.c:959-989 | Each answer with its error and reason: success if the file is gone, deleted or missing |
| `NandAccess.Access.Run` | src/RVLFaceLib/RFL_NANDAccess.c:193-1025 | For any request and any answers of the NAND: the command under way, or the error and the reason of the end, as the table of the protocol says; a refused request never calls back; an accepted one calls back once, with the work ended; every request but opening for writing ends within two completions, and that one goes on for as long as the answers keep it between create and open |
| `NandAccess.BusyIsBearable` | src/RVLFaceLib/RFL_NANDAccess.c:193-1025 | A busy answer, to any request or command, ends the work with NANDCommandfail and the reason busy |
| `NandAccess.Access.Session` | src/RVLFaceLib/RFL_NANDAccess.c:193-1025 | In any sequence of requests there are exactly as many calls as accepted requests with a callback, and each finds the working flag clear |
| `NandAccess.Access.OpenWithoutEnd` | src/RVLFaceLib/RFL_NANDAccess.c:193-314 | Opening for writing has no bound: for either file, open or not, and every n, there are n answers after which n commands have been finished and the request is still at work |
| `LoadProtocol.ReadThenClose` | src/RVLFaceLib/RFL_HiddenDatabase.c:28-78 | The read and the close of one load as runs of the request protocol: ending and outcome are functions of the answers, and the manager shows the status and the reason of the outcome |
| `LoadProtocol.Load` | src/RVLFaceLib/RFL_HiddenDatabase.c:22-104 | One whole load, from the open on: its ending and its outcome, error and reason included, are functions of the answers, and the manager shows the status and the reason that the page readers take the outcome to leave; only a delivered load calls on; it ends busy exactly if the open was refused as busy or the close of a delivered load ended so |
| `LoadProtocol.LoadBusy` | src/RVLFaceLib/RFL_MiddleDatabase.c:149-156 | The same for the outcome alone: nothing else can set a page back |
| `CrossSymbols.RunLengthIs` | tools/cross_symbol.py:46-56 | A run is as long as its first mismatch, or the end of a list, allows |
| `CrossSymbols.CrossSymbols` | tools/cross_symbol.py:25-63 | The search ends, and returns the length of the longest run that matches the reference from the base on with the address of its first occurrence, or (0, 0) if there is none |

## Left out

- RandomFaces.RandomFaceDB.UpdateRandom: stops after a given number of draws, because the source may draw the same faces for ever; the claims hold for every number.
- HiddenTable.HiddenDB.Overwrite: asks for a new permanent identifier, as its only caller passes, and for a list that is not of one entry, where the source writes through the link -1; the reads of the source in front of its guard on the head are not part of this model.
- HiddenWriter.HiddenManager.WriteBatch: runs on a database that is loaded and open; opening, formatting and the retries of the write path are not part of this model, as those completions can call back while still busy or twice.
- ShuffleDraws.EveryoneFirst: up to six candidates; for more, `ShuffleDraws.FirstDraw` says who comes first for each clock, and `ShuffleDraws.EveryExchange` that the first exchange can bring every candidate to the front, but whether a later exchange then comes back there depends on the orbit of the generator.
- Enabling the cache: nothing under src/RVLFaceLib does it, so an enabled cache is an arbitrary state to start from.
- A critical error of the manager: the page readers run without one; `LoadProtocol.Load` covers a load under one.
- RandomReader.RandomDB.Update: needs a buffer, because the source reads the first seed before any bound test; the seed one past the end, which the callback reads before its bound test without using it, is not read.
- RemPio2.Reduce: the recomputation with more terms, the computation of the products and the floating-point tail are not part of this model; products are below 2^50, as three products of 24-bit factors are.
- NandAccess.Access.Run: requests are started while idle; the contents that a read delivers, and the clearing of its destination on errors, are not part of this model.
- NandAccess.Access.OpenDone: the flag of an open file is what the completions make of it, not the state of the file on the NAND.
- Sqrt.Sqrt: the rounding mode is a parameter, and the additions of one and tiny are replaced by what they show in that mode; NaN results have no payload.
- Floors.Floor: the tests of huge + x are left out, since they hold wherever they are reached.
- CrcAlarm.Checksum.RunCreate: the buffer stays unchanged between alarms.
- Faces.HiddenRoundTrip: the name is ten characters; the terminator of the info form is not part of this model.
- The transcendental kernels (`pow`, `sin`, `cos`, `tan`, `atan`, `asin`, `acos`): polynomial error bounds.
- Drawing, textures, models and display lists, home-button UI, message headers and SDK headers.
- Official and message-board data sources, resource offsets in `RFL_NANDLoader.c`, and the dispatch by data source.
- Directory creation and the write requests of `RFL_NANDAccess.c`.
- `readcallback_`, `errorAndReRead_` and `clearDeleted_` of `RFL_Controller.c`: the controller transfer itself.
- `tools/mass_cross.py`, `tools/match_data.py`, `tools/project.py` and `configure.py`.
