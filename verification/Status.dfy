/** Result codes: `RFLErrcode` of include/RVLFaceLib/RFL_Types.h and `NANDResult` of
    include/revolution/NAND/nand.h. */
module Status {
  datatype Errcode = Success | NotAvailable | NANDCommandfail | Loadfail | Fatal | Busy | Broken | DBNodata | WrongParam

  /** The value of an `RFLErrcode`. */
  function Code(e: Errcode): (c: nat) {
    match e
    case Success => 0
    case NotAvailable => 1
    case NANDCommandfail => 2
    case Loadfail => 3
    case Fatal => 5
    case Busy => 6
    case Broken => 7
    case DBNodata => 10
    case WrongParam => 15
  }

  /** `RFLiEndWorking` keeps an earlier error: only Busy and Success give way. */
  function EndStatus(was: Errcode, err: Errcode): Errcode {
    if was == Busy || was == Success then err else was
  }

  const NAND_AUTHENTICATION := -15
  const NAND_OPENFD := -14
  const NAND_NOEXISTS := -12
  const NAND_MAXFILES := -11
  const NAND_MAXFD := -10
  const NAND_MAXBLOCKS := -9
  const NAND_EXISTS := -6
  const NAND_ECC_CRIT := -5
  const NAND_CORRUPT := -4
  const NAND_BUSY := -3
  const NAND_ALLOC_FAILED := -2
  const NAND_ACCESS := -1
  const NAND_OK := 0

  /** How one load ends. The open is refused at once; or the load is lost on its way, possibly after the record was
      read, and nobody hears of it; or it ends with its read and its close. */
  datatype Outcome =
    | Refused(err: Errcode, reason: int)
    | Lost(err: Errcode, reason: int, taken: bool)
    | Ended(read: Errcode, readReason: int, close: Errcode, closeReason: int)

  ghost predicate Possible(o: Outcome) {
    match o
    case Refused(err, _) => err.NANDCommandfail? || err.Fatal?
    case Lost(err, _, _) => err.NANDCommandfail? || err.Fatal?
    case Ended(read, _, close, _) =>
      (read.Success? || read.NANDCommandfail? || read.Loadfail? || read.Fatal?)
      && (close.Success? || close.NANDCommandfail? || close.Fatal?)
  }

  const NO_FAILURE := Ended(Success, 0, Success, 0)

  /** The status after one load whose record was refused or not: a successful close brings back the earlier one. */
  function StatusAfter(o: Outcome, refused: bool): Errcode {
    match o
    case Ended(read, _, close, _) =>
      if close != Success then close else if read == Success && refused then Broken else read
    case _ => o.err
  }

  /** The reason after one load: a successful close puts the code of the status in its place. */
  function ReasonAfter(o: Outcome, refused: bool): int {
    match o
    case Ended(_, _, close, closeReason) => if close != Success then closeReason else Code(StatusAfter(o, refused))
    case _ => o.reason
  }

  // ---------- the loads of one update ----------

  predicate Fails(o: Outcome) {
    !o.Ended? || o.read != Success || o.close != Success
  }

  /** A refused open or a failed close that left the reason busy. A failed read never does: the close that follows
      it replaces the reason. */
  predicate EndsBusy(o: Outcome) {
    match o
    case Refused(err, reason) => err == NANDCommandfail && reason == NAND_BUSY
    case Lost(_, _, _) => false
    case Ended(_, _, close, closeReason) => close == NANDCommandfail && closeReason == NAND_BUSY
  }

  /** The outcome of the load with the given number; those that are not listed succeed. */
  function OutcomeAt(outcomes: seq<Outcome>, i: nat): Outcome {
    if i < |outcomes| then outcomes[i] else NO_FAILURE
  }

  ghost predicate AllPossible(outcomes: seq<Outcome>) {
    forall i :: 0 <= i < |outcomes| ==> Possible(outcomes[i])
  }

  lemma PossibleAt(outcomes: seq<Outcome>, i: nat)
    requires AllPossible(outcomes)
    ensures Possible(OutcomeAt(outcomes, i))
  {
  }

  /** How many of the loads from number i on, before the given limit, succeed before the first that fails. */
  function Good(outcomes: seq<Outcome>, i: nat, limit: nat): (n: nat)
    requires i <= limit
    ensures i <= n <= limit && (forall k :: i <= k < n ==> !Fails(OutcomeAt(outcomes, k)))
    ensures n < limit ==> Fails(OutcomeAt(outcomes, n))
    decreases limit - i
  {
    if i == limit || Fails(OutcomeAt(outcomes, i)) then i else Good(outcomes, i + 1, limit)
  }

  lemma {:induction false} GoodIs(outcomes: seq<Outcome>, i: nat, n: nat, limit: nat)
    requires i <= n <= limit && (forall k :: i <= k < n ==> !Fails(OutcomeAt(outcomes, k)))
    requires n < limit ==> Fails(OutcomeAt(outcomes, n))
    ensures Good(outcomes, i, limit) == n
    decreases n - i
  {
    if i < n {
      GoodIs(outcomes, i + 1, n, limit);
    }
  }
}
