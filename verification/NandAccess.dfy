/** The request protocol of src/RVLFaceLib/RFL_NANDAccess.c. A request starts a command; each completion
    either starts the next command or ends the work and calls back. What the NAND answers is arbitrary. */
module NandAccess {
  import opened Status

  datatype Command = NoCommand | Opening | Creating | Reopening | Seeking | Reading | Closing | Measuring | Deleting
  datatype Mode = Read | Write

  datatype Request = Open(mode: Mode) | ReadFile(size: nat, offset: int) | GetLength | Delete | Close

  /** The answer to a command on completion, and the immediate answer to a command started there. */
  datatype Answer = Answer(result: int, reason: int)

  // ---------- which error each answer stands for ----------

  function SafeOpenError(reason: int): Errcode {
    if reason == NAND_NOEXISTS || reason == NAND_MAXFD || reason == NAND_BUSY || reason == NAND_ALLOC_FAILED
       || reason == NAND_ACCESS then NANDCommandfail else Fatal
  }

  function OpenedError(result: int): Errcode {
    if result == NAND_MAXFILES || result == NAND_MAXFD || result == NAND_MAXBLOCKS || result == NAND_AUTHENTICATION
       || result == NAND_ECC_CRIT || result == NAND_CORRUPT || result == NAND_BUSY || result == NAND_ACCESS
    then NANDCommandfail else Fatal
  }

  /** For `createcallback_` and `close2opencallback_`. */
  function CreatedError(result: int): Errcode {
    if result == NAND_MAXFILES || result == NAND_CORRUPT || result == NAND_BUSY || result == NAND_ALLOC_FAILED
       || result == NAND_ACCESS then NANDCommandfail else Fatal
  }

  function ReadError(result: int): Errcode {
    if result == NAND_ACCESS || result == NAND_ALLOC_FAILED || result == NAND_BUSY || result == NAND_CORRUPT
       || result == NAND_ECC_CRIT then NANDCommandfail else Fatal
  }

  /** For seek and get-length. */
  function SimpleError(result: int): Errcode {
    if result == NAND_BUSY || result == NAND_ALLOC_FAILED || result == NAND_ACCESS then NANDCommandfail else Fatal
  }

  function CloseError(result: int): Errcode {
    if result == NAND_CORRUPT || result == NAND_BUSY || result == NAND_ALLOC_FAILED then NANDCommandfail else Fatal
  }

  function DeleteError(result: int): Errcode {
    if result == NAND_OPENFD || result == NAND_CORRUPT || result == NAND_BUSY || result == NAND_ALLOC_FAILED
       || result == NAND_ACCESS then NANDCommandfail else Fatal
  }

  /** The most completions that can follow a command, unless a file is being opened for writing. */
  function Remaining(c: Command): nat {
    match c
    case Seeking => 2
    case Reopening => 2
    case NoCommand => 0
    case _ => 1
  }

  /** How a read can end. */
  predicate ReadOutcome(e: Errcode) {
    e.Success? || e.NANDCommandfail? || e.Loadfail? || e.Fatal?
  }

  /** The commands of the requests other than open. */
  predicate Bounded(c: Command) {
    c.Seeking? || c.Reading? || c.Closing? || c.Measuring? || c.Deleting?
  }

  /** n answers that keep a file from being opened: it is closed first if it is open, and then found missing and
      created again and again. */
  function Endless(open: bool, n: nat): (answers: seq<Answer>)
    ensures |answers| == n
  {
    seq(n, i requires 0 <= i < n =>
      if (i % 2 == 0) == open then Answer(NAND_OK, NAND_OK) else Answer(NAND_NOEXISTS, NAND_OK))
  }

  function FirstCommand(request: Request): Command {
    match request
    case Open(_) => Opening
    case ReadFile(_, _) => Seeking
    case GetLength => Measuring
    case Delete => Deleting
    case Close => Closing
  }

  /** Whether the answers end an open for reading. A file that is open already is closed first. */
  predicate OpenEnds(wasOpen: bool, first: Answer, answers: seq<Answer>) {
    first.result != NAND_OK
    || |answers| >= if wasOpen && (answers == [] || answers[0] == Answer(NAND_OK, NAND_OK)) then 2 else 1
  }

  /** Whether an open for reading succeeds. */
  predicate Opens(wasOpen: bool, first: Answer, answers: seq<Answer>) {
    && OpenEnds(wasOpen, first, answers) && first.result == NAND_OK
    && if wasOpen then answers[0] == Answer(NAND_OK, NAND_OK) && answers[1].result == NAND_OK
       else answers[0].result == NAND_OK
  }

  /** Whether the answers end a read, which is a seek first. */
  predicate ReadEnds(offset: int, first: Answer, answers: seq<Answer>) {
    first.result != NAND_OK
    || |answers| >= if answers == [] || answers[0] == Answer(offset, NAND_OK) then 2 else 1
  }

  /** Whether a read succeeds. */
  predicate Reads(size: nat, offset: int, first: Answer, answers: seq<Answer>) {
    && ReadEnds(offset, first, answers) && first.result == NAND_OK
    && answers[0] == Answer(offset, NAND_OK) && answers[1].result == size
  }

  // ---------- the protocol as a table ----------

  /** Where a request stands: a command is under way, or the work has ended with an error code and a reason. */
  datatype Progress = On(command: Command) | Done(err: Errcode, reason: int)

  /** An answer that ends the work: after those listed it can be tried again, all others are fatal. */
  ghost function Judged(bearable: set<int>, answer: int): Progress {
    Done(if answer in bearable then NANDCommandfail else Fatal, answer)
  }

  /** What becomes of a request at once. */
  ghost function Started(request: Request, wasOpen: bool, first: Answer): Progress {
    match request
    case Open(mode) =>
      if wasOpen then
        if first.result == NAND_OK then On(Reopening) else Done(NANDCommandfail, first.result)
      else if first.result == NAND_OK then On(Opening)
      else if first.result == NAND_NOEXISTS && mode == Write then
        if first.reason == NAND_OK then On(Creating) else Done(NANDCommandfail, first.reason)
      else Judged({NAND_NOEXISTS, NAND_MAXFD, NAND_BUSY, NAND_ALLOC_FAILED, NAND_ACCESS}, first.result)
    case ReadFile(_, _) =>
      if first.result == NAND_OK then On(Seeking)
      else Judged({NAND_BUSY, NAND_ALLOC_FAILED, NAND_ACCESS}, first.result)
    case GetLength =>
      if first.result == NAND_OK then On(Measuring)
      else Judged({NAND_BUSY, NAND_ALLOC_FAILED, NAND_ACCESS}, first.result)
    case Delete =>
      if first.result == NAND_OK then On(Deleting)
      else if first.result == NAND_NOEXISTS then Done(Success, 0)
      else Judged({NAND_OPENFD, NAND_CORRUPT, NAND_BUSY, NAND_ALLOC_FAILED, NAND_ACCESS}, first.result)
    case Close =>
      if first.result == NAND_OK then On(Closing)
      else Judged({NAND_CORRUPT, NAND_BUSY, NAND_ALLOC_FAILED}, first.result)
  }

  /** What follows a file that was created, or closed to be opened anew. An open that is then refused for good
      leaves the answer to the command before it as the reason. */
  ghost function OpenedNext(a: Answer): Progress {
    if a.reason == NAND_OK then On(Opening)
    else if a.reason in {NAND_NOEXISTS, NAND_MAXFD, NAND_BUSY, NAND_ALLOC_FAILED, NAND_ACCESS} then
      Done(NANDCommandfail, a.reason)
    else Done(Fatal, a.result)
  }

  /** What follows the completion of a command. `was` is the error code from before a close. */
  ghost function Answered(c: Command, request: Request, was: Errcode, a: Answer): Progress {
    match c
    case Opening =>
      if a.result == NAND_OK then Done(Success, 0)
      else if a.result == NAND_NOEXISTS && request == Open(Write) then
        if a.reason == NAND_OK then On(Creating) else Done(NANDCommandfail, a.reason)
      else Judged({NAND_NOEXISTS, NAND_MAXFILES, NAND_MAXFD, NAND_MAXBLOCKS, NAND_AUTHENTICATION, NAND_ECC_CRIT,
                   NAND_CORRUPT, NAND_BUSY, NAND_ACCESS}, a.result)
    case Creating =>
      if a.result == NAND_OK || a.result == NAND_EXISTS then OpenedNext(a)
      else Judged({NAND_MAXFILES, NAND_CORRUPT, NAND_BUSY, NAND_ALLOC_FAILED, NAND_ACCESS}, a.result)
    case Reopening =>
      if a.result == NAND_OK then OpenedNext(a)
      else Judged({NAND_MAXFILES, NAND_CORRUPT, NAND_BUSY, NAND_ALLOC_FAILED, NAND_ACCESS}, a.result)
    case Seeking =>
      if request.ReadFile? && a.result == request.offset then
        if a.reason == NAND_OK then On(Reading)
        else Judged({NAND_ACCESS, NAND_ALLOC_FAILED, NAND_BUSY, NAND_CORRUPT, NAND_ECC_CRIT}, a.reason)
      else if a.result >= NAND_OK then Done(Loadfail, 0)
      else Judged({NAND_BUSY, NAND_ALLOC_FAILED, NAND_ACCESS}, a.result)
    case Reading =>
      if request.ReadFile? && a.result == request.size then Done(Success, 0)
      else if a.result >= NAND_OK then Done(Loadfail, 0)
      else Judged({NAND_ACCESS, NAND_ALLOC_FAILED, NAND_BUSY, NAND_CORRUPT, NAND_ECC_CRIT, NAND_AUTHENTICATION},
                  a.result)
    case Closing =>
      if a.result == NAND_OK then Done(was, Code(was))
      else Judged({NAND_CORRUPT, NAND_BUSY, NAND_ALLOC_FAILED}, a.result)
    case Measuring =>
      if a.result == NAND_OK then Done(Success, 0)
      else Judged({NAND_BUSY, NAND_ALLOC_FAILED, NAND_ACCESS}, a.result)
    case Deleting =>
      if a.result == NAND_OK || a.result == NAND_NOEXISTS then Done(Success, 0)
      else Judged({NAND_OPENFD, NAND_CORRUPT, NAND_BUSY, NAND_ALLOC_FAILED, NAND_ACCESS}, a.result)
    case NoCommand => On(NoCommand)
  }

  /** Where a request stands after further answers. */
  ghost function Followed(p: Progress, request: Request, was: Errcode, answers: seq<Answer>): Progress
    decreases |answers|
  {
    if p.Done? || answers == [] then p
    else Followed(Answered(p.command, request, was, answers[0]), request, was, answers[1..])
  }

  /** Where a request stands after its first answer and those that come on completion. */
  ghost function Reached(request: Request, wasOpen: bool, was: Errcode, first: Answer, answers: seq<Answer>): Progress {
    Followed(Started(request, wasOpen, first), request, was, answers)
  }

  lemma FollowedEnd(p: Progress, request: Request, was: Errcode, answers: seq<Answer>)
    requires p.Done? || answers == []
    ensures Followed(p, request, was, answers) == p
  {
  }

  /** The progress after one answer and after two. */
  lemma FollowedTwice(p: Progress, request: Request, was: Errcode, answers: seq<Answer>)
    ensures Followed(p, request, was, answers) ==
            if p.Done? || answers == [] then p
            else
              var q := Answered(p.command, request, was, answers[0]);
              if q.Done? || |answers| == 1 then q
              else Followed(Answered(q.command, request, was, answers[1]), request, was, answers[2..])
  {
    hide Answered;
    if answers != [] {
      assert answers[1..] != [] ==> answers[1..][0] == answers[1] && answers[1..][1..] == answers[2..];
    }
  }

  lemma OpenReached(wasOpen: bool, was: Errcode, first: Answer, answers: seq<Answer>)
    ensures var p := Reached(Open(Read), wasOpen, was, first, answers);
            && (p.On? <==> !OpenEnds(wasOpen, first, answers))
            && (p.Done? && p.err == Success <==> Opens(wasOpen, first, answers))
  {
    FollowedTwice(Started(Open(Read), wasOpen, first), Open(Read), was, answers);
    hide Followed;
    if |answers| >= 2 {
      var q := Answered(Opening, Open(Read), was, answers[1]);
      FollowedEnd(q, Open(Read), was, answers[2..]);
    }
  }

  lemma ReadReached(request: Request, wasOpen: bool, was: Errcode, first: Answer, answers: seq<Answer>)
    requires request.ReadFile?
    ensures var p := Reached(request, wasOpen, was, first, answers);
            && (p.On? <==> !ReadEnds(request.offset, first, answers))
            && (p.Done? ==> ReadOutcome(p.err))
            && (p.Done? && p.err == Success <==> Reads(request.size, request.offset, first, answers))
  {
    FollowedTwice(Started(request, wasOpen, first), request, was, answers);
    hide Followed;
    if |answers| >= 2 {
      var q := Answered(Reading, request, was, answers[1]);
      FollowedEnd(q, request, was, answers[2..]);
    }
  }

  lemma CloseReached(wasOpen: bool, was: Errcode, first: Answer, answers: seq<Answer>)
    ensures var p := Reached(Close, wasOpen, was, first, answers);
            && (first.result == NAND_OK ==> (p.On? <==> answers == []))
            && (first.result == NAND_OK && answers != [] && answers[0].result == NAND_OK ==> p == Done(was, Code(was)))
  {
    FollowedTwice(Started(Close, wasOpen, first), Close, was, answers);
    hide Followed;
  }

  lemma {:induction false} OpenErrorsFrom(p: Progress, request: Request, was: Errcode, answers: seq<Answer>)
    requires request.Open? && (p.On? ==> p.command.Opening? || p.command.Creating? || p.command.Reopening?)
    requires p.Done? ==> p.err.Success? || p.err.NANDCommandfail? || p.err.Fatal?
    ensures var q := Followed(p, request, was, answers);
            q.Done? ==> q.err.Success? || q.err.NANDCommandfail? || q.err.Fatal?
    decreases |answers|
  {
    if p.On? && answers != [] {
      OpenErrorsFrom(Answered(p.command, request, was, answers[0]), request, was, answers[1..]);
    }
  }

  lemma OpenErrors(request: Request, wasOpen: bool, was: Errcode, first: Answer, answers: seq<Answer>)
    ensures var q := Reached(request, wasOpen, was, first, answers);
            request.Open? && q.Done? ==> q.err.Success? || q.err.NANDCommandfail? || q.err.Fatal?
  {
    hide Followed, Answered;
    if request.Open? {
      OpenErrorsFrom(Started(request, wasOpen, first), request, was, answers);
    }
  }

  lemma EndlessNext(open: bool, n: nat)
    requires n > 0
    ensures Endless(open, n)[0] == if open then Answer(NAND_OK, NAND_OK) else Answer(NAND_NOEXISTS, NAND_OK)
    ensures Endless(open, n)[1..] == Endless(!open, n - 1)
  {
  }

  /** From Creating, or from a file to be closed, the endless answers begin with an OK. */
  lemma {:induction false} EndlessFrom(p: Progress, open: bool, was: Errcode, n: nat)
    requires p == if open then On(Creating) else On(Opening)
    ensures Followed(p, Open(Write), was, Endless(open, n)).On?
    decreases n
  {
    hide Endless;
    if n > 0 {
      EndlessNext(open, n);
      EndlessFrom(if open then On(Opening) else On(Creating), !open, was, n - 1);
    }
  }

  lemma EndlessReached(wasOpen: bool, was: Errcode, first: Answer, n: nat)
    ensures first.result == NAND_OK ==> Reached(Open(Write), wasOpen, was, first, Endless(wasOpen, n)).On?
  {
    hide Endless;
    if first.result == NAND_OK {
      if wasOpen {
        if n > 0 {
          EndlessNext(true, n);
          EndlessFrom(On(Opening), false, was, n - 1);
        }
      } else {
        EndlessFrom(On(Opening), false, was, n);
      }
    }
  }

  /** A busy NAND is never fatal: whatever is under way or wanted ends so that it can be tried again. */
  lemma BusyIsBearable(c: Command, request: Request, wasOpen: bool, was: Errcode, reason: int)
    requires request.ReadFile? ==> request.offset >= 0
    ensures Started(request, wasOpen, Answer(NAND_BUSY, reason)) == Done(NANDCommandfail, NAND_BUSY)
    ensures c != NoCommand ==> Answered(c, request, was, Answer(NAND_BUSY, reason)) == Done(NANDCommandfail, NAND_BUSY)
  {
  }

  datatype Step = Step(request: Request, file: nat, callback: bool, first: Answer, answers: seq<Answer>)

  /** The requests that were accepted and asked to be called back. */
  function Accepted(script: seq<Step>, statuses: seq<Errcode>): nat
    requires |statuses| <= |script|
  {
    if statuses == [] then 0
    else
      var n := |statuses| - 1;
      Accepted(script, statuses[..n]) + (if statuses[n] == Busy && script[n].callback then 1 else 0)
  }

  /** `RFLiManager` and the `RFLiAccessInfo` of the two files, as far as the protocol goes. `calls` records
      the working flag at each call of a client's callback, and `completions` counts the commands that the NAND
      has finished. */
  class Access {
    const critical: bool
    var working: bool
    var lastErrCode: Errcode
    var lastReason: int
    var beforeCloseErr: Errcode
    var beforeCloseReason: int
    var isOpen: seq<bool>
    var kind: nat
    var pending: Command
    var hasCallback: bool
    var openMode: Mode
    var size: nat
    var offset: int
    var calls: seq<bool>
    var completions: nat

    /** Work is under way exactly while a command is, and shows as Busy. */
    ghost predicate Valid()
      reads this
    {
      && |isOpen| == 2 && kind < 2 && (working <==> pending != NoCommand) && (working <==> lastErrCode == Busy)
      && (pending.Closing? ==> beforeCloseErr != Busy)
    }

    /** The command under way, or how the work has ended. */
    ghost function Where(): Progress
      reads this`pending, this`working, this`lastErrCode, this`lastReason
    {
      if working then On(pending) else Done(lastErrCode, lastReason)
    }

    /** The command under way is one of the request. */
    ghost predicate Serves(request: Request)
      reads this`pending, this`openMode, this`size, this`offset
    {
      match pending
      case Opening => request == Open(openMode)
      case Creating => request == Open(openMode)
      case Reopening => request == Open(openMode)
      case Seeking => request == ReadFile(size, offset)
      case Reading => request == ReadFile(size, offset)
      case Closing => request == Close
      case Measuring => request == GetLength
      case Deleting => request == Delete
      case NoCommand => false
    }

    constructor (criticalError: bool)
      ensures Valid() && !working && calls == [] && completions == 0
    {
      critical := criticalError;
      working, lastErrCode, lastReason, beforeCloseErr, beforeCloseReason := false, Success, 0, Success, 0;
      isOpen, kind, pending, hasCallback, openMode := [false, false], 0, NoCommand, false, Read;
      size, offset, calls := 0, 0, [];
      completions := 0;
    }

    /** `RFLGetAsyncStatus`. */
    function GetAsyncStatus(): (status: Errcode)
      reads this
      ensures Valid() ==> (status == Busy <==> working)
    {
      if working then Busy else if critical then Fatal else lastErrCode
    }

    // ---------- the working flag ----------

    method StartWorking()
      modifies this`working, this`lastErrCode
      ensures working && lastErrCode == Busy
    {
      working, lastErrCode := true, Busy;
    }

    method StartWorkingClose()
      modifies this`working, this`lastErrCode, this`beforeCloseErr, this`beforeCloseReason
      ensures working && lastErrCode == Busy
      ensures beforeCloseErr == old(lastErrCode) && beforeCloseReason == old(lastReason)
    {
      working := true;
      beforeCloseErr := lastErrCode;
      beforeCloseReason := lastReason;
      lastErrCode := Busy;
    }

    /** `endWorkingClose_` after a success: the earlier error comes back, and its code takes the place of the
        earlier reason. */
    method EndWorkingClose()
      modifies this`working, this`lastErrCode, this`lastReason
      ensures !working && lastErrCode == beforeCloseErr && lastReason == Code(beforeCloseErr)
    {
      working := false;
      lastErrCode := beforeCloseErr;
      lastReason := Code(beforeCloseErr);
    }

    /** `RFLiEndWorkingReason`: an earlier error is kept. */
    method EndWorkingReason(err: Errcode, reason: int)
      modifies this`working, this`lastErrCode, this`lastReason
      ensures lastErrCode == EndStatus(old(lastErrCode), err)
      ensures old(lastErrCode) == Busy || old(lastErrCode) == Success ==> !working && lastReason == reason
      ensures !(old(lastErrCode) == Busy || old(lastErrCode) == Success) ==>
                working == old(working) && lastReason == old(lastReason)
    {
      match lastErrCode {
        case Busy => working, lastErrCode, lastReason := false, err, reason;
        case Success => working, lastErrCode, lastReason := false, err, reason;
        case _ =>
      }
    }

    method CallBack()
      modifies this`calls
      ensures calls == if hasCallback then old(calls) + [working] else old(calls)
    {
      if hasCallback {
        calls := calls + [working];
      }
    }

    // ---------- requests ----------

    /** `RFLiOpenAsync`. */
    method OpenAsync(file: nat, mode: Mode, callback: bool, reason: int, reason2: int) returns (status: Errcode)
      requires Valid() && !working && file < 2
      modifies this
      ensures Where() == Started(Open(mode), old(isOpen)[file], Answer(reason, reason2))
      ensures Valid() && status == GetAsyncStatus() && calls == old(calls) && hasCallback == callback && kind == file
      ensures completions == old(completions)
      ensures pending.NoCommand? || pending.Opening? || pending.Creating? || pending.Reopening?
      ensures !old(isOpen)[file] && reason == NAND_OK ==> pending.Opening?
      ensures openMode == mode && (pending.Creating? ==> mode == Write)
      ensures old(isOpen)[file] && reason == NAND_OK ==> pending.Reopening?
      ensures mode == Read ==> (working <==> reason == NAND_OK)
      ensures beforeCloseErr == old(beforeCloseErr) && isOpen == old(isOpen)
      ensures !working ==> lastErrCode == NANDCommandfail || lastErrCode == Fatal
    {
      StartWorking();
      kind, hasCallback, openMode := file, callback, mode;
      if isOpen[file] {
        if reason == NAND_OK {
          pending := Reopening;
        } else {
          EndWorkingReason(NANDCommandfail, reason);
        }
      } else {
        if reason == NAND_OK {
          pending := Opening;
        } else if reason == NAND_NOEXISTS {
          if mode == Read {
            EndWorkingReason(NANDCommandfail, reason);
          } else if reason2 == NAND_OK {
            pending := Creating;
          } else {
            EndWorkingReason(NANDCommandfail, reason2);
          }
        } else {
          EndWorkingReason(SafeOpenError(reason), reason);
        }
      }
      status := GetAsyncStatus();
    }

    /** `RFLiReadAsync`. */
    method ReadAsync(file: nat, bytes: nat, position: int, callback: bool, reason: int) returns (status: Errcode)
      requires Valid() && !working && file < 2
      modifies this
      ensures Where() == Started(ReadFile(bytes, position), old(isOpen)[file], Answer(reason, 0))
      ensures Valid() && status == GetAsyncStatus() && calls == old(calls) && hasCallback == callback && kind == file
      ensures completions == old(completions)
      ensures size == bytes && offset == position
      ensures pending == (if reason == NAND_OK then Seeking else NoCommand)
      ensures beforeCloseErr == old(beforeCloseErr) && isOpen == old(isOpen)
    {
      StartWorking();
      kind, hasCallback, size, offset := file, callback, bytes, position;
      if reason == NAND_OK {
        pending := Seeking;
      } else {
        EndWorkingReason(SimpleError(reason), reason);
      }
      status := GetAsyncStatus();
    }

    /** `RFLiGetLengthAsync`. */
    method GetLengthAsync(file: nat, callback: bool, reason: int) returns (status: Errcode)
      requires Valid() && !working && file < 2
      modifies this
      ensures Where() == Started(GetLength, old(isOpen)[file], Answer(reason, 0))
      ensures Valid() && status == GetAsyncStatus() && calls == old(calls) && hasCallback == callback && kind == file
      ensures completions == old(completions)
      ensures pending == (if reason == NAND_OK then Measuring else NoCommand)
      ensures beforeCloseErr == old(beforeCloseErr) && isOpen == old(isOpen)
    {
      StartWorking();
      kind, hasCallback := file, callback;
      if reason == NAND_OK {
        pending := Measuring;
      } else {
        EndWorkingReason(SimpleError(reason), reason);
      }
      status := GetAsyncStatus();
    }

    /** `RFLiDeleteAsync`: a missing file is as good as deleted. */
    method DeleteAsync(file: nat, callback: bool, reason: int) returns (status: Errcode)
      requires Valid() && !working && file < 2
      modifies this
      ensures Where() == Started(Delete, old(isOpen)[file], Answer(reason, 0))
      ensures Valid() && status == GetAsyncStatus() && calls == old(calls) && hasCallback == callback && kind == file
      ensures completions == old(completions)
      ensures pending == (if reason == NAND_OK then Deleting else NoCommand)
      ensures beforeCloseErr == old(beforeCloseErr) && isOpen == old(isOpen)
    {
      StartWorking();
      kind, hasCallback := file, callback;
      if reason == NAND_OK {
        pending := Deleting;
      } else if reason == NAND_NOEXISTS {
        EndWorkingReason(Success, 0);
      } else {
        EndWorkingReason(DeleteError(reason), reason);
      }
      status := GetAsyncStatus();
    }

    /** `RFLiCloseAsync`. */
    method CloseAsync(file: nat, callback: bool, reason: int) returns (status: Errcode)
      requires Valid() && !working && file < 2
      modifies this
      ensures Where() == Started(Close, old(isOpen)[file], Answer(reason, 0))
      ensures Valid() && status == GetAsyncStatus() && calls == old(calls) && hasCallback == callback && kind == file
      ensures completions == old(completions)
      ensures pending == (if reason == NAND_OK then Closing else NoCommand)
      ensures beforeCloseErr == old(lastErrCode) && isOpen == old(isOpen)
    {
      StartWorkingClose();
      kind, hasCallback := file, callback;
      if reason == NAND_OK {
        pending := Closing;
      } else {
        EndWorkingReason(CloseError(reason), reason);
      }
      status := GetAsyncStatus();
    }

    // ---------- completions ----------

    /** The common end of the completions: the command is done, or the next one has been started. */
    method Finish()
      requires |isOpen| == 2 && kind < 2 && pending == NoCommand && (working <==> lastErrCode == Busy) && !working
      modifies this`calls
      ensures Valid() && !working && calls == if hasCallback then old(calls) + [false] else old(calls)
    {
      CallBack();
    }

    /** `opencallback_`. */
    method OpenDone(a: Answer)
      requires Valid() && pending.Opening?
      modifies this`pending, this`working, this`lastErrCode, this`lastReason, this`isOpen, this`calls
      ensures Where() == Answered(Opening, Open(openMode), beforeCloseErr, a)
      ensures Valid() && (working ==> calls == old(calls) && pending.Creating?)
      ensures !working ==> calls == if hasCallback then old(calls) + [false] else old(calls)
      ensures a.result == NAND_NOEXISTS && openMode == Write && a.reason == NAND_OK <==> working
      ensures isOpen == old(isOpen)[kind := a.result == NAND_OK]
      ensures !working ==>
                && (lastErrCode == Success <==> a.result == NAND_OK)
                && (lastErrCode.Success? || lastErrCode.NANDCommandfail? || lastErrCode.Fatal?)
    {
      pending := NoCommand;
      isOpen := isOpen[kind := a.result == NAND_OK];
      if a.result == NAND_OK {
        EndWorkingReason(Success, 0);
      } else if a.result == NAND_NOEXISTS {
        if openMode == Read {
          EndWorkingReason(NANDCommandfail, a.result);
        } else if a.reason == NAND_OK {
          pending := Creating;
          return;
        } else {
          EndWorkingReason(NANDCommandfail, a.reason);
        }
      } else {
        EndWorkingReason(OpenedError(a.result), a.result);
      }
      Finish();
    }

    /** `createcallback_`: the new file is opened; a file that exists by now will do. */
    method CreateDone(a: Answer)
      requires Valid() && pending.Creating?
      modifies this`pending, this`working, this`lastErrCode, this`lastReason, this`calls
      ensures Where() == Answered(Creating, Open(openMode), beforeCloseErr, a)
      ensures Valid() && (working ==> calls == old(calls) && pending.Opening?)
      ensures !working ==> calls == (if hasCallback then old(calls) + [false] else old(calls))
                           && (lastErrCode == NANDCommandfail || lastErrCode == Fatal)
      ensures working <==> (a.result == NAND_OK || a.result == NAND_EXISTS) && a.reason == NAND_OK
    {
      pending := NoCommand;
      if a.result == NAND_OK || a.result == NAND_EXISTS {
        if a.reason == NAND_OK {
          pending := Opening;
          return;
        } else if SafeOpenError(a.reason) == NANDCommandfail {
          EndWorkingReason(NANDCommandfail, a.reason);
        } else {
          EndWorkingReason(Fatal, a.result);
        }
      } else {
        EndWorkingReason(CreatedError(a.result), a.result);
      }
      Finish();
    }

    /** `close2opencallback_`: the file was still open, and is opened anew. */
    method ReopenDone(a: Answer)
      requires Valid() && pending.Reopening?
      modifies this`pending, this`working, this`lastErrCode, this`lastReason, this`calls
      ensures Where() == Answered(Reopening, Open(openMode), beforeCloseErr, a)
      ensures Valid() && (working ==> calls == old(calls) && pending.Opening?)
      ensures !working ==> calls == (if hasCallback then old(calls) + [false] else old(calls))
                           && (lastErrCode == NANDCommandfail || lastErrCode == Fatal)
      ensures working <==> a.result == NAND_OK && a.reason == NAND_OK
    {
      pending := NoCommand;
      if a.result == NAND_OK {
        if a.reason == NAND_OK {
          pending := Opening;
          return;
        } else if SafeOpenError(a.reason) == NANDCommandfail {
          EndWorkingReason(NANDCommandfail, a.reason);
        } else {
          EndWorkingReason(Fatal, a.result);
        }
      } else {
        EndWorkingReason(CreatedError(a.result), a.result);
      }
      Finish();
    }

    /** `readseekcallback_`. */
    method SeekDone(a: Answer)
      requires Valid() && pending.Seeking?
      modifies this`pending, this`working, this`lastErrCode, this`lastReason, this`calls
      ensures Where() == Answered(Seeking, ReadFile(size, offset), beforeCloseErr, a)
      ensures Valid() && (working ==> calls == old(calls) && pending.Reading?)
      ensures !working ==> calls == (if hasCallback then old(calls) + [false] else old(calls))
                           && lastErrCode != Success && ReadOutcome(lastErrCode)
      ensures working <==> a.result == offset && a.reason == NAND_OK
    {
      pending := NoCommand;
      if a.result == offset {
        if a.reason == NAND_OK {
          pending := Reading;
          return;
        } else {
          EndWorkingReason(ReadError(a.reason), a.reason);
        }
      } else if a.result >= NAND_OK {
        EndWorkingReason(Loadfail, 0);
      } else {
        EndWorkingReason(SimpleError(a.result), a.result);
      }
      Finish();
    }

    /** `readcallback_`: only a read of exactly the wanted length is a success. */
    method ReadDone(a: Answer)
      requires Valid() && pending.Reading?
      modifies this`pending, this`working, this`lastErrCode, this`lastReason, this`calls
      ensures Where() == Answered(Reading, ReadFile(size, offset), beforeCloseErr, a)
      ensures Valid() && !working && calls == if hasCallback then old(calls) + [false] else old(calls)
      ensures (lastErrCode == Success <==> a.result == size) && ReadOutcome(lastErrCode)
    {
      pending := NoCommand;
      if a.result >= NAND_OK {
        if a.result > size {
          EndWorkingReason(Loadfail, 0);
        } else if a.result == size {
          EndWorkingReason(Success, 0);
        } else {
          EndWorkingReason(Loadfail, 0);
        }
      } else if a.result == NAND_AUTHENTICATION {
        EndWorkingReason(NANDCommandfail, a.result);
      } else {
        EndWorkingReason(ReadError(a.result), a.result);
      }
      Finish();
    }

    /** `closecallback_`. */
    method CloseDone(a: Answer)
      requires Valid() && pending.Closing?
      modifies this`pending, this`working, this`lastErrCode, this`lastReason, this`isOpen, this`calls
      ensures Where() == Answered(Closing, Close, beforeCloseErr, a)
      ensures Valid() && !working && calls == if hasCallback then old(calls) + [false] else old(calls)
      ensures a.result == NAND_OK ==>
                && lastErrCode == beforeCloseErr && lastReason == Code(beforeCloseErr)
                && isOpen == old(isOpen)[kind := false]
      ensures a.result != NAND_OK ==>
                lastErrCode == CloseError(a.result) && lastReason == a.result && isOpen == old(isOpen)
    {
      pending := NoCommand;
      if a.result == NAND_OK {
        isOpen := isOpen[kind := false];
        EndWorkingClose();
      } else {
        EndWorkingReason(CloseError(a.result), a.result);
      }
      if !working {
        Finish();
      }
    }

    /** `getlengthcallback_`. */
    method GetLengthDone(a: Answer)
      requires Valid() && pending.Measuring?
      modifies this`pending, this`working, this`lastErrCode, this`lastReason, this`calls
      ensures Where() == Answered(Measuring, GetLength, beforeCloseErr, a)
      ensures Valid() && !working && calls == if hasCallback then old(calls) + [false] else old(calls)
      ensures lastErrCode == Success <==> a.result == NAND_OK
    {
      pending := NoCommand;
      if a.result == NAND_OK {
        EndWorkingReason(Success, 0);
      } else {
        EndWorkingReason(SimpleError(a.result), a.result);
      }
      Finish();
    }

    /** `deletecallback_`. */
    method DeleteDone(a: Answer)
      requires Valid() && pending.Deleting?
      modifies this`pending, this`working, this`lastErrCode, this`lastReason, this`calls
      ensures Where() == Answered(Deleting, Delete, beforeCloseErr, a)
      ensures Valid() && !working && calls == if hasCallback then old(calls) + [false] else old(calls)
      ensures lastErrCode == Success <==> a.result == NAND_OK || a.result == NAND_NOEXISTS
    {
      pending := NoCommand;
      if a.result == NAND_OK || a.result == NAND_NOEXISTS {
        EndWorkingReason(Success, 0);
      } else {
        EndWorkingReason(DeleteError(a.result), a.result);
      }
      Finish();
    }

    // ---------- whole runs ----------

    method Start(request: Request, file: nat, callback: bool, a: Answer) returns (status: Errcode)
      requires Valid() && !working && file < 2
      modifies this
      ensures Valid() && status == GetAsyncStatus() && calls == old(calls) && hasCallback == callback && kind == file
      ensures completions == old(completions)
      ensures request.Open? ==> openMode == request.mode && (pending.Creating? ==> request.mode == Write)
      ensures request.Open? && working ==> pending.Opening? || pending.Creating? || pending.Reopening?
      ensures request.Open? && a.result == NAND_OK ==> pending == if old(isOpen)[file] then Reopening else Opening
      ensures !request.Open? ==> pending == if a.result == NAND_OK then FirstCommand(request) else NoCommand
      ensures request.ReadFile? ==>
                size == request.size && offset == request.offset && (!working ==> ReadOutcome(lastErrCode))
      ensures request.Close? ==> beforeCloseErr == old(lastErrCode)
      ensures Where() == Started(request, old(isOpen)[file], a) && (working ==> Serves(request))
      ensures request == Open(Read) ==> (working <==> a.result == NAND_OK)
      ensures request.Open? && !working ==> lastErrCode.NANDCommandfail? || lastErrCode.Fatal?
      ensures isOpen == old(isOpen)
      ensures !working && lastErrCode == Success ==> request.Delete?
    {
      match request {
        case Open(mode) => status := OpenAsync(file, mode, callback, a.result, a.reason);
        case ReadFile(bytes, position) => status := ReadAsync(file, bytes, position, callback, a.result);
        case GetLength => status := GetLengthAsync(file, callback, a.result);
        case Delete => status := DeleteAsync(file, callback, a.result);
        case Close => status := CloseAsync(file, callback, a.result);
      }
    }

    /** The pending command is completed. */
    method Complete(a: Answer, ghost request: Request)
      requires Valid() && working && Serves(request)
      modifies this`pending, this`working, this`lastErrCode, this`lastReason, this`isOpen, this`calls, this`completions
      ensures Valid() && completions == old(completions) + 1
      ensures Where() == Answered(old(pending), request, beforeCloseErr, a) && (working ==> Serves(request))
      ensures calls == if !working && hasCallback then old(calls) + [false] else old(calls)
      ensures openMode == Read || Bounded(old(pending)) ==>
                old(pending).Creating? || (Remaining(pending) < Remaining(old(pending)) && !pending.Creating?)
      ensures working ==> (Bounded(old(pending)) <==> Bounded(pending))
      ensures !Bounded(old(pending)) && !working ==>
                && (lastErrCode.Success? || lastErrCode.NANDCommandfail? || lastErrCode.Fatal?)
                && (lastErrCode == Success ==> isOpen[kind])
      ensures old(pending).Seeking? ==>
                && (working <==> a.result == offset && a.reason == NAND_OK)
                && (working ==> pending.Reading?) && lastErrCode != Success
      ensures old(pending).Reading? ==> (lastErrCode == Success <==> a.result == size)
      ensures old(pending).Closing? && a.result == NAND_OK ==>
                lastErrCode == beforeCloseErr && lastReason == Code(beforeCloseErr) && !isOpen[kind]
      ensures old(pending).Opening? && a == Answer(NAND_NOEXISTS, NAND_OK) && openMode == Write ==> pending.Creating?
      ensures old(pending).Creating? && a == Answer(NAND_OK, NAND_OK) ==> pending.Opening?
      ensures old(pending).Opening? && openMode == Read ==>
                !working && (lastErrCode == Success <==> a.result == NAND_OK)
      ensures old(pending).Reopening? ==>
                && (a == Answer(NAND_OK, NAND_OK) <==> pending.Opening?) && (working <==> pending.Opening?)
                && lastErrCode != Success
      ensures old(pending).Reading? || old(pending).Seeking? ==> working || ReadOutcome(lastErrCode)
      ensures old(pending).Closing? && a.result != NAND_OK ==>
                (lastErrCode.NANDCommandfail? || lastErrCode.Fatal?) && lastReason == a.result
      ensures isOpen[1 - kind] == old(isOpen)[1 - kind]
    {
      completions := completions + 1;
      match pending {
        case Opening => OpenDone(a);
        case Creating => CreateDone(a);
        case Reopening => ReopenDone(a);
        case Seeking => SeekDone(a);
        case Reading => ReadDone(a);
        case Closing => CloseDone(a);
        case Measuring => GetLengthDone(a);
        case Deleting => DeleteDone(a);
      }
    }

    /** Where a request stands after i answers, from a start at which the file was open or not and the error code
        was `was`. */
    ghost predicate Stage(request: Request, wasOpen: bool, was: Errcode, first: Answer, answers: seq<Answer>, i: nat)
      reads this
    {
      && i <= |answers| && kind < |isOpen| && (working ==> Serves(request))
      && (request.Close? ==> beforeCloseErr == was && i <= 1 && (working ==> i == 0))
      && Followed(Where(), request, was, answers[i..]) == Reached(request, wasOpen, was, first, answers)
      && (request != Open(Write) ==> i <= 2 && (working ==> Remaining(pending) + i <= 2 && !pending.Creating?))
      && (!working && request.Open? && lastErrCode == Success ==> i > 0 && isOpen[kind])
      && (request.Close? && i == 1 && answers[0].result == NAND_OK ==> !isOpen[kind])
    }

    /** A request is started. */
    method Begin(request: Request, file: nat, callback: bool, first: Answer, ghost answers: seq<Answer>)
      returns (status: Errcode)
      requires Valid() && !working && file < 2
      modifies this
      ensures Valid() && status == GetAsyncStatus() && calls == old(calls) && hasCallback == callback && kind == file
      ensures completions == old(completions) && isOpen == old(isOpen)
      ensures request != Open(Write) ==> (status == Busy <==> first.result == NAND_OK)
      ensures Stage(request, isOpen[file], old(lastErrCode), first, answers, 0)
    {
      status := Start(request, file, callback, first);
    }

    /** The next answer has come. */
    method Advance(ghost request: Request, ghost wasOpen: bool, ghost was: Errcode, ghost first: Answer,
                   answers: seq<Answer>, i: nat)
      requires Valid() && working && i < |answers| && Stage(request, wasOpen, was, first, answers, i)
      modifies this`pending, this`working, this`lastErrCode, this`lastReason, this`isOpen, this`calls, this`completions
      ensures Valid() && completions == old(completions) + 1
      ensures calls == if !working && hasCallback then old(calls) + [false] else old(calls)
      ensures isOpen[1 - kind] == old(isOpen)[1 - kind]
      ensures Stage(request, wasOpen, was, first, answers, i + 1)
    {
      assert answers[i..][0] == answers[i] && answers[i..][1..] == answers[i + 1..];
      Complete(answers[i], request);
    }

    /** One request and the completions that follow it, for any answers. A request that is not accepted never
        calls back. An accepted one calls back once, when the work has ended. All requests but opening a file for
        writing end after two completions at most; that one goes on for as long as the answers are the endless
        ones. A successful close leaves the earlier error code, and that code for a reason. */
    method Run(request: Request, file: nat, callback: bool, first: Answer, answers: seq<Answer>)
      returns (status: Errcode)
      requires Valid() && !working && file < 2
      modifies this
      ensures Valid() && |isOpen| == 2 && isOpen[1 - file] == old(isOpen)[1 - file]
      ensures Where() == Reached(request, old(isOpen)[file], old(lastErrCode), first, answers)
      ensures status != Busy ==> !working && calls == old(calls)
      ensures status == Busy ==> calls == if !working && callback then old(calls) + [false] else old(calls)
      ensures request != Open(Write) ==> completions <= old(completions) + 2 && (|answers| >= 2 ==> !working)
      ensures request == Open(Write) && first.result == NAND_OK && answers == Endless(old(isOpen)[file], |answers|) ==>
                working && completions == old(completions) + |answers|
      ensures request.Open? && !working ==> lastErrCode.Success? || lastErrCode.NANDCommandfail? || lastErrCode.Fatal?
      ensures request.Open? && !working && lastErrCode == Success ==> status == Busy && isOpen[file]
      ensures request == Open(Read) ==>
                && (working <==> !OpenEnds(old(isOpen)[file], first, answers))
                && (lastErrCode == Success <==> Opens(old(isOpen)[file], first, answers))
      ensures request.ReadFile? ==>
                && (working <==> !ReadEnds(request.offset, first, answers))
                && (lastErrCode == Success <==> Reads(request.size, request.offset, first, answers))
                && (!working ==> ReadOutcome(lastErrCode))
      ensures request.Close? && first.result == NAND_OK && |answers| >= 1 && answers[0].result == NAND_OK ==>
                !working && lastErrCode == old(lastErrCode) && lastReason == Code(old(lastErrCode)) && !isOpen[file]
      ensures request != Open(Write) ==> (status == Busy <==> first.result == NAND_OK)
      ensures request.Close? && status == Busy ==> (working <==> answers == [])
    {
      hide Code, ReadOutcome, Endless, Started, Answered, Followed, Reached, OpenEnds, Opens, ReadEnds, Reads;
      status := Begin(request, file, callback, first, answers);
      ghost var wasOpen, was := isOpen[file], old(lastErrCode);
      var i := 0;
      while working && i < |answers|
        invariant Valid() && i <= |answers| && hasCallback == callback && kind == file
        invariant i > 0 ==> status == Busy
        invariant i == 0 ==> status == GetAsyncStatus() && calls == old(calls)
        invariant i > 0 ==> calls == if !working && callback then old(calls) + [false] else old(calls)
        invariant completions == old(completions) + i
        invariant request != Open(Write) ==> (status == Busy <==> first.result == NAND_OK)
        invariant isOpen[1 - file] == old(isOpen)[1 - file]
        invariant Stage(request, wasOpen, was, first, answers, i)
      {
        Advance(request, wasOpen, was, first, answers, i);
        i := i + 1;
      }
      FollowedEnd(Where(), request, was, answers[i..]);
      OpenReached(wasOpen, was, first, answers);
      OpenErrors(request, wasOpen, was, first, answers);
      EndlessReached(wasOpen, was, first, |answers|);
      if request.ReadFile? {
        ReadReached(request, wasOpen, was, first, answers);
      }
      CloseReached(wasOpen, was, first, answers);
    }

    /** Opening a file for writing has no bound: for either file, open or not, and for every n there are answers
        after which n commands have been finished and the work goes on. */
    method OpenWithoutEnd(file: nat, callback: bool, n: nat) returns (status: Errcode, answers: seq<Answer>)
      requires Valid() && !working && file < 2
      modifies this
      ensures Valid() && status == Busy && |answers| == n
      ensures working && completions == old(completions) + n && calls == old(calls)
    {
      answers := Endless(isOpen[file], n);
      status := Run(Open(Write), file, callback, Answer(NAND_OK, NAND_OK), answers);
    }

    /** Any number of requests, each started when the one before has ended: there are as many calls as accepted
        requests with a callback, and each finds the work ended. */
    method Session(script: seq<Step>) returns (statuses: seq<Errcode>)
      requires Valid() && !working && forall i :: 0 <= i < |script| ==> script[i].file < 2
      modifies this
      ensures Valid() && |statuses| <= |script| && (|statuses| < |script| ==> working)
      ensures old(calls) <= calls && forall i :: |old(calls)| <= i < |calls| ==> !calls[i]
      ensures !working ==> |calls| == |old(calls)| + Accepted(script, statuses)
    {
      statuses := [];
      ghost var before := calls;
      var i := 0;
      while i < |script| && !working
        invariant 0 <= i <= |script| && |statuses| == i && Valid()
        invariant before <= calls && forall k :: |before| <= k < |calls| ==> !calls[k]
        invariant !working ==> |calls| == |before| + Accepted(script, statuses)
      {
        var s := script[i];
        var status := Run(s.request, s.file, s.callback, s.first, s.answers);
        ghost var longer := statuses + [status];
        assert longer[..i] == statuses;
        statuses := statuses + [status];
        i := i + 1;
      }
    }
  }
}
