/** One load of the page readers over the request protocol: what src/RVLFaceLib/RFL_HiddenDatabase.c:22-104 makes of
    an open, a read and a close. */
module LoadProtocol {
  import opened Status
  import opened NandAccess

  /** The answers to one request: the one to the first command, and those that come on completion. */
  datatype Answers = Answers(first: Answer, rest: seq<Answer>)

  /** How a load stops. Only a delivered one calls the page reader. */
  datatype Ending = Waiting | NotOpened | ReadRefused | CloseRefused | Delivered

  /** The read and the close. A load whose read is refused closes the file without a callback, and one whose close
      is refused stops. */
  function ReadEnding(offset: int, read: Answers, close: Answers): Ending {
    if !ReadEnds(offset, read.first, read.rest) then Waiting
    else if close.first.result == NAND_OK && close.rest == [] then Waiting
    else if read.first.result != NAND_OK then ReadRefused
    else if close.first.result != NAND_OK then CloseRefused
    else Delivered
  }

  /** A load whose open failed stops there. */
  function LoadEnding(critical: bool, wasOpen: bool, offset: int, open: Answers, read: Answers,
                      close: Answers): Ending {
    if !OpenEnds(wasOpen, open.first, open.rest) then Waiting
    else if critical || !Opens(wasOpen, open.first, open.rest) then NotOpened
    else ReadEnding(offset, read, close)
  }

  /** What the answers to the read and the close make of a load. The error of the request that failed last counts; a
      successful close brings back the one before it. */
  ghost function OutcomeOf(size: nat, offset: int, read: Answers, close: Answers): Outcome {
    var r := Reached(ReadFile(size, offset), true, Success, read.first, read.rest);
    var c := Reached(Close, true, if r.Done? then r.err else Success, close.first, close.rest);
    if r.On? || c.On? then NO_FAILURE
    else if read.first.result != NAND_OK then Lost(c.err, c.reason, false)
    else if close.first.result != NAND_OK then Lost(c.err, c.reason, r.err == Success)
    else if close.rest != [] && close.rest[0].result == NAND_OK then Ended(r.err, r.reason, Success, 0)
    else Ended(r.err, r.reason, c.err, c.reason)
  }

  /** What the answers make of a whole load. */
  ghost function LoadOutcome(critical: bool, wasOpen: bool, size: nat, offset: int, open: Answers, read: Answers,
                             close: Answers): Outcome
  {
    var p := Reached(Open(Read), wasOpen, Success, open.first, open.rest);
    if p.On? then NO_FAILURE
    else if critical || p.err != Success then
      if open.first.result == NAND_OK then Lost(if critical then Fatal else p.err, p.reason, false)
      else Refused(if critical then Fatal else p.err, p.reason)
    else OutcomeOf(size, offset, read, close)
  }

  lemma CloseEnds(wasOpen: bool, was: Errcode, first: Answer, answers: seq<Answer>)
    ensures var c := Reached(Close, wasOpen, was, first, answers);
            && (c.On? <==> first.result == NAND_OK && answers == [])
            && (first.result != NAND_OK ==> c == Judged({NAND_CORRUPT, NAND_BUSY, NAND_ALLOC_FAILED}, first.result))
            && (first.result == NAND_OK && answers != [] ==>
                  c == if answers[0].result == NAND_OK then Done(was, Code(was))
                       else Judged({NAND_CORRUPT, NAND_BUSY, NAND_ALLOC_FAILED}, answers[0].result))
  {
    FollowedTwice(Started(Close, wasOpen, first), Close, was, answers);
    hide Followed;
  }

  /** Neither the earlier error code nor the state of the file counts for a read, nor that code for an open. */
  lemma CodeIndifferent(request: Request, wasOpen: bool, was: Errcode, first: Answer, answers: seq<Answer>)
    requires request.ReadFile? || request == Open(Read)
    ensures Reached(request, wasOpen, was, first, answers)
         == Reached(request, wasOpen || request.ReadFile?, Success, first, answers)
  {
    var p := Started(request, wasOpen, first);
    FollowedTwice(p, request, was, answers);
    FollowedTwice(p, request, Success, answers);
    hide Followed;
    if |answers| >= 2 {
      var q := Answered(if request.ReadFile? then Reading else Opening, request, was, answers[1]);
      FollowedEnd(q, request, was, answers[2..]);
      FollowedEnd(q, request, Success, answers[2..]);
    }
  }

  lemma ReadAgain(size: nat, offset: int, wasOpen: bool, was: Errcode, read: Answers)
    ensures var r := Reached(ReadFile(size, offset), wasOpen, was, read.first, read.rest);
            && r == Reached(ReadFile(size, offset), true, Success, read.first, read.rest)
            && (r.On? <==> !ReadEnds(offset, read.first, read.rest))
            && (r.Done? ==> ReadOutcome(r.err))
            && (r.Done? && r.err == Success <==> Reads(size, offset, read.first, read.rest))
            && (read.first.result != NAND_OK ==> r.Done? && (r.err == NANDCommandfail || r.err == Fatal))
  {
    CodeIndifferent(ReadFile(size, offset), wasOpen, was, read.first, read.rest);
    ReadReached(ReadFile(size, offset), true, Success, read.first, read.rest);
  }

  lemma OutcomeBusy(size: nat, offset: int, read: Answers, close: Answers)
    ensures EndsBusy(OutcomeOf(size, offset, read, close)) <==>
            ReadEnding(offset, read, close) == Delivered && close.rest[0].result == NAND_BUSY
  {
    var r := Reached(ReadFile(size, offset), true, Success, read.first, read.rest);
    hide Reached;
    ReadReached(ReadFile(size, offset), true, Success, read.first, read.rest);
    CloseEnds(true, if r.Done? then r.err else Success, close.first, close.rest);
  }

  lemma OpenRefused(wasOpen: bool, first: Answer, answers: seq<Answer>)
    requires first.result != NAND_OK
    ensures var p := Reached(Open(Read), wasOpen, Success, first, answers);
            && p.Done? && p.reason == first.result
            && (p.err == NANDCommandfail || p.err == Fatal) && (first.result == NAND_BUSY ==> p.err == NANDCommandfail)
  {
  }

  /** A load leaves the reason busy exactly if the open was refused as busy, or the close of a delivered load ended
      so: nothing else can set a page back. */
  lemma LoadBusy(critical: bool, wasOpen: bool, size: nat, offset: int, open: Answers, read: Answers, close: Answers)
    ensures EndsBusy(LoadOutcome(critical, wasOpen, size, offset, open, read, close)) <==>
            if open.first.result != NAND_OK then !critical && open.first.result == NAND_BUSY
            else LoadEnding(critical, wasOpen, offset, open, read, close) == Delivered
                 && close.rest[0].result == NAND_BUSY
  {
    hide Reached, OutcomeOf, ReadEnding;
    OpenReached(wasOpen, Success, open.first, open.rest);
    OutcomeBusy(size, offset, read, close);
    if open.first.result != NAND_OK {
      OpenRefused(wasOpen, open.first, open.rest);
    }
  }

  /** The manager shows status and reason of the outcome. `calls` are the calls that have been made before; those of
      the load have found the work ended. */
  ghost predicate Shows(a: Access, ending: Ending, o: Outcome, refused: bool, calls: seq<bool>)
    reads a
  {
    && Possible(o) && a.GetAsyncStatus() == StatusAfter(o, refused) && a.lastReason == ReasonAfter(o, refused)
    && match ending
       case CloseRefused => a.calls == calls + [false]
       case Delivered => a.calls == calls + [false, false]
       case _ => a.calls == calls
  }

  /** What the callback of the open does, once the file is open. `refused` says that the record read does not fit
      its table entry. */
  method ReadThenClose(a: Access, size: nat, offset: int, refused: bool, read: Answers, close: Answers)
    returns (ending: Ending, o: Outcome)
    requires a.Valid() && !a.working && !a.critical
    modifies a
    ensures a.Valid() && ending == ReadEnding(offset, read, close) && (a.working <==> ending == Waiting)
    ensures ending != Waiting ==>
              Shows(a, ending, o, refused, old(a.calls)) && o == OutcomeOf(size, offset, read, close)
    ensures ending != Waiting && close.first.result == NAND_OK && close.rest[0].result == NAND_OK ==> !a.isOpen[0]
  {
    hide Reached, Reads, ReadEnds, Code, EndsBusy;
    ReadAgain(size, offset, a.isOpen[0], a.lastErrCode, read);
    o := NO_FAILURE;
    var status := a.Run(ReadFile(size, offset), 0, true, read.first, read.rest);
    var readErr, readReason := a.lastErrCode, a.lastReason;
    if status != Busy {
      CloseEnds(true, readErr, close.first, close.rest);
      CloseEnds(a.isOpen[0], readErr, close.first, close.rest);
      status := a.Run(Close, 0, false, close.first, close.rest);
      o := Lost(a.lastErrCode, a.lastReason, false);
      return if a.working then Waiting else ReadRefused, o;
    }
    if a.working {
      return Waiting, o;
    }
    if a.lastErrCode == Success && refused {
      a.lastErrCode := Broken;
    }
    CloseEnds(true, readErr, close.first, close.rest);
    CloseEnds(a.isOpen[0], a.lastErrCode, close.first, close.rest);
    status := a.Run(Close, 0, true, close.first, close.rest);
    if status != Busy {
      o := Lost(a.lastErrCode, a.lastReason, readErr == Success);
      return CloseRefused, o;
    }
    if a.working {
      return Waiting, o;
    }
    ending := Delivered;
    if close.rest[0].result == NAND_OK {
      o := Ended(readErr, readReason, Success, 0);
    } else {
      o := Ended(readErr, readReason, a.lastErrCode, a.lastReason);
    }
  }

  /** `RFLiLoadHiddenDataAsync` and its callbacks, for any answers: ending and outcome follow from the answers, and the
      manager shows status and reason of the outcome. A load is delivered exactly if the file was opened and neither
      the read nor the close was refused; only then is the page reader called. */
  method Load(a: Access, size: nat, offset: int, refused: bool, open: Answers, read: Answers, close: Answers)
    returns (ending: Ending, o: Outcome)
    requires a.Valid() && !a.working
    modifies a
    ensures a.Valid() && ending == LoadEnding(a.critical, old(a.isOpen)[0], offset, open, read, close)
    ensures a.working <==> ending == Waiting
    ensures ending != Waiting ==>
              Shows(a, ending, o, refused, old(a.calls) + (if open.first.result == NAND_OK then [false] else []))
    ensures ending != Waiting ==> o == LoadOutcome(a.critical, old(a.isOpen)[0], size, offset, open, read, close)
    ensures ending != Waiting ==>
              (EndsBusy(o) <==>
                if open.first.result != NAND_OK then !a.critical && open.first.result == NAND_BUSY
                else ending == Delivered && close.rest[0].result == NAND_BUSY)
    ensures ending == NotOpened ==>
              && (o.Refused? <==> open.first.result != NAND_OK) && (!o.Refused? ==> o.Lost? && !o.taken)
              && (a.lastErrCode == Success <==> Opens(old(a.isOpen)[0], open.first, open.rest))
  {
    hide Reached, OutcomeOf, EndsBusy, Opens, OpenEnds, ReadEnds;
    LoadBusy(a.critical, a.isOpen[0], size, offset, open, read, close);
    CodeIndifferent(Open(Read), a.isOpen[0], a.lastErrCode, open.first, open.rest);
    OpenReached(a.isOpen[0], Success, open.first, open.rest);
    o := NO_FAILURE;
    var status := a.Run(Open(Read), 0, true, open.first, open.rest);
    if a.working {
      return Waiting, o;
    }
    if status != Busy {
      o := Refused(a.GetAsyncStatus(), a.lastReason);
      return NotOpened, o;
    }
    if a.GetAsyncStatus() != Success {
      o := Lost(a.GetAsyncStatus(), a.lastReason, false);
      return NotOpened, o;
    }
    ending, o := ReadThenClose(a, size, offset, refused, read, close);
  }
}
