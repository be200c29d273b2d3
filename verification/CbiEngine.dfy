/** The CBI command engine (src/cbi.c) over an arbitrary platform adapter. */
module CbiEngine {
  import opened Bytes
  import opened Ufi
  import opened CbiProtocol

  /** The platform adapter as the engine sees it: each operation may return
      anything, and is recorded with what it returned. */
  class Io {
    ghost var trace: seq<Event>

    constructor ()
      ensures trace == []
    {
      trace := [];
    }

    method OpenSeize() returns (status: IoStatus)
      modifies this
      ensures trace == old(trace) + [Open(status)]
    {
      status := *;
      trace := trace + [Open(status)];
    }

    method CloseInterface() returns (status: IoStatus)
      modifies this
      ensures trace == old(trace) + [Close(status)]
    {
      status := *;
      trace := trace + [Close(status)];
    }

    method SendAdsc(block: CommandBlock) returns (status: IoStatus)
      modifies this
      ensures trace == old(trace) + [Adsc(block, status)]
    {
      status := *;
      trace := trace + [Adsc(block, status)];
    }

    method ReadBulk(length: nat) returns (status: IoStatus, data: seq<byte>, transferred: nat)
      modifies this
      ensures |data| == length
      ensures trace == old(trace) + [BulkIn(length, data, transferred, status)]
    {
      status, transferred := *, *;
      assert |Zeros(length)| == length;
      data :| |data| == length;
      trace := trace + [BulkIn(length, data, transferred, status)];
    }

    method WriteBulk(payload: seq<byte>) returns (status: IoStatus, transferred: nat)
      modifies this
      ensures trace == old(trace) + [BulkOut(payload, transferred, status)]
    {
      status, transferred := *, *;
      trace := trace + [BulkOut(payload, transferred, status)];
    }

    method ReadInterrupt() returns (status: IoStatus, completion: seq<byte>, transferred: nat)
      modifies this
      ensures |completion| == 2
      ensures trace == old(trace) + [Interrupt(completion, transferred, status)]
    {
      var first: byte, second: byte := *, *;
      status, transferred, completion := *, *, [first, second];
      trace := trace + [Interrupt(completion, transferred, status)];
    }

    method ClearPipeStall(direction: Direction) returns (status: IoStatus)
      modifies this
      ensures trace == old(trace) + [ClearStall(direction, status)]
    {
      status := *;
      trace := trace + [ClearStall(direction, status)];
    }

    method PrepareReset() returns (status: IoStatus)
      modifies this
      ensures trace == old(trace) + [Prepare(status)]
    {
      status := *;
      trace := trace + [Prepare(status)];
    }

    method FinishReset(recovered: bool) returns (status: IoStatus)
      modifies this
      ensures trace == old(trace) + [Finish(recovered, status)]
    {
      status := *;
      trace := trace + [Finish(recovered, status)];
    }
  }

  datatype ExchangeRecord = ExchangeRecord(
    adscStalled: bool, dataStalled: bool, transferred: nat, completion: seq<byte>)

  lemma LosesAppend(p: seq<Event>, e: Event)
    ensures Loses(p + [e]) <==> Loses(p) || EventLoses(e)
  {
    hide EventLoses;
    var q := p + [e];
    assert q[|p|] == e && forall i :: 0 <= i < |p| ==> q[i] == p[i];
    if Loses(p) {
      var i :| 0 <= i < |p| && EventLoses(p[i]);
      assert EventLoses(q[i]);
    }
  }

  /** The exchange is at its completion phase. */
  ghost predicate AwaitsCompletion(p: seq<Event>, block: CommandBlock, direction: Direction, buffer: seq<byte>) {
    && p != [] && p[0] == Adsc(block, Ok)
    && if direction == NoData then |p| == 1
       else
         && |p| > 1 && BulkPhase(p[1], direction, buffer)
         && if p[1].status == Stall then |p| == 3 && p[2] == ClearStall(direction, Ok)
            else |p| == 2 && p[1].status == Ok && p[1].transferred <= |buffer|
  }

  lemma CompletionEnds(p: seq<Event>, last: Event, block: CommandBlock, direction: Direction, buffer: seq<byte>)
    requires AwaitsCompletion(p, block, direction, buffer)
    requires last.Interrupt? && |last.completion| == 2
    ensures Exchange(p + [last], block, direction, buffer)
  {
    assert (p + [last])[1..] == p[1..] + [last];
    if direction != NoData {
      assert p[1..][0] == p[1];
      if p[1].status == Stall {
        assert p[1..] + [last] == [p[1], p[2], last];
        assert [p[1], p[2], last][2..] == [last];
      } else {
        assert (p[1..] + [last])[1..] == [last];
      }
    }
  }

  /** When the reset exchange counts as completed. */
  lemma ResetOutcome(reset: seq<Event>)
    requires Exchange(reset, RESET_BLOCK, NoData, [])
    ensures ResetCompleted(reset) <==>
              Status(reset) == Ok && !AdscStalled(reset) && Completion(reset) == [0, 0]
    ensures !DataStalled(reset) && |Completion(reset)| == 2
  {
    if Status(reset) == Ok && !AdscStalled(reset) {
      SuccessCompletes(reset, RESET_BLOCK, NoData, []);
    }
    assert |reset| > 1 ==> reset[1..][0] == reset[1];
  }

  /** How a run grows by one step. */
  lemma RunAppend(h: seq<Step>, s: Step)
    ensures EngineRun(h) && WellFormedStep(s) && Enabled(h, s) ==> EngineRun(h + [s])
    ensures FlatAll(h + [s]) == FlatAll(h) + Flat(s)
    ensures Owes(h + [s]) == (!Resynchronizes(s) && (StepLoses(s) || Owes(h)))
    ensures IsOpened(h + [s]) ==
              match s
              case Opened(status) => status == Ok || IsOpened(h)
              case Closed(status) => status != Ok && status != NoDevice && IsOpened(h)
              case Destroyed(_) => false
              case _ => IsOpened(h)
  {
    hide WellFormedStep, Enabled, StepLoses, Flat, Resynchronizes;
    assert (h + [s])[..|h|] == h;
  }

  lemma FailedSteps(c: Command, s: Step, status: IoStatus)
    requires s.Recovery? && RecoveryAttempt(s) && Validate(c) && status != Ok
    requires !Recovered(s) && status == RecoveryFailure(s)
    ensures CommandSteps(true, true, c, [s]) && ResultOf(c, [s]) == Failed(MapIoStatus(status))
    ensures DataAfter(c, [s]) == BufferOf(c)
  {
    hide Validate, RecoveryAttempt, RecoveryFailure, Recovered;
  }

  lemma RecoveredSteps(c: Command, recovery: seq<Step>, inner: seq<Step>)
    requires Validate(c) && ExchangeSteps(c, inner) && inner != [] && !inner[0].Recovery?
    requires recovery != [] ==>
               |recovery| == 1 && recovery[0].Recovery? && RecoveryAttempt(recovery[0]) && Recovered(recovery[0])
    ensures CommandSteps(true, recovery != [], c, recovery + inner)
    ensures ResultOf(c, recovery + inner) == ExchangeResult(c, inner)
    ensures DataAfter(c, recovery + inner) == DataOfExchange(c, inner)
  {
    hide Validate, RecoveryAttempt, RecoveryFailure, Recovered, ExchangeSteps, ExchangeResult, DataOfExchange;
    assert recovery == [] ==> recovery + inner == inner;
    assert recovery != [] ==> (recovery + inner)[1..] == inner;
  }

  class Engine {
    const io: Io
    var isOpen: bool
    var recoveryRequired: bool

    /** What the engine has done so far. */
    ghost var history: seq<Step>

    /** The wire trace is that of a run, and the engine requires recovery
        exactly when that run owes a reset. */
    ghost predicate Valid()
      reads this, io
    {
      && EngineRun(history)
      && io.trace == FlatAll(history)
      && isOpen == IsOpened(history)
      && recoveryRequired == Owes(history)
    }

    constructor ()
      ensures Valid() && fresh(io) && history == [] && !isOpen && !recoveryRequired
    {
      io := new Io();
      isOpen, recoveryRequired, history := false, false, [];
    }

    ghost method Record(s: Step)
      requires EngineRun(history) && WellFormedStep(s) && Enabled(history, s)
      requires io.trace == FlatAll(history) + Flat(s)
      requires recoveryRequired == (!Resynchronizes(s) && (StepLoses(s) || Owes(history)))
      requires isOpen == IsOpened(history + [s])
      modifies this`history
      ensures Valid() && history == old(history) + [s]
    {
      hide WellFormedStep, Enabled, StepLoses, Resynchronizes, IsOpened, Owes, EngineRun, Flat, FlatAll;
      RunAppend(history, s);
      history := history + [s];
    }

    /** phase_io_failure. */
    method PhaseFailure(status: IoStatus)
      modifies this`recoveryRequired
      ensures recoveryRequired == (old(recoveryRequired) || LosesPhase(status))
    {
      if LosesPhase(status) {
        recoveryRequired := true;
      }
    }

    /** run_exchange. `data` is the caller's buffer afterwards. */
    method RunExchange(block: CommandBlock, direction: Direction, buffer: seq<byte>)
      returns (status: IoStatus, x: ExchangeRecord, data: seq<byte>, ghost p: seq<Event>)
      modifies this`recoveryRequired, io
      ensures io.trace == old(io.trace) + p && Exchange(p, block, direction, buffer)
      ensures status == Status(p) && data == Data(p, buffer)
      ensures |data| == |buffer| && (direction != DataIn ==> data == buffer)
      ensures x == ExchangeRecord(AdscStalled(p), DataStalled(p), Transferred(p), Completion(p))
      ensures recoveryRequired == (old(recoveryRequired) || Loses(p))
    {
      data := buffer;
      x := ExchangeRecord(false, false, 0, [0, 0]);
      status := io.SendAdsc(block);
      p := [Adsc(block, status)];
      LosesAppend([], p[0]);
      assert [] + [p[0]] == p;
      if status == Stall {
        x := x.(adscStalled := true);
        return Ok, x, data, p;
      }
      if status != Ok {
        PhaseFailure(status);
        return;
      }
      hide Loses, Exchange;
      if direction == NoData {
        var completion;
        status, completion, p := CompleteExchange(block, direction, buffer, p);
        x := x.(completion := completion);
      } else {
        status, x, data, p := ExchangeData(block, direction, buffer, p);
      }
    }

    /** The bulk transfer itself. */
    method BulkTransfer(direction: Direction, buffer: seq<byte>)
      returns (status: IoStatus, transferred: nat, data: seq<byte>, ghost e: Event)
      requires direction != NoData
      modifies io
      ensures io.trace == old(io.trace) + [e]
      ensures BulkPhase(e, direction, buffer) && e.status == status && e.transferred == transferred
      ensures data == if e.BulkIn? then e.data else buffer
    {
      data := buffer;
      if direction == DataIn {
        status, data, transferred := io.ReadBulk(|buffer|);
        e := BulkIn(|buffer|, data, transferred, status);
      } else {
        status, transferred := io.WriteBulk(buffer);
        e := BulkOut(buffer, transferred, status);
      }
    }

    /** The data phase of an accepted command, and what follows it. */
    method ExchangeData(ghost block: CommandBlock, direction: Direction, buffer: seq<byte>, ghost sent: seq<Event>)
      returns (status: IoStatus, x: ExchangeRecord, data: seq<byte>, ghost p: seq<Event>)
      requires direction != NoData && sent == [Adsc(block, Ok)] && !Loses(sent)
      modifies this`recoveryRequired, io
      ensures sent <= p && io.trace == old(io.trace) + p[1..] && Exchange(p, block, direction, buffer)
      ensures status == Status(p) && data == Data(p, buffer)
      ensures |data| == |buffer| && (direction != DataIn ==> data == buffer)
      ensures x == ExchangeRecord(false, DataStalled(p), Transferred(p), Completion(p))
      ensures recoveryRequired == (old(recoveryRequired) || Loses(p))
    {
      hide Loses;
      var transferred;
      ghost var e: Event;
      status, transferred, data, e := BulkTransfer(direction, buffer);
      LosesAppend(sent, e);
      p := sent + [e];
      assert p[1..] == [e];
      x := ExchangeRecord(false, status == Stall, transferred, [0, 0]);
      if status == Stall {
        status := io.ClearPipeStall(direction);
        ghost var cleared := ClearStall(direction, status);
        LosesAppend(p, cleared);
        p := p + [cleared];
        assert p[1..] == [e, cleared];
        if status != Ok {
          PhaseFailure(status);
          return;
        }
      } else if status != Ok {
        PhaseFailure(status);
        return;
      } else if transferred > |buffer| {
        recoveryRequired := true;
        return Protocol, x, data, p;
      }
      ghost var before := p;
      hide Exchange;
      var completion;
      status, completion, p := CompleteExchange(block, direction, buffer, before);
      x := x.(completion := completion);
    }

    /** The completion interrupt of an exchange that got this far. */
    method CompleteExchange(ghost block: CommandBlock, ghost direction: Direction, ghost buffer: seq<byte>,
                            ghost before: seq<Event>)
      returns (status: IoStatus, completion: seq<byte>, ghost p: seq<Event>)
      requires AwaitsCompletion(before, block, direction, buffer) && !Loses(before)
      modifies this`recoveryRequired, io
      ensures |p| == |before| + 1 && before <= p && io.trace == old(io.trace) + p[|before|..]
      ensures Exchange(p, block, direction, buffer) && status == Status(p) && completion == Completion(p)
      ensures recoveryRequired == (old(recoveryRequired) || Loses(p))
    {
      var received;
      status, completion, received := io.ReadInterrupt();
      ghost var last := Interrupt(completion, received, status);
      LosesAppend(before, last);
      p := before + [last];
      assert p[|before|..] == [last];
      CompletionEnds(before, last, block, direction, buffer);
      hide Exchange, Loses, AwaitsCompletion;
      if status != Ok {
        PhaseFailure(status);
        return;
      }
      if received != 2 {
        recoveryRequired := true;
        return Protocol, completion, p;
      }
    }

    /** One attempt to send the reset block; `failure` is Ok exactly when it
        completed. */
    method ResetExchange() returns (failure: IoStatus, ghost reset: seq<Event>)
      requires recoveryRequired
      modifies this`recoveryRequired, io
      ensures io.trace == old(io.trace) + reset && Exchange(reset, RESET_BLOCK, NoData, [])
      ensures failure == if ResetCompleted(reset) then Ok
                         else if Status(reset) != Ok then Status(reset) else Protocol
      ensures recoveryRequired
    {
      var status, x, data;
      status, x, data, reset := RunExchange(RESET_BLOCK, NoData, []);
      ResetOutcome(reset);
      hide Exchange, ResetCompleted;
      if status != Ok {
        return status, reset;
      }
      if x.adscStalled || x.dataStalled {
        return Protocol, reset;
      }
      if x.completion[0] != 0 || x.completion[1] != 0 {
        return Protocol, reset;
      }
      return Ok, reset;
    }

    /** Clears both bulk pipes after a completed reset; the first failure is
        reported. */
    method ClearBothPipes() returns (failure: IoStatus, ghost clears: seq<Event>)
      modifies io
      ensures io.trace == old(io.trace) + clears
      ensures |clears| == 2 && clears[0].ClearStall? && clears[0].direction == DataIn
              && clears[1].ClearStall? && clears[1].direction == DataOut
      ensures failure == if clears[0].status != Ok then clears[0].status else clears[1].status
    {
      failure := Ok;
      var inStatus := io.ClearPipeStall(DataIn);
      var outStatus := io.ClearPipeStall(DataOut);
      if inStatus != Ok {
        failure := inStatus;
      }
      if outStatus != Ok && failure == Ok {
        failure := outStatus;
      }
      clears := [ClearStall(DataIn, inStatus), ClearStall(DataOut, outStatus)];
    }

    /** The reset between prepare and finish; `failure` is Ok exactly when
        recovery is complete up to finish. */
    method ResetAndClear() returns (failure: IoStatus, ghost reset: seq<Event>, ghost clears: seq<Event>)
      requires recoveryRequired
      modifies this`recoveryRequired, io
      ensures recoveryRequired && io.trace == old(io.trace) + reset + clears
      ensures Exchange(reset, RESET_BLOCK, NoData, [])
      ensures !ResetCompleted(reset) ==>
                clears == [] && failure == if Status(reset) != Ok then Status(reset) else Protocol
      ensures ResetCompleted(reset) ==>
                |clears| == 2 && clears[0].ClearStall? && clears[0].direction == DataIn
                && clears[1].ClearStall? && clears[1].direction == DataOut
                && failure == if clears[0].status != Ok then clears[0].status else clears[1].status
    {
      hide Exchange, ResetCompleted;
      failure, reset := ResetExchange();
      clears := [];
      if failure == Ok {
        failure, clears := ClearBothPipes();
      }
    }

    /** recover_if_required. */
    method RecoverIfRequired() returns (status: IoStatus, ghost steps: seq<Step>)
      requires Valid() && isOpen
      modifies this, io
      ensures Valid() && history == old(history) + steps && isOpen
      ensures !old(recoveryRequired) ==> steps == [] && status == Ok
      ensures old(recoveryRequired) ==>
                |steps| == 1 && steps[0].Recovery? && RecoveryAttempt(steps[0])
                && (status == Ok <==> Recovered(steps[0]))
                && (status != Ok ==> status == RecoveryFailure(steps[0]))
      ensures recoveryRequired <==> status != Ok
    {
      if !recoveryRequired {
        return Ok, [];
      }
      ghost var s;
      status, s := Recover();
      steps := [s];
    }

    method Recover() returns (status: IoStatus, ghost s: Step)
      requires Valid() && isOpen && recoveryRequired
      modifies this, io
      ensures Valid() && history == old(history) + [s] && isOpen
      ensures s.Recovery? && RecoveryAttempt(s)
      ensures status == Ok <==> Recovered(s)
      ensures status != Ok ==> status == RecoveryFailure(s)
      ensures recoveryRequired <==> status != Ok
    {
      hide EngineRun, FlatAll, Owes, IsOpened, Exchange, ResetCompleted, Status;
      status := io.PrepareReset();
      if status != Ok {
        s := Recovery(status, [], [], []);
        RunAppend(history, s);
        Record(s);
        return;
      }
      ghost var reset, clears;
      var failure;
      failure, reset, clears := ResetAndClear();
      var recovered := failure == Ok;
      var finishStatus := io.FinishReset(recovered);
      s := Recovery(Ok, reset, clears, [Finish(recovered, finishStatus)]);
      if recovered {
        failure := finishStatus;
      }
      if failure == Ok {
        recoveryRequired := false;
      }
      status := failure;
      RunAppend(history, s);
      Record(s);
    }

    /** fetch_sense. */
    method FetchSense()
      returns (status: TransportStatus, sense: Ufi.Sense, ghost p: seq<Event>)
      modifies this`recoveryRequired, io
      ensures io.trace == old(io.trace) + p
      ensures Exchange(p, Pad(SenseCommand()), DataIn, Zeros(UFI_SENSE_LENGTH))
      ensures Status(p) != Ok ==> status == MapIoStatus(Status(p)) && sense == NO_SENSE
      ensures Status(p) == Ok && SenseOf(p).None? ==> status == BadProtocol && sense == SenseLeft(p)
      ensures Status(p) == Ok && SenseOf(p).Some? ==> status == Success && sense == SenseOf(p).value
      ensures recoveryRequired == (old(recoveryRequired) || Loses(p) || (Status(p) == Ok && SenseOf(p).None?))
    {
      hide Exchange, Loses;
      sense := NO_SENSE;
      var ioStatus, x, data;
      ioStatus, x, data, p := RunExchange(Pad(SenseCommand()), DataIn, Zeros(UFI_SENSE_LENGTH));
      if ioStatus != Ok {
        return MapIoStatus(ioStatus), sense, p;
      }
      if x.adscStalled || x.dataStalled || x.transferred != UFI_SENSE_LENGTH {
        recoveryRequired := true;
        return BadProtocol, sense, p;
      }
      var parsed := ParseSense(data);
      if parsed.None? {
        recoveryRequired := true;
        return BadProtocol, SenseRecord(data), p;
      }
      return Success, parsed.value, p;
    }

    /** cbi_acquire. */
    method Acquire() returns (status: TransportStatus)
      requires Valid()
      modifies this, io
      ensures Valid()
      ensures old(isOpen) ==> status == Success && history == old(history)
      ensures !old(isOpen) ==> exists s :: history == old(history) + [Opened(s)] && status == MapIoStatus(s)
      ensures isOpen <==> old(isOpen) || status == Success
    {
      hide EngineRun, FlatAll, Owes, IsOpened;
      if isOpen {
        return Success;
      }
      var s := io.OpenSeize();
      RunAppend(history, Opened(s));
      if s == Ok {
        isOpen, recoveryRequired := true, false;
      }
      Record(Opened(s));
      return MapIoStatus(s);
    }

    /** cbi_release. The engine stays open when closing fails, unless the
        device is gone. */
    method Release() returns (status: TransportStatus)
      requires Valid()
      modifies this, io
      ensures Valid()
      ensures !old(isOpen) ==> status == Success && history == old(history)
      ensures old(isOpen) ==> exists s :: history == old(history) + [Closed(s)] && status == MapIoStatus(s)
      ensures isOpen <==> old(isOpen) && status != Success && status != DeviceGone
      ensures recoveryRequired == old(recoveryRequired)
    {
      hide EngineRun, FlatAll, Owes, IsOpened;
      if !isOpen {
        return Success;
      }
      var s := io.CloseInterface();
      RunAppend(history, Closed(s));
      if s == Ok || s == NoDevice {
        isOpen := false;
      }
      Record(Closed(s));
      return MapIoStatus(s);
    }

    /** cbi_destroy, up to the freeing of memory. */
    method Destroy()
      requires Valid()
      modifies this, io
      ensures Valid() && !isOpen
      ensures exists closing :: history == old(history) + [Destroyed(closing)] && (closing != [] <==> old(isOpen))
    {
      ghost var closing := [];
      if isOpen {
        var s := io.CloseInterface();
        closing := [Close(s)];
        isOpen := false;
      }
      RunAppend(history, Destroyed(closing));
      Record(Destroyed(closing));
    }

    /** execute_request_sense. */
    method ExecuteRequestSense(c: Command) returns (r: CommandResult, data: seq<byte>, ghost p: seq<Event>)
      requires Validate(c) && c.cdb[0] == REQUEST_SENSE && c.cdbLength <= 12
      requires Valid() && isOpen && !recoveryRequired
      modifies this, io
      ensures Valid() && history == old(history) + [CallerSense(c, p)] && isOpen
      ensures r == ExchangeResult(c, [CallerSense(c, p)])
      ensures data == Data(p, BufferOf(c)) && |data| == |BufferOf(c)| && c.direction == DataIn
    {
      ghost var h := history;
      ValidateContains(c);
      hide Validate, EngineRun, FlatAll, Owes, IsOpened, Exchange, Loses, Status, Data, Completion;
      var status, x;
      status, x, data, p := RunExchange(Pad(c), DataIn, BufferOf(c));
      ghost var s := CallerSense(c, p);
      RunAppend(h, s);
      r := CommandResult(MapIoStatus(status), SCSI_GOOD, x.transferred, NO_SENSE);
      if status != Ok {
        Record(s);
        return;
      }
      if x.adscStalled || x.dataStalled {
        r := r.(transport := BadProtocol);
        recoveryRequired := true;
        Record(s);
        return;
      }
      SuccessCompletes(p, Pad(c), DataIn, BufferOf(c));
      var parsed := ParseSense(data[..x.transferred]);
      r := r.(sense := SenseRecord(data[..x.transferred]));
      if parsed.None? {
        r := r.(transport := BadProtocol);
        recoveryRequired := true;
        Record(s);
        return;
      }
      Record(s);
    }

    lemma CallerSenseSteps(c: Command, p: seq<Event>)
      requires c.cdb[0] == REQUEST_SENSE
      ensures ExchangeSteps(c, [CallerSense(c, p)])
    {
    }

    /** How the sense data completes the result of an ordinary command. */
    method JudgeSense(c: Command, x: ExchangeRecord, senseStatus: TransportStatus, sense: Ufi.Sense,
                      ghost main: seq<Event>, ghost p: seq<Event>)
      returns (r: CommandResult)
      requires x == ExchangeRecord(AdscStalled(main), DataStalled(main), Transferred(main), Completion(main))
      requires Status(p) != Ok ==> senseStatus == MapIoStatus(Status(p)) && sense == NO_SENSE
      requires Status(p) == Ok && SenseOf(p).None? ==> senseStatus == BadProtocol && sense == SenseLeft(p)
      requires Status(p) == Ok && SenseOf(p).Some? ==> senseStatus == Success && sense == SenseOf(p).value
      modifies this`recoveryRequired
      ensures r == MainResult(c, main, p)
      ensures recoveryRequired == (old(recoveryRequired) ||
                (Status(p) == Ok && SenseOf(p).Some? &&
                 (Disagrees(main, SenseOf(p).value) || WrongCount(c, main))))
    {
      hide SenseOf, SenseLeft, Status, AdscStalled, DataStalled, Transferred, Completion;
      r := CommandResult(senseStatus, SCSI_GOOD, x.transferred, sense);
      if senseStatus != Success {
        return;
      }
      if !x.adscStalled && x.completion != [sense.asc, sense.ascq] {
        r := r.(transport := BadProtocol);
        recoveryRequired := true;
        return;
      }
      var forcedFailure := x.adscStalled || x.dataStalled;
      var exactDataRequired := c.direction == DataOut || c.cdb[0] == READ_10;
      if exactDataRequired && !forcedFailure && x.transferred != c.DataLength() {
        r := r.(transport := BadProtocol);
        recoveryRequired := true;
        return;
      }
      r := r.(scsi := if forcedFailure || sense.key > 1 then SCSI_CHECK_CONDITION else SCSI_GOOD);
    }

    /** The command's own exchange, as one step of the run. */
    method MainExchange(c: Command)
      returns (status: IoStatus, x: ExchangeRecord, data: seq<byte>, ghost main: seq<Event>)
      requires Validate(c) && c.cdb[0] != REQUEST_SENSE && c.cdbLength <= 12
      requires Valid() && isOpen && !recoveryRequired
      modifies this, io
      ensures Valid() && history == old(history) + [Main(c, main)] && isOpen
      ensures status == Status(main)
      ensures x == ExchangeRecord(AdscStalled(main), DataStalled(main), Transferred(main), Completion(main))
      ensures status == Ok ==> !recoveryRequired
      ensures data == Data(main, BufferOf(c))
      ensures |data| == |BufferOf(c)| && (c.direction != DataIn ==> data == BufferOf(c))
    {
      hide EngineRun, FlatAll, Owes, IsOpened, Exchange, Loses, Validate, Status;
      status, x, data, main := RunExchange(Pad(c), c.direction, BufferOf(c));
      if status == Ok {
        ExchangeNotLost(main, Pad(c), c.direction, BufferOf(c));
      }
      RunAppend(history, Main(c, main));
      Record(Main(c, main));
    }

    /** The internal REQUEST SENSE after it, as the next step. */
    method SenseExchange(c: Command, x: ExchangeRecord, ghost main: seq<Event>)
      returns (r: CommandResult, ghost s: Step)
      requires Valid() && isOpen && !recoveryRequired
      requires history != [] && history[|history| - 1] == Main(c, main) && Status(main) == Ok
      requires x == ExchangeRecord(AdscStalled(main), DataStalled(main), Transferred(main), Completion(main))
      modifies this, io
      ensures Valid() && history == old(history) + [s] && isOpen
      ensures s.Sense? && s.command == c && s.main == main && r == MainResult(c, main, s.phases)
    {
      hide EngineRun, FlatAll, Owes, IsOpened, Exchange, Loses, SenseOf, Status, MainResult, Disagrees, WrongCount,
           AdscStalled, DataStalled, Transferred, Completion;
      ghost var p: seq<Event>;
      var senseStatus, sense;
      senseStatus, sense, p := FetchSense();
      r := JudgeSense(c, x, senseStatus, sense, main, p);
      s := Step.Sense(c, main, p);
      RunAppend(history, s);
      Record(s);
    }

    /** The exchange of an ordinary command and its internal REQUEST SENSE:
        the last part of cbi_execute. */
    method ExecuteOrdinary(c: Command) returns (r: CommandResult, data: seq<byte>, ghost steps: seq<Step>)
      requires Validate(c) && c.cdb[0] != REQUEST_SENSE && c.cdbLength <= 12
      requires Valid() && isOpen && !recoveryRequired
      modifies this, io
      ensures Valid() && history == old(history) + steps && isOpen
      ensures ExchangeSteps(c, steps) && r == ExchangeResult(c, steps)
      ensures data == DataOfExchange(c, steps)
      ensures |data| == |BufferOf(c)| && (c.direction != DataIn ==> data == BufferOf(c))
      ensures steps != [] && !steps[0].Recovery?
    {
      hide EngineRun, FlatAll, Owes, IsOpened, Validate, Status, MainResult, Flat,
           AdscStalled, DataStalled, Transferred, Completion;
      ghost var main: seq<Event>;
      var status, x;
      status, x, data, main := MainExchange(c);
      steps := [Main(c, main)];
      if status != Ok {
        r := CommandResult(MapIoStatus(status), SCSI_GOOD, x.transferred, NO_SENSE);
        return;
      }
      ghost var s: Step;
      r, s := SenseExchange(c, x, main);
      steps := steps + [s];
    }

    /** The command proper, once no reset is owed. */
    method ExecuteSynchronized(c: Command) returns (r: CommandResult, data: seq<byte>, ghost steps: seq<Step>)
      requires Validate(c) && c.cdbLength <= 12
      requires Valid() && isOpen && !recoveryRequired
      modifies this, io
      ensures Valid() && history == old(history) + steps && isOpen
      ensures ExchangeSteps(c, steps) && r == ExchangeResult(c, steps)
      ensures data == DataOfExchange(c, steps)
      ensures |data| == |BufferOf(c)| && (c.direction != DataIn ==> data == BufferOf(c))
      ensures steps != [] && !steps[0].Recovery?
    {
      hide Validate, EngineRun, FlatAll, Owes, IsOpened, ExchangeSteps, ExchangeResult, Data;
      if c.cdb[0] == REQUEST_SENSE {
        ghost var p: seq<Event>;
        r, data, p := ExecuteRequestSense(c);
        steps := [CallerSense(c, p)];
        CallerSenseSteps(c, p);
      } else {
        r, data, steps := ExecuteOrdinary(c);
      }
    }

    /** Recovery, if owed, and then the command. */
    method ExecutePermitted(c: Command) returns (r: CommandResult, data: seq<byte>, ghost steps: seq<Step>)
      requires Validate(c) && c.cdbLength <= 12
      requires Valid() && isOpen
      modifies this, io
      ensures Valid() && history == old(history) + steps && isOpen
      ensures CommandSteps(true, old(recoveryRequired), c, steps)
      ensures r == ResultOf(c, steps)
      ensures data == DataAfter(c, steps)
      ensures |data| == |BufferOf(c)| && (c.direction != DataIn ==> data == BufferOf(c))
    {
      hide Validate, EngineRun, FlatAll, Owes, IsOpened, ExchangeSteps, ExchangeResult, RecoveryAttempt,
           RecoveryFailure, Recovered, Flat, CommandSteps, ResultOf, DataAfter, DataOfExchange;
      ghost var recovery: seq<Step>;
      var status;
      status, recovery := RecoverIfRequired();
      if status != Ok {
        r, data, steps := Failed(MapIoStatus(status)), BufferOf(c), recovery;
        assert steps == [steps[0]];
        FailedSteps(c, steps[0], status);
      } else {
        ghost var h := history;
        r, data, steps := ExecuteSynchronized(c);
        assert h + steps == old(history) + (recovery + steps);
        RecoveredSteps(c, recovery, steps);
        steps := recovery + steps;
      }
    }

    /** cbi_execute: the steps it takes are those of CommandSteps, and the
        result is the one they determine. The allowlist already bounds the
        block and confines data-out, so the two checks that follow it in the
        source cannot fail. */
    method Execute(c: Command) returns (r: CommandResult, data: seq<byte>, ghost steps: seq<Step>)
      requires Valid()
      modifies this, io
      ensures Valid() && history == old(history) + steps && isOpen == old(isOpen)
      ensures CommandSteps(old(isOpen), old(recoveryRequired), c, steps)
      ensures r == ResultOf(c, steps)
      ensures data == DataAfter(c, steps)
      ensures |data| == |BufferOf(c)| && (c.direction != DataIn ==> data == BufferOf(c))
    {
      hide EngineRun, FlatAll, Owes, IsOpened, ExchangeSteps, RecoveryAttempt, Recovered, Validate;
      if !isOpen || !Validate(c) {
        return Failed(BadProtocol), BufferOf(c), [];
      }
      ValidateContains(c);
      assert c.cdbLength <= 12 && (c.direction == DataOut ==> c.cdb[0] == MODE_SELECT_10);
      hide CommandSteps, ResultOf, DataAfter;
      r, data, steps := ExecutePermitted(c);
    }
  }
}
