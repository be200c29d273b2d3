/** The macOS adapter's flags (src/usb_cbi_macos.c): whether the interface is
    open, whether the adapter thinks the device out of step, whether one reset
    block is armed, and whether an interrupt request is outstanding. Every
    call into the USB stack may return anything; all calls come from the
    thread that acquired the transport. */
module MacAdapter {
  import opened Bytes
  import opened Ufi
  import opened CbiProtocol

  datatype IoReturn =
    | KSuccess
    | KPipeStalled
    | KNotPrivileged
    | KNotPermitted
    | KExclusiveAccess
    | KNoDevice
    | KOffline
    | KTimeout
    | KTransactionTimeout
    | KBadArgument
    | KUnsupported
    | KOther(code: int)

  function MapIoReturn(r: IoReturn): IoStatus {
    match r
    case KSuccess => Ok
    case KPipeStalled => Stall
    case KNotPrivileged => Permission
    case KNotPermitted => Permission
    case KExclusiveAccess => Permission
    case KNoDevice => NoDevice
    case KOffline => NoDevice
    case KTimeout => Timeout
    case KTransactionTimeout => Timeout
    case KBadArgument => Protocol
    case KUnsupported => Protocol
    case KOther(_) => Error
  }

  /** What status a return is reported with. */
  ghost predicate Reports(r: IoReturn, s: IoStatus) {
    && (s == Ok <==> r == KSuccess)
    && (s == Stall <==> r == KPipeStalled)
    && (s == Permission <==> r in {KNotPrivileged, KNotPermitted, KExclusiveAccess})
    && (s == NoDevice <==> r in {KNoDevice, KOffline})
    && (s == Timeout <==> r in {KTimeout, KTransactionTimeout})
    && (s == Protocol <==> r in {KBadArgument, KUnsupported})
    && (s == Error <==> r.KOther?)
  }

  /** Which returns make the engine owe a reset. */
  lemma ReturnsThatLose(r: IoReturn, s: IoStatus)
    requires Reports(r, s)
    ensures s == MapIoReturn(r)
    ensures LosesPhase(s) <==>
              r in {KTimeout, KTransactionTimeout, KBadArgument, KUnsupported} || r.KOther?
  {
  }

  lemma MappingReports()
    ensures forall r :: Reports(r, MapIoReturn(r))
    ensures forall r :: MapIoReturn(r) == Ok <==> r == KSuccess
  {
  }

  const UINT32_MAX: nat := 0xFFFF_FFFF

  /** The adapter's flags. */
  datatype Mac = Mac(open: bool, desync: bool, armed: bool, pending: bool)

  /** ready_for_adsc: the control request is sent. */
  predicate Ready(m: Mac, block: CommandBlock) {
    var reset := block == RESET_BLOCK;
    !m.pending && m.armed == reset && (m.desync ==> reset)
  }

  /** Which flag changes go with which outcome of an operation. */
  predicate MacStep(m: Mac, e: Event, n: Mac) {
    match e
    case Open(s) =>
      if m.open then s == Ok && n == m
      else if s == Ok then n == m.(open := true, desync := false, armed := false)
      else n == m || n == m.(desync := false, armed := false)
    case Close(s) =>
      if !m.open then s == Ok && n == m
      else n == m.(open := false, armed := false, pending := false)
    case Adsc(block, s) =>
      if !Ready(m, block) then s == Protocol && n == m
      else if s == Timeout then n == m.(desync := true)
      else n == m || (s == Protocol && n == m.(desync := true))
    case BulkIn(_, _, k, s) =>
      && n == (if s == Timeout then m.(desync := true) else m)
      && (s != Ok ==> k == 0)
    case BulkOut(payload, k, s) =>
      && n == (if s == Timeout then m.(desync := true) else m)
      && k == (if s == Ok then |payload| else 0)
    case Interrupt(_, k, s) =>
      if m.pending then s == Protocol && n == m
      else if s == Ok then k == 2 && n == m
      else n == m || n == m.(desync := true) || n == m.(desync := true, pending := true)
    case ClearStall(d, s) => n == m && (d == NoData ==> s == Protocol)
    case Prepare(s) =>
      if !m.open || m.armed then s == Protocol && n == m
      else if s == Ok then n == m.(pending := false, armed := true)
      else n == m || n == m.(pending := false)
    case Finish(recovered, s) =>
      if !m.armed then s == Protocol && n == m.(desync := true)
      else s == Ok && n == m.(armed := false, desync := !recovered)
  }

  // ----- the USB stack -----

  /** What the USB stack answered: the return of a call, a transfer with its
      byte count, or something the adapter looked at. */
  datatype Answer =
    | Returned(result: IoReturn)
    | Moved(result: IoReturn, count: nat)
    | Observed(seen: bool)

  class UsbStack {
    ghost var log: seq<Answer>

    constructor ()
      ensures log == []
    {
      log := [];
    }

    method Invoke() returns (result: IoReturn)
      modifies this
      ensures log == old(log) + [Returned(result)]
    {
      result := *;
      log := log + [Returned(result)];
    }

    method Transfer() returns (result: IoReturn, count: nat)
      modifies this
      ensures log == old(log) + [Moved(result, count)]
    {
      result, count := *, *;
      log := log + [Moved(result, count)];
    }

    method Observe() returns (seen: bool)
      modifies this
      ensures log == old(log) + [Observed(seen)]
    {
      seen := *;
      log := log + [Observed(seen)];
    }
  }

  /** Draining asks whether the callback has fired; if not it aborts the pipe
      and, if that worked, asks again. */
  ghost predicate DrainOutcome(pending: bool, d: seq<Answer>, result: IoReturn) {
    if !pending then d == [] && result == KSuccess
    else
      && |d| >= 1 && d[0].Observed?
      && if d[0].seen then |d| == 1 && result == KSuccess
         else
           && |d| >= 2 && d[1].Returned?
           && if d[1].result != KSuccess then |d| == 2 && result == d[1].result
              else |d| == 3 && d[2].Observed? && result == if d[2].seen then KSuccess else KTimeout
  }

  /** Opening succeeds exactly if the seizure, the endpoints and the event
      source are all as they should be; a seized interface is closed again
      otherwise. */
  ghost predicate OpenOutcome(m: Mac, isRoot: bool, a: seq<Answer>, s: IoStatus, n: Mac) {
    if m.open then a == [] && s == Ok && n == m
    else
      && |a| >= 1 && a[0].Returned?
      && if a[0].result != KSuccess then
           && |a| == 1 && n == m
           && if a[0].result == KExclusiveAccess && isRoot then s == Error else Reports(a[0].result, s)
         else SeizedOutcome(m, a[1..], s, n)
  }

  /** The rest of opening, once the interface is seized. */
  ghost predicate SeizedOutcome(m: Mac, a: seq<Answer>, s: IoStatus, n: Mac) {
    && |a| >= 1 && a[0].Observed?
    && if !a[0].seen then
         |a| == 2 && a[1].Returned? && s == Protocol && n == m.(desync := false, armed := false)
       else
         && |a| >= 3 && a[1].Returned? && a[2].Observed?
         && if a[1].result == KSuccess && a[2].seen then
              |a| == 3 && s == Ok && n == m.(open := true, desync := false, armed := false)
            else
              && |a| == 4 && a[3].Returned? && n == m.(desync := false, armed := false)
              && if a[1].result == KSuccess then s == Error else Reports(a[1].result, s)
  }

  /** Closing drains and closes, whatever comes of it, and reports the first
      failure. */
  ghost predicate CloseOutcome(m: Mac, d: seq<Answer>, a: seq<Answer>, s: IoStatus, n: Mac) {
    if !m.open then d == [] && a == [] && s == Ok && n == m
    else
      && |a| == 1 && a[0].Returned? && n == m.(open := false, armed := false, pending := false)
      && exists r :: DrainOutcome(m.pending, d, r) && Reports(if r != KSuccess then r else a[0].result, s)
  }

  /** A block that may be sent is sent; twelve bytes are success, and a timeout
      or fewer bytes put the adapter in doubt. */
  ghost predicate AdscOutcome(m: Mac, block: CommandBlock, a: seq<Answer>, s: IoStatus, n: Mac) {
    if m.pending || m.armed != (block == RESET_BLOCK) || (m.desync && !m.armed) then
      a == [] && s == Protocol && n == m
    else
      && |a| == 1 && a[0].Moved?
      && var short := a[0].result == KSuccess && a[0].count != 12;
      && (if short then s == Protocol else Reports(a[0].result, s))
      && n == if short || s == Timeout then m.(desync := true) else m
  }

  /** A transfer is tried unless it is too long; a timeout also clears the
      pipe, with no regard to whether that works. */
  ghost predicate BulkOutcome(m: Mac, length: nat, a: seq<Answer>, s: IoStatus, n: Mac) {
    if length > 0xffff_ffff then a == [] && s == Protocol && n == m
    else
      && |a| >= 1 && a[0].Moved? && Reports(a[0].result, s)
      && if s == Timeout then |a| == 2 && a[1].Returned? && n == m.(desync := true) else |a| == 1 && n == m
  }

  /** A request that did not complete in time is drained; if that failed and
      the callback has still not fired, it stays. */
  ghost predicate TimeoutOutcome(m: Mac, d: seq<Answer>, rest: seq<Answer>, s: IoStatus, n: Mac) {
    && |rest| == 1
    && (exists r ::
          && DrainOutcome(true, d, r)
          && if r != KSuccess then
               && rest[0].Observed? && Reports(r, s)
               && n == m.(desync := true, pending := !rest[0].seen)
             else rest[0].Returned? && s == Timeout && n == m.(desync := true, pending := false))
  }

  /** The completion: refused while a request is pending; otherwise memory, the
      submission, and whether the callback fires in time decide in turn. */
  ghost predicate InterruptOutcome(
      m: Mac, a: seq<Answer>, d: seq<Answer>, rest: seq<Answer>, k: nat, s: IoStatus, n: Mac)
  {
    if m.pending then a == [] && d == [] && rest == [] && s == Protocol && n == m
    else
      && |a| >= 1 && a[0].Observed?
      && if !a[0].seen then |a| == 1 && d == [] && rest == [] && s == Error && n == m
         else
           && |a| >= 2 && a[1].Returned?
           && if a[1].result != KSuccess then
                |a| == 2 && d == [] && rest == [] && Reports(a[1].result, s) && n == m
              else
                && |a| >= 3 && a[2].Observed?
                && if a[2].seen then
                     && |a| == 4 && a[3].Moved? && d == [] && rest == [] && k == a[3].count
                     && (if a[3].result == KSuccess && k != 2 then s == Protocol else Reports(a[3].result, s))
                     && n == if s == Ok then m else m.(desync := true)
                   else
                     |a| == 3 && TimeoutOutcome(m, d, rest, s, n)
  }

  /** Preparing succeeds exactly if the adapter is open and disarmed, the
      request drains, and the interrupt pipe clears. */
  ghost predicate PrepareOutcome(m: Mac, d: seq<Answer>, rest: seq<Answer>, s: IoStatus, n: Mac) {
    if !m.open || m.armed then d == [] && rest == [] && s == Protocol && n == m
    else
      && |rest| == 1
      && (exists r ::
            && DrainOutcome(m.pending, d, r)
            && if r != KSuccess then
                 && rest[0].Observed? && Reports(r, s)
                 && n == m.(pending := m.pending && !rest[0].seen)
               else
                 && rest[0].Returned? && Reports(rest[0].result, s)
                 && n == m.(pending := false, armed := s == Ok))
  }

  class MacCbi {
    const usb: UsbStack
    var isOpen: bool
    var desynchronized: bool
    var resetArmed: bool
    var interruptPending: bool

    /** The command blocks handed to the control pipe. */
    ghost var wire: seq<CommandBlock>

    function State(): Mac
      reads this
    {
      Mac(isOpen, desynchronized, resetArmed, interruptPending)
    }

    constructor ()
      ensures State() == Mac(false, false, false, false) && wire == [] && fresh(usb)
    {
      usb := new UsbStack();
      isOpen, desynchronized, resetArmed, interruptPending, wire := false, false, false, false, [];
    }

    /** abort_and_drain_interrupt. */
    method AbortAndDrainInterrupt() returns (result: IoReturn, ghost d: seq<Answer>)
      modifies usb
      ensures usb.log == old(usb.log) + d && DrainOutcome(interruptPending, d, result)
    {
      result, d := KSuccess, [];
      if interruptPending {
        var fired := usb.Observe();
        d := [Observed(fired)];
        if !fired {
          result := usb.Invoke();
          d := d + [Returned(result)];
          if result == KSuccess {
            fired := usb.Observe();
            d := d + [Observed(fired)];
            if !fired {
              result := KTimeout;
            }
          }
        }
      }
    }

    method OpenSeize(isRoot: bool) returns (status: IoStatus, ghost a: seq<Answer>)
      modifies this`isOpen, this`desynchronized, this`resetArmed, usb
      ensures MacStep(old(State()), Open(status), State())
      ensures usb.log == old(usb.log) + a && OpenOutcome(old(State()), isRoot, a, status, State())
    {
      MappingReports();
      hide Reports;
      a := [];
      if isOpen {
        return Ok, a;
      }
      var result := usb.Invoke();
      a := [Returned(result)];
      if result == KExclusiveAccess {
        assert MapIoReturn(KExclusiveAccess) == Permission;
        return if isRoot then Error else Permission, a;
      }
      if result != KSuccess {
        return MapIoReturn(result), a;
      }
      ghost var more;
      status, more := SetUpSeized();
      assert ([Returned(result)] + more)[1..] == more;
      a := a + more;
    }

    /** Endpoints and event source of a seized interface. */
    method SetUpSeized() returns (status: IoStatus, ghost a: seq<Answer>)
      requires !isOpen
      modifies this`isOpen, this`desynchronized, this`resetArmed, usb
      ensures usb.log == old(usb.log) + a && SeizedOutcome(old(State()), a, status, State())
      ensures status == Ok <==> isOpen
    {
      MappingReports();
      hide Reports;
      isOpen, desynchronized, resetArmed := true, false, false;
      var endpointsAsExpected := usb.Observe();
      a := [Observed(endpointsAsExpected)];
      if !endpointsAsExpected {
        var ignored := usb.Invoke();
        a := a + [Returned(ignored)];
        isOpen := false;
        return Protocol, a;
      }
      var result := usb.Invoke();
      var haveSource := usb.Observe();
      a := a + [Returned(result), Observed(haveSource)];
      if result != KSuccess || !haveSource {
        var ignored := usb.Invoke();
        a := a + [Returned(ignored)];
        isOpen := false;
        return if result == KSuccess then Error else MapIoReturn(result), a;
      }
      return Ok, a;
    }

    method CloseInterface() returns (status: IoStatus, ghost d: seq<Answer>, ghost a: seq<Answer>)
      modifies this`isOpen, this`resetArmed, this`interruptPending, usb
      ensures MacStep(old(State()), Close(status), State())
      ensures usb.log == old(usb.log) + d + a && CloseOutcome(old(State()), d, a, status, State())
    {
      d, a := [], [];
      if !isOpen {
        return Ok, d, a;
      }
      var aborted;
      aborted, d := AbortAndDrainInterrupt();
      var result := usb.Invoke();
      a := [Returned(result)];
      isOpen, resetArmed, interruptPending := false, false, false;
      return MapIoReturn(if aborted != KSuccess then aborted else result), d, a;
    }

    method SendAdsc(block: CommandBlock) returns (status: IoStatus, ghost a: seq<Answer>)
      modifies this`desynchronized, this`wire, usb
      ensures MacStep(old(State()), Adsc(block, status), State())
      ensures wire == old(wire) + if a != [] then [block] else []
      ensures usb.log == old(usb.log) + a && AdscOutcome(old(State()), block, a, status, State())
    {
      a := [];
      if !Ready(State(), block) {
        return Protocol, a;
      }
      wire := wire + [block];
      var result, sent := usb.Transfer();
      a := [Moved(result, sent)];
      if result != KSuccess {
        if result == KTimeout || result == KTransactionTimeout {
          desynchronized := true;
        }
        return MapIoReturn(result), a;
      }
      if sent != 12 {
        desynchronized := true;
        return Protocol, a;
      }
      return Ok, a;
    }

    /** A bulk transfer and what becomes of it. */
    method BulkResult() returns (status: IoStatus, moved: nat, ghost a: seq<Answer>)
      modifies this`desynchronized, usb
      ensures usb.log == old(usb.log) + a && BulkOutcome(old(State()), 0, a, status, State())
      ensures moved == a[0].count
    {
      var result;
      result, moved := usb.Transfer();
      a := [Moved(result, moved)];
      if result == KTimeout || result == KTransactionTimeout {
        desynchronized := true;
        var ignored := usb.Invoke();
        a := a + [Returned(ignored)];
      }
      status := MapIoReturn(result);
    }

    method ReadBulk(length: nat)
      returns (status: IoStatus, data: seq<byte>, transferred: nat, ghost a: seq<Answer>)
      modifies this`desynchronized, usb
      ensures |data| == length
      ensures MacStep(old(State()), BulkIn(length, data, transferred, status), State())
      ensures usb.log == old(usb.log) + a && BulkOutcome(old(State()), length, a, status, State())
      ensures transferred == if status == Ok then a[0].count else 0
    {
      assert |Zeros(length)| == length;
      data :| |data| == length;
      a := [];
      if length > UINT32_MAX {
        return Protocol, data, 0, a;
      }
      var moved;
      status, moved, a := BulkResult();
      transferred := if status == Ok then moved else 0;
    }

    method WriteBulk(payload: seq<byte>) returns (status: IoStatus, transferred: nat, ghost a: seq<Answer>)
      modifies this`desynchronized, usb
      ensures MacStep(old(State()), BulkOut(payload, transferred, status), State())
      ensures usb.log == old(usb.log) + a && BulkOutcome(old(State()), |payload|, a, status, State())
    {
      a := [];
      if |payload| > UINT32_MAX {
        return Protocol, 0, a;
      }
      var moved;
      status, moved, a := BulkResult();
      transferred := if status == Ok then |payload| else 0;
    }

    method ReadInterrupt()
      returns (status: IoStatus, completion: seq<byte>, transferred: nat,
               ghost a: seq<Answer>, ghost d: seq<Answer>, ghost rest: seq<Answer>)
      modifies this`desynchronized, this`interruptPending, usb
      ensures |completion| == 2
      ensures MacStep(old(State()), Interrupt(completion, transferred, status), State())
      ensures usb.log == old(usb.log) + a + d + rest
      ensures InterruptOutcome(old(State()), a, d, rest, transferred, status, State())
    {
      MappingReports();
      hide Reports, MapIoReturn;
      completion, transferred, a, d, rest := [0, 0], 0, [], [], [];
      if interruptPending {
        status := Protocol;
        return;
      }
      var memory := usb.Observe();
      a := [Observed(memory)];
      if !memory {
        status := Error;
        return;
      }
      var result := usb.Invoke();
      a := a + [Returned(result)];
      if result != KSuccess {
        status := MapIoReturn(result);
        return;
      }
      interruptPending := true;
      var completed := usb.Observe();
      a := a + [Observed(completed)];
      if !completed {
        status, d, rest := InterruptTimesOut();
        return;
      }
      result, transferred := usb.Transfer();
      a := a + [Moved(result, transferred)];
      var first: byte, second: byte := *, *;
      completion := if transferred == 0 || transferred > 2 then [0, 0]
                    else if transferred == 1 then [first, 0] else [first, second];
      interruptPending := false;
      status := MapIoReturn(result);
      if result != KSuccess {
        desynchronized := true;
      } else if transferred != 2 {
        desynchronized := true;
        status := Protocol;
      }
    }

    /** The request did not complete in time: drain it. */
    method InterruptTimesOut() returns (status: IoStatus, ghost d: seq<Answer>, ghost rest: seq<Answer>)
      requires interruptPending
      modifies this`desynchronized, this`interruptPending, usb
      ensures usb.log == old(usb.log) + d + rest
      ensures TimeoutOutcome(old(State()), d, rest, status, State()) && status != Ok
    {
      desynchronized := true;
      var aborted;
      aborted, d := AbortAndDrainInterrupt();
      if aborted != KSuccess {
        var fired := usb.Observe();
        rest := [Observed(fired)];
        if fired {
          interruptPending := false;
        }
        return MapIoReturn(aborted), d, rest;
      }
      var ignored := usb.Invoke();
      rest := [Returned(ignored)];
      interruptPending := false;
      return Timeout, d, rest;
    }

    method ClearPipeStall(direction: Direction) returns (status: IoStatus, ghost a: seq<Answer>)
      modifies usb
      ensures MacStep(State(), ClearStall(direction, status), State())
      ensures usb.log == old(usb.log) + a
      ensures if direction == NoData then a == [] && status == Protocol
              else |a| == 1 && a[0].Returned? && Reports(a[0].result, status)
    {
      a := [];
      if direction == NoData {
        return Protocol, a;
      }
      var result := usb.Invoke();
      a := [Returned(result)];
      return MapIoReturn(result), a;
    }

    method PrepareReset() returns (status: IoStatus, ghost d: seq<Answer>, ghost rest: seq<Answer>)
      modifies this`resetArmed, this`interruptPending, usb
      ensures MacStep(old(State()), Prepare(status), State())
      ensures usb.log == old(usb.log) + d + rest && PrepareOutcome(old(State()), d, rest, status, State())
    {
      d, rest := [], [];
      if !isOpen || resetArmed {
        return Protocol, d, rest;
      }
      var result;
      result, d := AbortAndDrainInterrupt();
      if result != KSuccess {
        var fired := usb.Observe();
        rest := [Observed(fired)];
        if fired {
          interruptPending := false;
        }
        return MapIoReturn(result), d, rest;
      }
      interruptPending := false;
      result := usb.Invoke();
      rest := [Returned(result)];
      if result != KSuccess {
        return MapIoReturn(result), d, rest;
      }
      resetArmed := true;
      return Ok, d, rest;
    }

    method FinishReset(recovered: bool) returns (status: IoStatus)
      modifies this`resetArmed, this`desynchronized
      ensures MacStep(old(State()), Finish(recovered, status), State())
    {
      if !resetArmed {
        desynchronized := true;
        return Protocol;
      }
      resetArmed, desynchronized := false, !recovered;
      return Ok;
    }
  }
}
