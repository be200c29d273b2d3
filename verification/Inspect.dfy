/** The read-only inspection (src/probe.c): six commands in a fixed order
    between one acquire and one release. */
module Inspect {
  import opened Wrappers
  import opened Bytes
  import opened Ufi
  import opened ModePages
  import opened CbiProtocol
  import opened ProbeCommands

  /** The commands of an inspection, in order. */
  function InspectionCommand(i: nat): Command
    requires i < 6
  {
    if i == 0 then SimpleCommand(CdbInquiry(96), 6, DataIn, Bytes(Zeros(96)))
    else if i == 1 then SimpleCommand(CdbTestUnitReady(), 6, NoData, Null(0))
    else if i == 2 then SimpleCommand(CdbReadCapacity10(), 10, DataIn, Bytes(Zeros(8)))
    else if i == 3 then SimpleCommand(CdbReadFormatCapacities(252), 10, DataIn, Bytes(Zeros(252)))
    else ModeSenseCommand(i == 5)
  }

  lemma InspectionValidates(i: nat)
    requires i < 6
    ensures Validate(InspectionCommand(i))
  {
  }

  /** The i-th command was good and its data was accepted. */
  ghost predicate Accepted(c: Call, i: nat) {
    && c.Executed? && CommandGood(c.result)
    && (i != 1 ==>
          && c.result.transferred <= |c.data|
          && var d := c.data[..c.result.transferred];
          if i == 0 then InquiryAccepted(d)
          else if i == 2 then ParseReadCapacity(d).Some?
          else if i == 3 then FormatCapacities(d).Some?
          else Parse(d).Some?)
  }

  /** The calls are a beginning of the six; each but the last was accepted and
      left no interrupt pending. */
  ghost predicate Begins(b: seq<Call>) {
    && |b| <= 6
    && forall i :: 0 <= i < |b| ==>
         && b[i].Executed? && b[i].command == InspectionCommand(i)
         && (i < |b| - 1 ==> Accepted(b[i], i) && !b[i].pending)
  }

  ghost predicate LastAccepted(b: seq<Call>) { b != [] ==> Accepted(b[|b| - 1], |b| - 1) }

  ghost predicate LastLeft(b: seq<Call>, flag: bool) { b != [] ==> b[|b| - 1].pending == flag }

  /** All six were accepted. */
  ghost predicate Complete(b: seq<Call>) { |b| == 6 && LastAccepted(b) }

  /** What stops the inspection short: an interrupt pending, or a command that
      was not accepted. */
  ghost predicate StopsForCause(acquirePending: bool, b: seq<Call>) {
    if b == [] then acquirePending else b[|b| - 1].pending || !LastAccepted(b)
  }

  /** The bytes a command received. */
  ghost function Received(c: Call): seq<byte> {
    if c.Executed? && c.result.transferred <= |c.data| then c.data[..c.result.transferred] else []
  }

  /** The current page is the one received, flagged by the mask received. */
  ghost predicate PagesReported(current: Option<FlexiblePage>, changeable: Option<FlexiblePage>,
                                currentData: seq<byte>, maskData: seq<byte>)
  {
    && Parse(currentData).Some? && Parse(maskData).Some? && current.Some?
    && var page, mask := Parse(currentData).value.flexible, Parse(maskData).value.flexible;
    && changeable == Some(mask)
    && current.value == page.(fieldChangeable := current.value.fieldChangeable)
    && FlagsOf(current.value, mask.page)
  }

  /** What the report says is what the six commands received. */
  ghost predicate Reported(report: InspectReport, b: seq<Call>)
    requires |b| == 6
    reads report`unitReady, report`capacity, report`formatCapacities, report`currentMode, report`changeableMode
  {
    && report.unitReady && report.capacity.Some? && report.capacity == ParseReadCapacity(Received(b[2]))
    && FormatCapacities(Received(b[3])) == Some(report.formatCapacities)
    && PagesReported(report.currentMode, report.changeableMode, Received(b[4]), Received(b[5]))
  }

  class InspectReport {
    var code: ProbeCode
    var unitReady: bool
    var capacity: Option<Capacity>
    var formatCapacities: seq<Descriptor>
    var currentMode: Option<FlexiblePage>
    var changeableMode: Option<FlexiblePage>

    constructor ()
    {
      code, unitReady, capacity, formatCapacities := CodeTransport, false, None, [];
      currentMode, changeableMode := None, None;
    }
  }

  /** The next command of the inspection. */
  method InspectCommand(t: Transport, report: InspectReport, i: nat, ghost base: seq<Call>, ghost b0: seq<Call>)
    returns (result: CommandResult, data: seq<byte>, ghost b: seq<Call>)
    requires i < 6 && |b0| == i && t.calls == base + b0
    requires Begins(b0) && LastAccepted(b0) && LastLeft(b0, t.interrupted)
    requires report.code == CodeTransport
    modifies t, report`code
    ensures t.calls == base + b && Begins(b) && b0 <= b && LastLeft(b, t.interrupted)
    ensures if old(t.interrupted) then b == b0
            else |b| == i + 1 && b[i].Executed? && b[i].result == result && b[i].data == data
    ensures CommandGood(result) ==> !old(t.interrupted) && report.code == CodeTransport
    ensures !CommandGood(result) ==> StopsForCause(old(t.interrupted), b) && report.code == StopCode(b)
  {
    InspectionValidates(i);
    hide Validate, InspectionCommand, FailureCode, Accepted, Begins, StopCode, ResultFrom, LastAccepted, LastLeft,
         StopsForCause, SentAtMostOne;
    ghost var before, sent := t.interrupted, [];
    result, data, sent := ExecuteChecked(t, InspectionCommand(i));
    b := b0 + sent;
    CommandAppends(b0, sent, result, data, before, t.interrupted);
    if !CommandGood(result) {
      report.code := FailureCode(result);
    }
  }

  lemma CommandAppends(b: seq<Call>, sent: seq<Call>, result: CommandResult, data: seq<byte>, before: bool, after: bool)
    requires |b| < 6 && Begins(b) && LastAccepted(b) && LastLeft(b, before)
    requires SentAtMostOne(before, sent, after) && (sent != [] <==> !before) && ResultFrom(result, sent)
    requires sent != [] ==> sent[0] == Executed(InspectionCommand(|b|), result, data, after)
    ensures Begins(b + sent) && LastLeft(b + sent, after)
    ensures if before then b + sent == b
            else |b + sent| == |b| + 1 && (b + sent)[|b|] == Executed(InspectionCommand(|b|), result, data, after)
    ensures CommandGood(result) ==> !before
    ensures !CommandGood(result) ==> StopsForCause(before, b + sent) && FailureCode(result) == StopCode(b + sent)
  {
    hide InspectionCommand, Begins, Accepted, FailureCode, StopCode;
    CommandFails(b, sent, result);
    if sent == [] {
      assert b + sent == b;
    } else {
      assert sent == [sent[0]];
      OneMore(b, sent[0]);
      if !CommandGood(result) { LastNotAccepted(b, sent[0]); }
    }
  }

  lemma OneMore(b: seq<Call>, c: Call)
    requires |b| < 6 && Begins(b) && LastAccepted(b) && LastLeft(b, false)
    requires c.Executed? && c.command == InspectionCommand(|b|)
    ensures Begins(b + [c])
  {
    hide Accepted, InspectionCommand;
    forall i | 0 <= i < |b + [c]|
      ensures (b + [c])[i].Executed? && (b + [c])[i].command == InspectionCommand(i)
      ensures i < |b| ==> Accepted((b + [c])[i], i) && !(b + [c])[i].pending
    {
      if i < |b| { assert (b + [c])[i] == b[i]; }
    }
  }

  lemma CommandFails(b: seq<Call>, sent: seq<Call>, result: CommandResult)
    requires LastAccepted(b) && |sent| <= 1 && ResultFrom(result, sent)
    ensures FailureCode(result) == StopCode(b + sent)
  {
    hide FailureCode, StopCode, ResultFrom;
    FailureIsStop(result, sent);
    if b != [] {
      StopCodeLater(b, sent);
    } else {
      assert b + sent == sent;
    }
  }

  lemma LastNotAccepted(b: seq<Call>, c: Call)
    requires c.Executed? && !CommandGood(c.result)
    ensures !LastAccepted(b + [c])
  {
  }

  /** inspect_input: a command that delivers data, if it delivered no more than
      its buffer. */
  method InspectInput(t: Transport, report: InspectReport, i: nat, ghost base: seq<Call>, ghost b0: seq<Call>)
    returns (received: Option<seq<byte>>, ghost b: seq<Call>)
    requires i < 6 && i != 1 && |b0| == i && t.calls == base + b0
    requires Begins(b0) && LastAccepted(b0) && LastLeft(b0, t.interrupted)
    requires report.code == CodeTransport
    modifies t, report`code
    ensures t.calls == base + b && Begins(b) && b0 <= b && LastLeft(b, t.interrupted) && |b| <= i + 1
    ensures old(t.interrupted) ==> b == b0
    ensures received.Some? ==>
              |b| == i + 1 && report.code == CodeTransport
              && b[i].Executed? && CommandGood(b[i].result) && b[i].result.transferred <= |b[i].data|
              && received.value == b[i].data[..b[i].result.transferred]
    ensures received.None? ==> StopsForCause(old(t.interrupted), b) && !Complete(b) && report.code == StopCode(b)
  {
    hide Begins, LastLeft, Parse, FormatCapacities, ParseReadCapacity;
    var result, data;
    result, data, b := InspectCommand(t, report, i, base, b0);
    if !CommandGood(result) {
      return None, b;
    }
    if result.transferred > |data| {
      report.code := CodeTransport;
      return None, b;
    }
    return Some(data[..result.transferred]), b;
  }

  /** The first half: identity, readiness, capacity. */
  method InspectUnit(t: Transport, report: InspectReport) returns (ok: bool, ghost b: seq<Call>)
    requires report.code == CodeTransport && !report.unitReady
    modifies t, report`code, report`unitReady, report`capacity
    ensures t.calls == old(t.calls) + b && Begins(b) && LastLeft(b, t.interrupted)
    ensures old(t.interrupted) ==> b == []
    ensures ok ==> |b| == 3 && LastAccepted(b) && report.code == CodeTransport
    ensures ok ==> report.unitReady && report.capacity.Some?
    ensures !ok ==> |b| <= 3 && StopsForCause(old(t.interrupted), b) && report.code == StopCode(b)
    ensures ok ==> report.capacity == ParseReadCapacity(Received(b[2]))
    ensures report.unitReady <==> |b| >= 2 && b[1].Executed? && CommandGood(b[1].result)
  {
    hide Begins, LastLeft, ParseReadCapacity;
    NothingBegun(t.interrupted);
    ghost var base := t.calls;
    var received, result, data;
    received, b := InspectInput(t, report, 0, base, []);
    if received.None? || !InquiryAccepted(received.value) {
      return false, b;
    }
    result, data, b := InspectCommand(t, report, 1, base, b);
    if !CommandGood(result) {
      return false, b;
    }
    report.unitReady := true;
    ghost var ready := b;
    received, b := InspectInput(t, report, 2, base, ready);
    assert b[1] == ready[1];
    if received.None? {
      return false, b;
    }
    report.capacity := ParseReadCapacity(received.value);
    return report.capacity.Some?, b;
  }

  lemma NothingBegun(flag: bool)
    ensures Begins([]) && LastAccepted([]) && LastLeft([], flag)
  {
  }

  /** The second half: formats, current parameters, changeable parameters. */
  method InspectMedia(t: Transport, report: InspectReport, ghost base: seq<Call>, ghost b0: seq<Call>)
    returns (ok: bool, ghost b: seq<Call>)
    requires |b0| == 3 && t.calls == base + b0 && Begins(b0) && LastAccepted(b0) && LastLeft(b0, t.interrupted)
    requires report.code == CodeTransport
    modifies t, report`code, report`formatCapacities, report`currentMode, report`changeableMode
    ensures t.calls == base + b && Begins(b) && b0 <= b
    ensures ok <==> Complete(b)
    ensures ok ==> report.currentMode.Some? && report.changeableMode.Some?
    ensures !ok ==> StopsForCause(false, b) && report.code == StopCode(b)
    ensures ok ==> FormatCapacities(Received(b[3])) == Some(report.formatCapacities)
    ensures ok ==> PagesReported(report.currentMode, report.changeableMode, Received(b[4]), Received(b[5]))
  {
    hide Begins, Parse, FormatCapacities;
    var received;
    received, b := InspectInput(t, report, 3, base, b0);
    if received.None? {
      return false, b;
    }
    var formats := ParseFormatCapacities(received.value);
    if formats.None? {
      return false, b;
    }
    report.formatCapacities := formats.value;
    received, b := InspectInput(t, report, 4, base, b);
    if received.None? {
      return false, b;
    }
    var current := ParseModeParameters(received.value);
    if current.None? {
      return false, b;
    }
    report.currentMode := Some(current.value.flexible);
    received, b := InspectInput(t, report, 5, base, b);
    if received.None? {
      return false, b;
    }
    var changeable := ParseModeParameters(received.value);
    if changeable.None? {
      return false, b;
    }
    report.changeableMode := Some(changeable.value.flexible);
    var flagged := ApplyChangeability(current.value.flexible, changeable.value.flexible);
    report.currentMode := Some(flagged);
    return true, b;
  }

  /** The calls of a whole inspection. */
  ghost predicate Inspection(t: seq<Call>) {
    && t != [] && t[0].Acquired?
    && if t[0].status != Success then |t| == 1
       else
         && |t| >= 2 && t[|t| - 1].Released?
         && var b := t[1..|t| - 1];
         Begins(b) && (t[0].pending ==> b == []) && (Complete(b) || StopsForCause(t[0].pending, b))
  }

  /** The code of an inspection that is not OK: of the refused acquire, of the
      command it stopped at, or of the failed release of a complete one. */
  ghost function InspectionCode(t: seq<Call>): ProbeCode
    requires Inspection(t)
  {
    if t[0].status != Success then CodeForTransport(t[0].status)
    else if Complete(t[1..|t| - 1]) then CodeForTransport(t[|t| - 1].status)
    else StopCode(t[1..|t| - 1])
  }

  /** m65_inspect. */
  method RunInspection(t: Transport, report: InspectReport) returns (ghost calls: seq<Call>)
    modifies t, report
    ensures t.calls == old(t.calls) + calls && Inspection(calls)
    ensures report.code == CodeOk <==> |calls| == 8 && Complete(calls[1..7]) && calls[7].status == Success
    ensures report.code == CodeOk ==> Reported(report, calls[1..7])
    ensures report.code != CodeOk ==> report.code == InspectionCode(calls)
    ensures report.unitReady <==> |calls| >= 4 && calls[2].Executed? && CommandGood(calls[2].result)
    ensures report.code !in {CodeUnsupported, CodeMismatch, CodeUsage}
  {
    hide Begins, LastAccepted, LastLeft, FailureCode, Reported, StopCode, StopsForCause;
    report.code, report.unitReady, report.capacity, report.formatCapacities := CodeTransport, false, None, [];
    report.currentMode, report.changeableMode := None, None;
    t.interrupted := false;
    var status := t.AcquireExclusive();
    ghost var a := Acquired(status, t.interrupted);
    calls := [a];
    if status != Success {
      report.code := CodeForTransport(status);
      return;
    }
    var ok;
    ghost var b;
    ok, b := InspectBody(t, report);
    StopCodeIsFailure(b);
    if ok {
      report.code := CodeOk;
    }
    status := t.ReleaseExclusive();
    if status != Success && report.code == CodeOk {
      report.code := CodeForTransport(status);
    }
    calls := [a] + b + [Released(status, t.interrupted)];
    BetweenEnds(a, b, Released(status, t.interrupted));
  }

  lemma BetweenEnds(a: Call, b: seq<Call>, d: Call)
    ensures ([a] + b + [d])[1..|[a] + b + [d]| - 1] == b
  {
  }

  /** The commands between acquire and release. */
  method InspectBody(t: Transport, report: InspectReport) returns (ok: bool, ghost b: seq<Call>)
    requires report.code == CodeTransport && !report.unitReady
    modifies t, report
    ensures t.calls == old(t.calls) + b && Begins(b) && (old(t.interrupted) ==> b == [])
    ensures ok <==> Complete(b)
    ensures ok ==> report.unitReady && report.capacity.Some? && report.currentMode.Some?
                   && report.changeableMode.Some?
    ensures !ok ==> StopsForCause(old(t.interrupted), b) && report.code == StopCode(b)
    ensures ok ==> Reported(report, b)
    ensures report.unitReady <==> |b| >= 2 && b[1].Executed? && CommandGood(b[1].result)
  {
    hide Begins, LastAccepted, LastLeft;
    ghost var base := t.calls;
    ok, b := InspectUnit(t, report);
    if ok {
      ghost var unit := b;
      ok, b := InspectMedia(t, report, base, unit);
      assert b[1] == unit[1];
    }
  }

  /** In every inspection one successful acquire is followed by exactly one
      release, last; only the six read-only commands are sent, each after its
      predecessor was accepted; and none is sent once an interrupt is pending. */
  lemma InspectionIsClean(t: seq<Call>, i: nat, j: nat)
    requires Inspection(t) && i < j < |t|
    ensures t[0].status == Success
    ensures (t[j].Released? <==> j == |t| - 1) && !t[j].Acquired?
    ensures t[i].pending ==> j == |t| - 1
    ensures t[j].Executed? ==>
              t[j].command.direction != DataOut
              && (i > 0 ==> Accepted(t[i], i - 1) && t[i].command.cdb != t[j].command.cdb)
  {
    var b := t[1..|t| - 1];
    if j < |t| - 1 {
      assert b[j - 1] == t[j];
      if i > 0 {
        assert b[i - 1] == t[i];
        hide Begins, Accepted;
        DistinctCommands(i - 1, j - 1);
      }
    }
  }

  lemma DistinctCommands(i: nat, j: nat)
    requires i < j < 6
    ensures InspectionCommand(i).cdb != InspectionCommand(j).cdb
  {
    assert InspectionCommand(4).cdb[2] != InspectionCommand(5).cdb[2];
    assert i == 4 || InspectionCommand(i).cdb[0] != InspectionCommand(j).cdb[0];
  }
}
