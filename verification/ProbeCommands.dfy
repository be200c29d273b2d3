/** The probe's commands over an arbitrary transport (src/probe.c): one checked
    command at a time, and the loop that reads a whole image. A signal may set
    the interrupt flag during any call into the transport. */
module ProbeCommands {
  import opened Wrappers
  import opened Bytes
  import opened Ufi
  import opened ModePages
  import opened CbiProtocol

  datatype ProbeCode =
    | CodeOk
    | CodeNoDevice
    | CodePermission
    | CodeTransport
    | CodeUnsupported
    | CodeMismatch
    | CodeUsage

  function CodeForTransport(s: TransportStatus): ProbeCode {
    match s
    case NotPermitted => CodePermission
    case DeviceGone => CodeNoDevice
    case Success => CodeOk
    case _ => CodeTransport
  }

  predicate CommandGood(r: CommandResult) { r.transport == Success && r.scsi == SCSI_GOOD }

  /** copy_command_failure: the code a failed command is reported with. */
  function FailureCode(r: CommandResult): ProbeCode {
    if r.transport != Success then CodeForTransport(r.transport) else CodeTransport
  }

  /** A call into the transport, with what it returned; `pending` is the
      interrupt flag afterwards. */
  datatype Call =
    | Acquired(status: TransportStatus, pending: bool)
    | Executed(command: Command, result: CommandResult, data: seq<byte>, pending: bool)
    | Released(status: TransportStatus, pending: bool)

  class Transport {
    var interrupted: bool
    ghost var calls: seq<Call>

    constructor ()
      ensures !interrupted && calls == []
    {
      interrupted, calls := false, [];
    }

    method AcquireExclusive() returns (status: TransportStatus)
      modifies this
      ensures calls == old(calls) + [Acquired(status, interrupted)]
      ensures old(interrupted) ==> interrupted
    {
      var signal: bool := *;
      status, interrupted := *, interrupted || signal;
      calls := calls + [Acquired(status, interrupted)];
    }

    method Execute(c: Command) returns (result: CommandResult, data: seq<byte>)
      modifies this
      ensures calls == old(calls) + [Executed(c, result, data, interrupted)]
      ensures |data| == |BufferOf(c)| && (c.direction != DataIn ==> data == BufferOf(c))
      ensures old(interrupted) ==> interrupted
    {
      var signal: bool := *;
      result, interrupted := *, interrupted || signal;
      data := BufferOf(c);
      if c.direction == DataIn {
        data :| |data| == |BufferOf(c)|;
      }
      calls := calls + [Executed(c, result, data, interrupted)];
    }

    method ReleaseExclusive() returns (status: TransportStatus)
      modifies this
      ensures calls == old(calls) + [Released(status, interrupted)]
      ensures old(interrupted) ==> interrupted
    {
      var signal: bool := *;
      status, interrupted := *, interrupted || signal;
      calls := calls + [Released(status, interrupted)];
    }
  }

  /** Signals outside the transport: in the gap between two statements of the
      cleanup one may or may not arrive. */
  class Signals {
    ghost var gaps: seq<bool>

    constructor ()
      ensures gaps == []
    {
      gaps := [];
    }

    method Gap() returns (signal: bool)
      modifies this
      ensures gaps == old(gaps) + [signal]
    {
      signal := *;
      gaps := gaps + [signal];
    }
  }

  /** The code of a stop after these calls: that of a transport failure, if the
      last call was one. */
  ghost function StopCode(calls: seq<Call>): ProbeCode {
    if calls != [] && calls[|calls| - 1].Executed? && calls[|calls| - 1].result.transport != Success then
      CodeForTransport(calls[|calls| - 1].result.transport)
    else CodeTransport
  }

  /** A result that is that of the call, or a protocol failure found in it
      afterwards, or a failure before any call. */
  ghost predicate ResultFrom(result: CommandResult, sent: seq<Call>) {
    if sent == [] then result.transport in {IoFailure, BadProtocol}
    else
      sent[0].Executed? &&
      (result.transport == sent[0].result.transport
       || (sent[0].result.transport == Success && result.transport == BadProtocol))
  }

  lemma FailureIsStop(result: CommandResult, sent: seq<Call>)
    requires |sent| <= 1 && ResultFrom(result, sent)
    ensures FailureCode(result) == StopCode(sent)
  {
  }

  lemma StopCodeLater(b: seq<Call>, more: seq<Call>)
    requires b != [] && b[|b| - 1].Executed? && b[|b| - 1].result.transport == Success
    ensures StopCode(b + more) == StopCode(more)
  {
    if more == [] {
      assert b + more == b;
    }
  }

  lemma StopCodeIsFailure(calls: seq<Call>)
    ensures StopCode(calls) !in {CodeOk, CodeUnsupported, CodeMismatch, CodeUsage}
  {
  }

  /** What every checked command leaves behind: at most one call, none when an
      interrupt is pending, and the flag as that call left it. */
  ghost predicate SentAtMostOne(before: bool, sent: seq<Call>, after: bool) {
    if sent == [] then before == after
    else |sent| == 1 && sent[0].Executed? && !before && sent[0].pending == after
  }

  /** execute_checked. */
  method ExecuteChecked(t: Transport, c: Command)
    returns (result: CommandResult, data: seq<byte>, ghost sent: seq<Call>)
    modifies t
    ensures t.calls == old(t.calls) + sent && SentAtMostOne(old(t.interrupted), sent, t.interrupted)
    ensures sent != [] <==> Validate(c) && !old(t.interrupted)
    ensures sent != [] ==> sent[0] == Executed(c, result, data, t.interrupted)
    ensures sent == [] ==> result == Failed(if Validate(c) then IoFailure else BadProtocol)
    ensures |data| == |BufferOf(c)| && ResultFrom(result, sent)
  {
    hide Validate;
    data, sent := BufferOf(c), [];
    if !Validate(c) {
      return Failed(BadProtocol), data, sent;
    }
    if t.interrupted {
      return Failed(IoFailure), data, sent;
    }
    result, data := t.Execute(c);
    sent := [Executed(c, result, data, t.interrupted)];
  }

  // ----- MODE SENSE and MODE SELECT -----

  /** The page a MODE SENSE call delivered, if it delivered one. */
  ghost function Sensed(c: Call): Option<FlexiblePage> {
    if c.Executed? && CommandGood(c.result) && c.result.transferred <= |c.data| then
      var p := Parse(c.data[..c.result.transferred]);
      if p.None? then None else Some(p.value.flexible)
    else None
  }

  /** mode_sense. */
  method ModeSense(t: Transport, changeable: bool)
    returns (result: CommandResult, page: Option<FlexiblePage>, ghost sent: seq<Call>)
    modifies t
    ensures t.calls == old(t.calls) + sent && SentAtMostOne(old(t.interrupted), sent, t.interrupted)
    ensures sent != [] <==> !old(t.interrupted)
    ensures sent != [] ==> sent[0].command == ModeSenseCommand(changeable) && page == Sensed(sent[0])
    ensures CommandGood(result) <==> page.Some?
    ensures sent == [] ==> page == None
    ensures ResultFrom(result, sent)
  {
    hide Validate, Parse;
    var c := ModeSenseCommand(changeable);
    ModeSenseValidates(changeable);
    page := None;
    var data;
    result, data, sent := ExecuteChecked(t, c);
    if CommandGood(result) {
      var parameters := None;
      if result.transferred <= |data| {
        parameters := ParseModeParameters(data[..result.transferred]);
      }
      if parameters.None? {
        result := result.(transport := BadProtocol);
      } else {
        page := Some(parameters.value.flexible);
      }
    }
  }

  lemma ModeSenseValidates(changeable: bool)
    ensures Validate(ModeSenseCommand(changeable))
  {
  }

  /** The MODE SELECT command that installs a page, if it can be built. */
  function SelectCommand(page: FlexiblePage): Option<Command> {
    var payload := BuildModeSelectPayload(page);
    if payload.None? then None else Some(ModeSelectCommand(payload.value))
  }

  /** mode_select. */
  method ModeSelect(t: Transport, page: FlexiblePage) returns (result: CommandResult, ghost sent: seq<Call>)
    modifies t
    ensures t.calls == old(t.calls) + sent && SentAtMostOne(old(t.interrupted), sent, t.interrupted)
    ensures sent != [] <==> !old(t.interrupted) && SelectCommand(page).Some?
    ensures sent != [] ==> sent[0].command == SelectCommand(page).value && sent[0].result == result
    ensures ResultFrom(result, sent)
  {
    hide Validate;
    sent := [];
    if SelectCommand(page).None? {
      return Failed(BadProtocol), sent;
    }
    ModeSelectValidates(page);
    var data;
    result, data, sent := ExecuteChecked(t, SelectCommand(page).value);
  }

  // ----- READ (10) -----

  ghost predicate Reads(c: Call, lba: nat, blocks: nat) {
    && c.Executed? && lba < 0x1_0000_0000 && blocks < 0x1_0000
    && c.command.cdb == CdbRead10(lba, blocks) && c.command.direction == DataIn
    && |c.data| == blocks * BLOCK_SIZE
  }

  /** A read that delivered every byte asked for. */
  ghost predicate GoodRead(c: Call, lba: nat, blocks: nat) {
    Reads(c, lba, blocks) && CommandGood(c.result) && c.result.transferred == blocks * BLOCK_SIZE
  }

  /** The command was good and delivered its whole buffer. */
  ghost predicate FullRead(c: Call) {
    c.Executed? && CommandGood(c.result) && c.result.transferred == |c.data|
  }

  /** read_blocks. */
  method ReadBlocks(t: Transport, lba: nat, blocks: nat, buffer: seq<byte>)
    returns (result: CommandResult, data: seq<byte>, ghost sent: seq<Call>)
    requires lba < 0x1_0000_0000 && 0 < blocks < 0x1_0000 && |buffer| == blocks * BLOCK_SIZE
    modifies t
    ensures t.calls == old(t.calls) + sent && SentAtMostOne(old(t.interrupted), sent, t.interrupted)
    ensures sent != [] <==> !old(t.interrupted)
    ensures sent != [] ==> Reads(sent[0], lba, blocks) && data == sent[0].data
    ensures CommandGood(result) <==> sent != [] && GoodRead(sent[0], lba, blocks)
    ensures sent != [] ==> (CommandGood(result) <==> FullRead(sent[0]))
    ensures sent != [] ==> result.scsi == sent[0].result.scsi
    ensures ResultFrom(result, sent)
    ensures result.transport == Success && !CommandGood(result) <==>
              sent != [] && sent[0].result.transport == Success && !CommandGood(sent[0].result)
    ensures |data| == |buffer|
  {
    ReadValidates(lba, blocks, buffer);
    hide Validate;
    result, data, sent := ExecuteChecked(t, Read10Command(lba, blocks, buffer));
    if CommandGood(result) && result.transferred != blocks * BLOCK_SIZE {
      result := result.(transport := BadProtocol);
    }
  }

  // ----- reading a whole image -----

  function Smaller(a: nat, b: nat): nat { if a < b then a else b }

  /** How many of `total` blocks n chunks cover. */
  function Covered(n: nat, total: nat, chunk: nat): (r: nat)
    ensures r <= total
  {
    if n == 0 then 0 else Covered(n - 1, total, chunk) + Smaller(chunk, total - Covered(n - 1, total, chunk))
  }

  lemma CoveredStep(n: nat, total: nat, chunk: nat)
    ensures Covered(n + 1, total, chunk)
            == Covered(n, total, chunk) + Smaller(chunk, total - Covered(n, total, chunk))
  {
  }

  lemma {:induction false} CoveredIsProduct(n: nat, total: nat, chunk: nat)
    ensures Covered(n, total, chunk) == Smaller(n * chunk, total)
  {
    if n > 0 {
      CoveredIsProduct(n - 1, total, chunk);
      assert n * chunk == (n - 1) * chunk + chunk;
    }
  }

  /** The k-th of consecutive chunks from block 0 on, read in full. */
  ghost predicate ChunkRead(c: Call, k: nat, total: nat, chunk: nat) {
    var lba := Covered(k, total, chunk);
    lba < total && GoodRead(c, lba, Smaller(chunk, total - lba))
  }

  ghost predicate ReadsFromStart(calls: seq<Call>, total: nat, chunk: nat) {
    forall k :: 0 <= k < |calls| ==> ChunkRead(calls[k], k, total, chunk)
  }

  /** And they reach the end. */
  ghost predicate ReadsAll(calls: seq<Call>, total: nat, chunk: nat) {
    ReadsFromStart(calls, total, chunk) && Covered(|calls|, total, chunk) == total
  }

  /** What a sequence of reads delivered. */
  ghost function Delivered(calls: seq<Call>): seq<byte> {
    if calls == [] then []
    else
      var last := calls[|calls| - 1];
      Delivered(calls[..|calls| - 1]) + if last.Executed? then last.data else []
  }

  /** The calls all read, and only the last may have been interrupted. */
  ghost predicate OnlyReads(calls: seq<Call>) {
    && (forall i :: 0 <= i < |calls| ==> calls[i].Executed? && calls[i].command.cdb[0] == READ_10)
    && forall i :: 0 <= i < |calls| - 1 ==> !calls[i].pending
  }

  /** The flag is what the last call left. */
  ghost predicate FlagFollows(before: bool, calls: seq<Call>, after: bool) {
    if calls == [] then before == after else !before && calls[|calls| - 1].pending == after
  }

  lemma OneMoreRead(calls: seq<Call>, c: Call, total: nat, chunk: nat)
    requires ReadsFromStart(calls, total, chunk) && ChunkRead(c, |calls|, total, chunk)
    ensures ReadsFromStart(calls + [c], total, chunk)
  {
    hide ChunkRead;
  }

  lemma OneMoreDelivered(calls: seq<Call>, c: Call)
    requires c.Executed?
    ensures Delivered(calls + [c]) == Delivered(calls) + c.data
  {
    assert (calls + [c])[..|calls|] == calls;
  }

  lemma NothingReadYet(total: nat, chunk: nat, flag: bool)
    ensures Delivered([]) == [] && ReadsFromStart([], total, chunk) && OnlyReads([]) && Covered(0, total, chunk) == 0
    ensures FlagFollows(flag, [], flag)
  {
  }

  /** What stops the loop short: an interrupt pending, or a read that was not
      full. */
  ghost predicate Stopped(before: bool, calls: seq<Call>) {
    if calls == [] then before else calls[|calls| - 1].pending || !FullRead(calls[|calls| - 1])
  }

  lemma StoppedByFlag(before: bool, calls: seq<Call>)
    requires FlagFollows(before, calls, true)
    ensures Stopped(before, calls)
  {
  }

  lemma StoppedByRead(before: bool, calls: seq<Call>, one: seq<Call>)
    requires |one| == 1 && !FullRead(one[0])
    ensures Stopped(before, calls + one)
  {
    hide FullRead;
  }

  lemma LastIsStop(calls: seq<Call>, one: seq<Call>)
    requires |one| == 1
    ensures StopCode(calls + one) == StopCode(one)
  {
  }

  lemma LastReadCode(calls: seq<Call>, total: nat, chunk: nat)
    requires ReadsFromStart(calls, total, chunk)
    ensures StopCode(calls) == CodeTransport
  {
    if calls != [] {
      assert ChunkRead(calls[|calls| - 1], |calls| - 1, total, chunk);
    }
  }

  lemma CallAppends(before: bool, calls: seq<Call>, middle: bool, one: seq<Call>, after: bool)
    requires OnlyReads(calls) && FlagFollows(before, calls, middle) && SentAtMostOne(middle, one, after)
    requires one != [] ==> one[0].command.cdb[0] == READ_10
    ensures OnlyReads(calls + one) && FlagFollows(before, calls + one, after)
  {
    if one == [] {
      assert calls + one == calls;
    }
  }

  lemma BadReadEnds(calls: seq<Call>, one: seq<Call>, total: nat, chunk: nat)
    requires |one| == 1 && !ChunkRead(one[0], |calls|, total, chunk)
    ensures !ReadsAll(calls + one, total, chunk)
  {
    hide ChunkRead;
    assert (calls + one)[|calls|] == one[0];
  }

  /** read_complete_image, for any number of blocks and any chunk size; `code`
      is the failure it reports. */
  method ReadCompleteImage(t: Transport, image: array<byte>, total: nat, chunk: nat)
    returns (ok: bool, code: ProbeCode, ghost sent: seq<Call>)
    requires 0 < chunk < 0x1_0000 && total <= 0x1_0000_0000 && image.Length == total * BLOCK_SIZE
    modifies t, image
    ensures t.calls == old(t.calls) + sent && FlagFollows(old(t.interrupted), sent, t.interrupted)
    ensures OnlyReads(sent)
    ensures ok <==> ReadsAll(sent, total, chunk)
    ensures sent != [] ==> Covered(|sent| - 1, total, chunk) < total
    ensures ok ==> image[..] == Delivered(sent)
    ensures !ok ==> Stopped(old(t.interrupted), sent)
    ensures !ok ==> code == StopCode(sent)
  {
    hide GoodRead, FullRead, Stopped, StopCode, ResultFrom, Delivered, Reads, ReadsFromStart, OnlyReads, SentAtMostOne, FlagFollows, FailureCode, Covered;
    sent := [];
    var lba := 0;
    ghost var before := t.interrupted;
    NothingReadYet(total, chunk, before);
    while lba < total
      invariant lba <= total && lba * BLOCK_SIZE <= image.Length
      invariant lba == Covered(|sent|, total, chunk)
      invariant sent != [] ==> Covered(|sent| - 1, total, chunk) < total
      invariant t.calls == old(t.calls) + sent && FlagFollows(before, sent, t.interrupted)
      invariant OnlyReads(sent) && ReadsFromStart(sent, total, chunk)
      invariant image[..lba * BLOCK_SIZE] == Delivered(sent)
    {
      var remaining := total - lba;
      var blocks := if remaining > chunk then chunk else remaining;
      if t.interrupted {
        StoppedByFlag(before, sent);
        LastReadCode(sent, total, chunk);
        return false, CodeTransport, sent;
      }
      ghost var flag := t.interrupted;
      var result;
      ghost var one: seq<Call>;
      result, one := ReadInto(t, image, lba, blocks);
      CallAppends(before, sent, flag, one, t.interrupted);
      assert ChunkRead(one[0], |sent|, total, chunk) <==> CommandGood(result);
      if !CommandGood(result) {
        BadReadEnds(sent, one, total, chunk);
        StoppedByRead(before, sent, one);
        FailureIsStop(result, one);
        LastIsStop(sent, one);
        return false, FailureCode(result), sent + one;
      }
      OneMoreRead(sent, one[0], total, chunk);
      OneMoreDelivered(sent, one[0]);
      CoveredStep(|sent|, total, chunk);
      assert one == [one[0]];
      sent := sent + one;
      lba := lba + blocks;
    }
    assert image[..] == image[..lba * BLOCK_SIZE];
    return true, CodeOk, sent;
  }

  lemma FailureHasCode(r: CommandResult)
    requires !CommandGood(r)
    ensures FailureCode(r) !in {CodeOk, CodeUnsupported, CodeMismatch, CodeUsage}
  {
  }

  /** One read, delivered in place. */
  method ReadInto(t: Transport, image: array<byte>, lba: nat, blocks: nat)
    returns (result: CommandResult, ghost sent: seq<Call>)
    requires lba < 0x1_0000_0000 && 0 < blocks < 0x1_0000 && (lba + blocks) * BLOCK_SIZE <= image.Length
    modifies t, image
    ensures t.calls == old(t.calls) + sent && SentAtMostOne(old(t.interrupted), sent, t.interrupted)
    ensures sent != [] <==> !old(t.interrupted)
    ensures sent != [] ==> |sent| == 1 && Reads(sent[0], lba, blocks) && sent[0].command.cdb[0] == READ_10
    ensures CommandGood(result) <==> sent != [] && GoodRead(sent[0], lba, blocks)
    ensures sent != [] ==> (CommandGood(result) <==> FullRead(sent[0]))
    ensures ResultFrom(result, sent)
    ensures sent != [] ==>
              image[..(lba + blocks) * BLOCK_SIZE] == old(image[..lba * BLOCK_SIZE]) + sent[0].data
  {
    var start, end := lba * BLOCK_SIZE, (lba + blocks) * BLOCK_SIZE;
    var data;
    result, data, sent := ReadBlocks(t, lba, blocks, image[start..end]);
    forall i | start <= i < end {
      image[i] := data[i - start];
    }
    assert image[..start] == old(image[..start]);
    assert image[start..end] == data;
  }
}
