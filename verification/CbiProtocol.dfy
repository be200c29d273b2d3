/** The runs of the CBI command engine (src/cbi.c): what one exchange looks
    like on the wire, what a command and a recovery are made of, when the
    engine owes a Command Block Reset, and what therefore holds of every run.
    The reset protocol is section 2.2 of the USB Mass Storage CBI Transport
    specification, revision 1.1. */
module CbiProtocol {
  import opened Wrappers
  import opened Bytes
  import opened Ufi

  datatype IoStatus = Ok | Stall | Permission | NoDevice | Timeout | Error | Protocol

  datatype TransportStatus = Success | NotPermitted | DeviceGone | TimedOut | IoFailure | BadProtocol

  function MapIoStatus(s: IoStatus): TransportStatus {
    match s
    case Ok => Success
    case Permission => NotPermitted
    case NoDevice => DeviceGone
    case Timeout => TimedOut
    case Error => IoFailure
    case Stall => BadProtocol
    case Protocol => BadProtocol
  }

  predicate LosesPhase(s: IoStatus) { s == Timeout || s == Protocol || s == Error }

  type CommandBlock = s: seq<byte> | |s| == 12 witness Zeros(12)

  const RESET_BLOCK: CommandBlock :=
    [0x1d, 0x04, 0xff, 0xff, 0xff, 0xff, 0xff, 0xff, 0xff, 0xff, 0xff, 0xff]

  const UFI_SENSE_LENGTH: nat := 18

  /** A command's block, zero-padded to twelve bytes. */
  function Pad(c: Command): CommandBlock
    requires c.cdbLength <= 12
  {
    c.cdb[..c.cdbLength] + Zeros(12 - c.cdbLength)
  }

  function SenseCommand(): Command {
    SimpleCommand(CdbRequestSense(18), 6, DataIn, Bytes(Zeros(UFI_SENSE_LENGTH)))
  }

  /** Every operation on the platform adapter, with what it returned. */
  datatype Event =
    | Open(status: IoStatus)
    | Close(status: IoStatus)
    | Adsc(block: CommandBlock, status: IoStatus)
    | BulkIn(length: nat, data: seq<byte>, transferred: nat, status: IoStatus)
    | BulkOut(payload: seq<byte>, transferred: nat, status: IoStatus)
    | Interrupt(completion: seq<byte>, transferred: nat, status: IoStatus)
    | ClearStall(direction: Direction, status: IoStatus)
    | Prepare(status: IoStatus)
    | Finish(recovered: bool, status: IoStatus)

  // ----- one exchange -----

  ghost predicate BulkPhase(e: Event, direction: Direction, buffer: seq<byte>) {
    match direction
    case NoData => false
    case DataIn => e.BulkIn? && e.length == |e.data| == |buffer|
    case DataOut => e.BulkOut? && e.payload == buffer
  }

  ghost predicate CompletionPhase(q: seq<Event>) {
    |q| == 1 && q[0].Interrupt? && |q[0].completion| == 2
  }

  ghost predicate AfterAdsc(q: seq<Event>, direction: Direction, buffer: seq<byte>) {
    if direction == NoData then CompletionPhase(q)
    else
      && q != [] && BulkPhase(q[0], direction, buffer)
      && if q[0].status == Stall then
           |q| > 1 && q[1].ClearStall? && q[1].direction == direction
           && if q[1].status != Ok then |q| == 2 else CompletionPhase(q[2..])
         else if q[0].status != Ok || q[0].transferred > |buffer| then |q| == 1
         else CompletionPhase(q[1..])
  }

  /** The phases of one exchange: the command, then the data phase with the
      clearing of its stall, then the completion interrupt; the first failure
      ends it. */
  ghost predicate Exchange(p: seq<Event>, block: CommandBlock, direction: Direction, buffer: seq<byte>) {
    && p != [] && p[0].Adsc? && p[0].block == block
    && if p[0].status != Ok then |p| == 1 else AfterAdsc(p[1..], direction, buffer)
  }

  /** An event after which the two sides may disagree about the phase. */
  ghost predicate EventLoses(e: Event) {
    || LosesPhase(e.status)
    || (e.BulkIn? && e.status == Ok && e.transferred > e.length)
    || (e.BulkOut? && e.status == Ok && e.transferred > |e.payload|)
    || (e.Interrupt? && e.status == Ok && e.transferred != 2)
  }

  ghost predicate Loses(p: seq<Event>) { exists i :: 0 <= i < |p| && EventLoses(p[i]) }

  ghost predicate AdscStalled(p: seq<Event>) { p != [] && p[0].status == Stall }

  ghost predicate HasBulk(p: seq<Event>) { |p| > 1 && (p[1].BulkIn? || p[1].BulkOut?) }

  ghost predicate DataStalled(p: seq<Event>) { HasBulk(p) && p[1].status == Stall }

  ghost predicate Stalled(p: seq<Event>) { AdscStalled(p) || DataStalled(p) }

  ghost function Transferred(p: seq<Event>): nat { if HasBulk(p) then p[1].transferred else 0 }

  ghost function Data(p: seq<Event>, buffer: seq<byte>): seq<byte> {
    if HasBulk(p) && p[1].BulkIn? then p[1].data else buffer
  }

  /** The completion bytes; zero when there was no completion phase. */
  ghost function Completion(p: seq<Event>): seq<byte> {
    if p != [] && p[|p| - 1].Interrupt? then p[|p| - 1].completion else [0, 0]
  }

  /** How an exchange ends follows from its last event. A stalled command is
      not a failure of the exchange; a bad length is. */
  ghost function Status(p: seq<Event>): IoStatus {
    if p == [] then Protocol
    else
      var last := p[|p| - 1];
      match last
      case Adsc(_, s) => if s == Stall then Ok else s
      case BulkIn(_, _, _, s) => if s == Ok then Protocol else s
      case BulkOut(_, _, s) => if s == Ok then Protocol else s
      case Interrupt(_, n, s) => if s == Ok && n != 2 then Protocol else s
      case _ => last.status
  }

  /** An exchange that loses the phase never reports success. */
  lemma LosingFails(p: seq<Event>, block: CommandBlock, direction: Direction, buffer: seq<byte>)
    requires Exchange(p, block, direction, buffer) && Loses(p)
    ensures LosesPhase(Status(p))
  {
    if p[0].status == Ok && direction != NoData {
      assert p[1..][0] == p[1];
      if |p| > 2 { assert p[1..][1] == p[2]; }
    }
  }

  /** An exchange that fails loses the phase exactly unless its last operation
      failed with a stall, a permission error or "no device". */
  lemma FailureLosesExactly(p: seq<Event>, block: CommandBlock, direction: Direction, buffer: seq<byte>)
    requires Exchange(p, block, direction, buffer) && Status(p) != Ok
    ensures Loses(p) <==> p[|p| - 1].status !in {Stall, Permission, NoDevice}
  {
    if Loses(p) {
      LosingFails(p, block, direction, buffer);
    }
    if p[0].status == Ok && direction != NoData {
      assert p[1..][0] == p[1];
      if |p| > 2 { assert p[1..][1] == p[2]; }
    }
    assert EventLoses(p[|p| - 1]) ==> Loses(p);
  }

  /** A successful exchange whose command did not stall ended with a two-byte
      completion. */
  lemma SuccessCompletes(p: seq<Event>, block: CommandBlock, direction: Direction, buffer: seq<byte>)
    requires Exchange(p, block, direction, buffer) && Status(p) == Ok && !AdscStalled(p)
    ensures p[0].status == Ok && p[|p| - 1] == Interrupt(Completion(p), 2, Ok) && |Completion(p)| == 2
    ensures direction != NoData && !DataStalled(p) ==>
              |p| == 3 && p[1].status == Ok && Transferred(p) <= |buffer|
    ensures direction == NoData ==> |p| == 2
    ensures direction == DataIn ==> |Data(p, buffer)| == |buffer|
  {
    if direction != NoData {
      assert p[1..][0] == p[1];
      if p[1].status == Stall { assert p[1..][1] == p[2]; }
    }
  }

  // ----- steps of a run -----

  /** What the engine does between two points at which it is idle or decides
      anew. `main` in Sense is the exchange whose outcome the internal REQUEST
      SENSE reports on. */
  datatype Step =
    | Opened(status: IoStatus)
    | Closed(status: IoStatus)
    | Destroyed(closing: seq<Event>)
    | Recovery(prepare: IoStatus, reset: seq<Event>, clears: seq<Event>, finish: seq<Event>)
    | Main(command: Command, phases: seq<Event>)
    | Sense(command: Command, main: seq<Event>, phases: seq<Event>)
    | CallerSense(command: Command, phases: seq<Event>)

  ghost function Flat(s: Step): seq<Event> {
    match s
    case Opened(status) => [Open(status)]
    case Closed(status) => [Close(status)]
    case Destroyed(closing) => closing
    case Recovery(prepare, reset, clears, finish) => [Prepare(prepare)] + reset + clears + finish
    case Main(_, phases) => phases
    case Sense(_, _, phases) => phases
    case CallerSense(_, phases) => phases
  }

  ghost function FlatAll(h: seq<Step>): seq<Event> {
    if h == [] then [] else FlatAll(h[..|h| - 1]) + Flat(h[|h| - 1])
  }

  function BufferOf(c: Command): seq<byte> { if c.data.Bytes? then c.data.bytes else [] }

  /** The reset exchange did what the protocol asks of it. */
  ghost predicate ResetCompleted(reset: seq<Event>) {
    reset == [Adsc(RESET_BLOCK, Ok), Interrupt([0, 0], 2, Ok)]
  }

  /** One attempt at a Command Block Reset: after a successful prepare the
      reset block is sent, both bulk pipes are cleared if it completed, and
      finish is told whether all of this succeeded. */
  ghost predicate RecoveryAttempt(s: Step)
    requires s.Recovery?
  {
    if s.prepare != Ok then s.reset == [] && s.clears == [] && s.finish == []
    else
      && Exchange(s.reset, RESET_BLOCK, NoData, [])
      && (if ResetCompleted(s.reset) then
            |s.clears| == 2
            && s.clears[0].ClearStall? && s.clears[0].direction == DataIn
            && s.clears[1].ClearStall? && s.clears[1].direction == DataOut
          else s.clears == [])
      && |s.finish| == 1 && s.finish[0].Finish?
      && s.finish[0].recovered == (ResetCompleted(s.reset)
                                   && s.clears[0].status == Ok && s.clears[1].status == Ok)
  }

  ghost predicate Recovered(s: Step) { s.Recovery? && s.finish == [Finish(true, Ok)] }

  /** The status a failed attempt is reported with: that of its first failure. */
  ghost function RecoveryFailure(s: Step): IoStatus
    requires s.Recovery? && RecoveryAttempt(s)
  {
    if s.prepare != Ok then s.prepare
    else if !ResetCompleted(s.reset) then (if Status(s.reset) != Ok then Status(s.reset) else Protocol)
    else if s.clears[0].status != Ok then s.clears[0].status
    else if s.clears[1].status != Ok then s.clears[1].status
    else s.finish[0].status
  }

  ghost predicate WellFormedStep(s: Step) {
    match s
    case Opened(_) => true
    case Closed(_) => true
    case Destroyed(closing) => closing == [] || (|closing| == 1 && closing[0].Close?)
    case Recovery(_, _, _, _) => RecoveryAttempt(s)
    case Main(c, p) =>
      Validate(c) && c.cdb[0] != REQUEST_SENSE && c.cdbLength <= 12
      && Exchange(p, Pad(c), c.direction, BufferOf(c))
    case Sense(_, _, p) => Exchange(p, Pad(SenseCommand()), DataIn, Zeros(UFI_SENSE_LENGTH))
    case CallerSense(c, p) =>
      Validate(c) && c.cdb[0] == REQUEST_SENSE && c.cdbLength <= 12
      && Exchange(p, Pad(c), c.direction, BufferOf(c))
  }

  // ----- what the sense data says -----

  /** The sense an internal REQUEST SENSE delivered, if it is usable. */
  ghost function SenseOf(p: seq<Event>): Option<Ufi.Sense> {
    if Stalled(p) || Transferred(p) != UFI_SENSE_LENGTH then None
    else ParseSense(Data(p, Zeros(UFI_SENSE_LENGTH)))
  }

  /** The sense record an internal REQUEST SENSE leaves, usable or not. */
  ghost function SenseLeft(p: seq<Event>): Ufi.Sense {
    if Stalled(p) || Transferred(p) != UFI_SENSE_LENGTH then NO_SENSE
    else SenseRecord(Data(p, Zeros(UFI_SENSE_LENGTH)))
  }

  ghost predicate Disagrees(main: seq<Event>, sense: Ufi.Sense) {
    !AdscStalled(main) && Completion(main) != [sense.asc, sense.ascq]
  }

  /** Data-out and READ (10) must move their whole buffer. */
  ghost predicate ExactDataRequired(c: Command) { c.direction == DataOut || c.cdb[0] == 0x28 }

  ghost predicate WrongCount(c: Command, main: seq<Event>) {
    ExactDataRequired(c) && !Stalled(main) && Transferred(main) != c.DataLength()
  }

  ghost predicate CallerSenseUsable(c: Command, p: seq<Event>) {
    !Stalled(p) && Transferred(p) <= |Data(p, BufferOf(c))|
    && ParseSense(Data(p, BufferOf(c))[..Transferred(p)]).Some?
  }

  /** And the record the caller's own REQUEST SENSE leaves. */
  ghost function CallerSenseLeft(c: Command, p: seq<Event>): Ufi.Sense {
    if Stalled(p) || Transferred(p) > |Data(p, BufferOf(c))| then NO_SENSE
    else SenseRecord(Data(p, BufferOf(c))[..Transferred(p)])
  }

  /** The step leaves the two sides possibly out of phase. */
  ghost predicate StepLoses(s: Step) {
    match s
    case Main(_, p) => Loses(p)
    case Sense(c, main, p) =>
      || Loses(p)
      || (Status(p) == Ok && (SenseOf(p).None? || Disagrees(main, SenseOf(p).value) || WrongCount(c, main)))
    case CallerSense(c, p) => Loses(p) || (Status(p) == Ok && !CallerSenseUsable(c, p))
    case _ => false
  }

  // ----- runs -----

  ghost predicate Ordinary(s: Step) { s.Main? || s.Sense? || s.CallerSense? }

  /** What pays the debt: a complete reset or a fresh open. */
  ghost predicate Resynchronizes(s: Step) { s == Opened(Ok) || Recovered(s) }

  /** The engine owes a reset. */
  ghost predicate Owes(h: seq<Step>) {
    h != [] &&
    var last := h[|h| - 1];
    !Resynchronizes(last) && (StepLoses(last) || Owes(h[..|h| - 1]))
  }

  ghost predicate IsOpened(h: seq<Step>) {
    h != [] &&
    match h[|h| - 1]
    case Opened(s) => s == Ok || IsOpened(h[..|h| - 1])
    case Closed(s) => s != Ok && s != NoDevice && IsOpened(h[..|h| - 1])
    case Destroyed(_) => false
    case _ => IsOpened(h[..|h| - 1])
  }

  /** The step may come next: the engine opens only when closed, recovers only
      when it owes a reset, runs a command only when it owes none, and asks
      for sense only right after the exchange it reports on. */
  ghost predicate Enabled(h: seq<Step>, s: Step) {
    match s
    case Opened(_) => !IsOpened(h)
    case Closed(_) => IsOpened(h)
    case Destroyed(closing) => IsOpened(h) <==> closing != []
    case Recovery(_, _, _, _) => IsOpened(h) && Owes(h)
    case Main(_, _) => IsOpened(h) && !Owes(h)
    case CallerSense(_, _) => IsOpened(h) && !Owes(h)
    case Sense(c, main, _) =>
      IsOpened(h) && !Owes(h) && h != [] && h[|h| - 1] == Main(c, main) && Status(main) == Ok
  }

  ghost predicate EngineRun(h: seq<Step>) {
    h == [] ||
    (EngineRun(h[..|h| - 1]) && WellFormedStep(h[|h| - 1]) && Enabled(h[..|h| - 1], h[|h| - 1]))
  }

  lemma {:induction false} RunPrefix(h: seq<Step>, n: nat)
    requires EngineRun(h) && n <= |h|
    ensures EngineRun(h[..n])
    decreases |h|
  {
    if n < |h| {
      RunPrefix(h[..|h| - 1], n);
      assert h[..|h| - 1][..n] == h[..n];
    } else {
      assert h[..n] == h;
    }
  }

  lemma RunAt(h: seq<Step>, i: nat)
    requires EngineRun(h) && i < |h|
    ensures EngineRun(h[..i]) && WellFormedStep(h[i]) && Enabled(h[..i], h[i])
  {
    hide WellFormedStep, Enabled;
    RunPrefix(h, i + 1);
    assert h[..i + 1][..i] == h[..i];
  }

  /** A debt stays until something pays it. */
  lemma {:induction false} OwesUntilPaid(h: seq<Step>, i: nat, j: nat)
    requires i < j <= |h| && Owes(h[..i + 1])
    requires forall k :: i < k < j ==> !Resynchronizes(h[k])
    ensures Owes(h[..j])
    decreases j
  {
    var g := h[..j];
    assert g[..j - 1] == h[..j - 1] && g[j - 1] == h[j - 1];
    if j > i + 1 {
      OwesUntilPaid(h, i, j - 1);
    }
  }

  /** Safety of every run: between a loss of phase and a later ordinary
      command lies a complete reset or a fresh open. */
  lemma NoCommandBeforeRecovery(h: seq<Step>, i: nat, j: nat)
    requires EngineRun(h) && i < j < |h|
    requires StepLoses(h[i]) && Ordinary(h[j])
    ensures exists k :: i < k < j && Resynchronizes(h[k])
  {
    if forall k :: i < k < j ==> !Resynchronizes(h[k]) {
      assert h[..i + 1][i] == h[i];
      OwesUntilPaid(h, i, j);
      RunAt(h, j);
    }
  }

  /** The same for a loss anywhere on the wire, also during an attempt to
      recover. */
  lemma NoCommandAfterWireLoss(h: seq<Step>, i: nat, j: nat)
    requires EngineRun(h) && i < j < |h|
    requires (Ordinary(h[i]) || h[i].Recovery?) && Loses(Flat(h[i])) && Ordinary(h[j])
    ensures exists k :: i < k < j && Resynchronizes(h[k])
  {
    hide Validate, Exchange, EngineRun;
    RunAt(h, i);
    if h[i].Recovery? {
      LosingRecoveryFails(h[i]);
      if forall k :: i < k < j ==> !Resynchronizes(h[k]) {
        assert h[..i + 1][..i] == h[..i] && h[..i + 1][i] == h[i];
        OwesUntilPaid(h, i, j);
        RunAt(h, j);
      }
    } else {
      NoCommandBeforeRecovery(h, i, j);
    }
  }

  lemma LosingRecoveryFails(s: Step)
    requires s.Recovery? && WellFormedStep(s) && Loses(Flat(s))
    ensures !Recovered(s)
  {
    if Recovered(s) {
      RecoveredIsCompleteReset(s);
    }
  }

  /** Conversely a debt has a cause: the engine recovers only after a loss
      that nothing has paid for. */
  lemma {:induction false} DebtHasCause(h: seq<Step>) returns (i: nat)
    requires Owes(h)
    ensures i < |h| && StepLoses(h[i]) && forall k :: i < k < |h| ==> !Resynchronizes(h[k])
    decreases |h|
  {
    if StepLoses(h[|h| - 1]) {
      i := |h| - 1;
    } else {
      i := DebtHasCause(h[..|h| - 1]);
    }
  }

  /** What counts as a complete reset: armed by prepare, the reset block
      accepted, completed with two zero bytes, both bulk pipes cleared in
      order, and finish told so, all successful. */
  lemma RecoveredIsCompleteReset(s: Step)
    requires WellFormedStep(s) && Recovered(s)
    ensures Flat(s) == [Prepare(Ok), Adsc(RESET_BLOCK, Ok), Interrupt([0, 0], 2, Ok),
                        ClearStall(DataIn, Ok), ClearStall(DataOut, Ok), Finish(true, Ok)]
  {
    assert s.clears == [ClearStall(DataIn, Ok), ClearStall(DataOut, Ok)];
  }

  // ----- what reaches the wire -----

  /** The block is the command's bytes and then zeros. */
  ghost predicate ZeroPadded(b: CommandBlock, c: Command) {
    && c.cdbLength <= 12 && b[..c.cdbLength] == c.cdb[..c.cdbLength]
    && forall i :: c.cdbLength <= i < 12 ==> b[i] == 0
  }

  /** The command is a reset or an allowlisted command, padded. */
  ghost predicate PermittedBlock(b: CommandBlock) {
    b == RESET_BLOCK || exists c: Command :: Validate(c) && ZeroPadded(b, c)
  }

  /** Data goes out only behind an accepted MODE SELECT, and only as the
      contained payload. */
  ghost predicate ContainedOut(trace: seq<Event>, i: nat)
    requires i < |trace|
  {
    trace[i].BulkOut? ==>
      && i > 0 && trace[i - 1].Adsc? && trace[i - 1].status == Ok
      && trace[i - 1].block[0] == MODE_SELECT_10 && ContainedPayload(trace[i].payload)
  }

  ghost predicate PermittedTrace(trace: seq<Event>) {
    forall i :: 0 <= i < |trace| ==>
      (trace[i].Adsc? ==> PermittedBlock(trace[i].block)) && ContainedOut(trace, i)
  }

  lemma ExchangePermitted(p: seq<Event>, c: Command)
    requires Validate(c) && c.cdbLength <= 12 && Exchange(p, Pad(c), c.direction, BufferOf(c))
    ensures PermittedTrace(p)
  {
    ValidateContains(c);
    hide Validate, ContainedPayload;
    assert ZeroPadded(p[0].block, c);
    assert PermittedBlock(p[0].block);
    assert |p| > 1 ==> p[1..][0] == p[1];
    assert |p| > 2 ==> p[1..][1] == p[2] && p[2..][0] == p[2];
    assert |p| > 3 ==> p[3..][0] == p[3];
  }

  lemma StepPermitted(s: Step)
    requires WellFormedStep(s)
    ensures PermittedTrace(Flat(s))
  {
    match s
    case Main(c, p) => ExchangePermitted(p, c);
    case CallerSense(c, p) => ExchangePermitted(p, c);
    case Sense(_, _, p) => ExchangePermitted(p, SenseCommand());
    case Recovery(_, reset, _, _) =>
      assert |reset| > 1 ==> reset[1..][0] == reset[1];
    case _ =>
  }

  lemma PermittedConcat(a: seq<Event>, b: seq<Event>)
    requires PermittedTrace(a) && PermittedTrace(b)
    ensures PermittedTrace(a + b)
  {
    hide PermittedBlock, ContainedPayload;
    var t := a + b;
    forall i | 0 <= i < |t|
      ensures (t[i].Adsc? ==> PermittedBlock(t[i].block)) && ContainedOut(t, i)
    {
      if i < |a| {
        assert ContainedOut(a, i);
      } else {
        assert t[i] == b[i - |a|] && ContainedOut(b, i - |a|);
        assert i > |a| ==> t[i - 1] == b[i - 1 - |a|];
      }
    }
  }

  /** In every run each command block is the reset block or an allowlisted
      command, and data goes out only as the contained MODE SELECT payload. */
  lemma {:induction false} RunPermitted(h: seq<Step>)
    requires EngineRun(h)
    ensures PermittedTrace(FlatAll(h))
    decreases |h|
  {
    if h != [] {
      RunPermitted(h[..|h| - 1]);
      StepPermitted(h[|h| - 1]);
      PermittedConcat(FlatAll(h[..|h| - 1]), Flat(h[|h| - 1]));
    }
  }

  /** No allowlisted command can be mistaken for the reset block. */
  lemma ResetIsNotACommand(c: Command)
    requires Validate(c) && c.cdbLength <= 12
    ensures Pad(c) != RESET_BLOCK
  {
    ValidateContains(c);
    assert Pad(c)[0] == c.cdb[0];
  }

  // ----- one command -----

  datatype CommandResult = CommandResult(transport: TransportStatus, scsi: byte, transferred: nat, sense: Ufi.Sense)

  const SCSI_GOOD: byte := 0
  const SCSI_CHECK_CONDITION: byte := 2

  function Failed(t: TransportStatus): CommandResult { CommandResult(t, SCSI_GOOD, 0, NO_SENSE) }

  /** The steps one call of execute takes: none when the command is refused;
      a recovery first when a reset is owed, and nothing more if it fails;
      then the command and, unless its exchange failed or it is itself a
      REQUEST SENSE, the internal REQUEST SENSE. */
  ghost predicate CommandSteps(isOpen: bool, owes: bool, c: Command, steps: seq<Step>) {
    if !isOpen || !Validate(c) then steps == []
    else if owes then
      && steps != [] && steps[0].Recovery? && RecoveryAttempt(steps[0])
      && if Recovered(steps[0]) then ExchangeSteps(c, steps[1..]) else |steps| == 1
    else ExchangeSteps(c, steps)
  }

  ghost predicate ExchangeSteps(c: Command, steps: seq<Step>) {
    if c.cdb[0] == REQUEST_SENSE then |steps| == 1 && steps[0].CallerSense? && steps[0].command == c
    else
      && steps != [] && steps[0].Main? && steps[0].command == c
      && if Status(steps[0].phases) == Ok then
           |steps| == 2 && steps[1].Sense? && steps[1].command == c && steps[1].main == steps[0].phases
         else |steps| == 1
  }

  /** The result of a command, read off its steps. */
  ghost function ResultOf(c: Command, steps: seq<Step>): CommandResult {
    if steps == [] then Failed(BadProtocol)
    else if steps[0].Recovery? then
      if !RecoveryAttempt(steps[0]) then Failed(BadProtocol)
      else if !Recovered(steps[0]) then Failed(MapIoStatus(RecoveryFailure(steps[0])))
      else ExchangeResult(c, steps[1..])
    else ExchangeResult(c, steps)
  }

  ghost function ExchangeResult(c: Command, steps: seq<Step>): CommandResult {
    if steps != [] && steps[0].CallerSense? then
      var p := steps[0].phases;
      if Status(p) != Ok then CommandResult(MapIoStatus(Status(p)), SCSI_GOOD, Transferred(p), NO_SENSE)
      else CommandResult(if CallerSenseUsable(c, p) then Success else BadProtocol,
                         SCSI_GOOD, Transferred(p), CallerSenseLeft(c, p))
    else if |steps| == 1 && steps[0].Main? then
      var p := steps[0].phases;
      CommandResult(MapIoStatus(Status(p)), SCSI_GOOD, Transferred(p), NO_SENSE)
    else if |steps| == 2 && steps[0].Main? && steps[1].Sense? then
      MainResult(c, steps[0].phases, steps[1].phases)
    else Failed(BadProtocol)
  }

  /** The caller's buffer after the command. */
  ghost function DataAfter(c: Command, steps: seq<Step>): seq<byte> {
    if steps != [] && steps[0].Recovery? then DataOfExchange(c, steps[1..]) else DataOfExchange(c, steps)
  }

  ghost function DataOfExchange(c: Command, steps: seq<Step>): seq<byte> {
    if steps != [] && (steps[0].Main? || steps[0].CallerSense?) then Data(steps[0].phases, BufferOf(c))
    else BufferOf(c)
  }

  ghost function MainResult(c: Command, main: seq<Event>, p: seq<Event>): CommandResult {
    var n := Transferred(main);
    if Status(p) != Ok then CommandResult(MapIoStatus(Status(p)), SCSI_GOOD, n, NO_SENSE)
    else if SenseOf(p).None? then CommandResult(BadProtocol, SCSI_GOOD, n, SenseLeft(p))
    else
      var sense := SenseOf(p).value;
      if Disagrees(main, sense) || WrongCount(c, main) then CommandResult(BadProtocol, SCSI_GOOD, n, sense)
      else CommandResult(Success, if Stalled(main) || sense.key > 1 then SCSI_CHECK_CONDITION else SCSI_GOOD,
                         n, sense)
  }

  /** What a GOOD result says about the command's own exchange: no phase
      stalled, the completion bytes are the sense's ASC and ASCQ, the sense key
      is at most one, and the byte count is within the buffer, exactly its size
      for READ (10) and MODE SELECT. */
  ghost predicate SoundExchange(c: Command, main: seq<Event>, r: CommandResult)
    requires c.cdbLength <= 12
  {
    && |main| > 1
    && var bulk := main[1..|main| - 1];
    && main == [Adsc(Pad(c), Ok)] + bulk + [Interrupt([r.sense.asc, r.sense.ascq], 2, Ok)]
    && (if c.direction == NoData then bulk == []
        else |bulk| == 1 && bulk[0].status == Ok && BulkPhase(bulk[0], c.direction, BufferOf(c))
             && r.transferred == Transferred(main))
    && r.sense.key <= 1 && r.transferred <= c.DataLength()
    && (c.direction == DataOut || c.cdb[0] == 0x28 ==> r.transferred == c.DataLength())
  }

  lemma GoodExchangeIsSound(c: Command, main: seq<Event>, p: seq<Event>)
    requires Validate(c) && c.cdbLength <= 12
    requires Exchange(main, Pad(c), c.direction, BufferOf(c)) && Status(main) == Ok
    requires MainResult(c, main, p).transport == Success && MainResult(c, main, p).scsi == SCSI_GOOD
    ensures SoundExchange(c, main, MainResult(c, main, p))
  {
    ValidateContains(c);
    SuccessCompletes(main, Pad(c), c.direction, BufferOf(c));
    hide Validate, ContainedPayload;
    if c.direction != NoData {
      assert main[1..][0] == main[1];
    }
  }

  /** When the sense data is usable and agrees with the completion, three things
      decide an ordinary command: whether a phase stalled, whether all the data
      that must move did, and the sense key. */
  lemma SenseDecides(c: Command, main: seq<Event>, p: seq<Event>)
    requires Status(p) == Ok && SenseOf(p).Some?
    requires AdscStalled(main) || Completion(main) == [SenseOf(p).value.asc, SenseOf(p).value.ascq]
    ensures var r, stalled := MainResult(c, main, p), Stalled(main);
            var whole := c.direction == DataOut || c.cdb[0] == 0x28 ==> Transferred(main) == c.DataLength();
            && (r.transport == Success <==> stalled || whole)
            && (r.transport != Success ==> r.transport == BadProtocol)
            && (r.transport == Success ==>
                  r.scsi == if stalled || SenseOf(p).value.key > 1 then 2 else 0)
            && r.sense == SenseOf(p).value && r.transferred == Transferred(main)
            && (StepLoses(Step.Sense(c, main, p)) <==> Loses(p) || !(stalled || whole))
  {
    hide Loses, SenseOf, Status, Transferred;
  }

  /** Without such sense data there is no success, and what came back without an
      error makes the engine owe a reset. */
  lemma NoSuccessWithoutSense(c: Command, main: seq<Event>, p: seq<Event>)
    requires Status(p) != Ok || SenseOf(p).None?
             || (!AdscStalled(main) && Completion(main) != [SenseOf(p).value.asc, SenseOf(p).value.ascq])
    ensures MainResult(c, main, p).transport != Success
    ensures Status(p) == Ok ==> StepLoses(Step.Sense(c, main, p))
  {
    hide Loses, SenseOf, Status, Transferred;
  }

  /** And so for the whole command in its run: it succeeds exactly if a phase
      stalled or all required data moved, is GOOD exactly if besides no phase
      stalled and the key is at most 1, and leaves a reset owed otherwise. */
  lemma OutcomeExactly(h: seq<Step>, c: Command, steps: seq<Step>, main: seq<Event>, p: seq<Event>)
    requires EngineRun(h + steps) && CommandSteps(IsOpened(h), Owes(h), c, steps)
    requires steps != [] && steps[|steps| - 1] == Step.Sense(c, main, p)
    requires Status(p) == Ok && SenseOf(p).Some?
    requires AdscStalled(main) || Completion(main) == [SenseOf(p).value.asc, SenseOf(p).value.ascq]
    ensures var r := ResultOf(c, steps);
            var fine := Stalled(main)
                        || (c.direction == DataOut || c.cdb[0] == 0x28 ==> Transferred(main) == c.DataLength());
            && (r.transport == Success <==> fine) && (Owes(h + steps) <==> !fine)
            && (r.transport == Success && r.scsi == 0 <==>
                  fine && !Stalled(main) && SenseOf(p).value.key <= 1)
  {
    var run := h + steps;
    RunAt(run, |run| - 1);
    SenseDecides(c, main, p);
    ResultIsMainResult(c, steps, main, p, IsOpened(h), Owes(h));
    assert run[|run| - 1] == Step.Sense(c, main, p);
    ExchangeNotLost(p, Pad(SenseCommand()), DataIn, Zeros(UFI_SENSE_LENGTH));
    hide EngineRun, CommandSteps, ResultOf, MainResult, StepLoses, WellFormedStep, Stalled, SenseOf, Status;
  }

  lemma ResultIsMainResult(c: Command, steps: seq<Step>, main: seq<Event>, p: seq<Event>, isOpen: bool, owes: bool)
    requires CommandSteps(isOpen, owes, c, steps) && steps != [] && steps[|steps| - 1] == Step.Sense(c, main, p)
    ensures ResultOf(c, steps) == MainResult(c, main, p)
  {
    hide Validate, MainResult, RecoveryAttempt, Recovered, Status;
  }

  lemma FailureIsNotOk(s: Step)
    requires s.Recovery? && RecoveryAttempt(s) && !Recovered(s)
    ensures RecoveryFailure(s) != Ok
  {
  }

  /** The steps of a command after its recovery, where they stand in the run. */
  lemma LastSteps(h: seq<Step>, c: Command, steps: seq<Step>) returns (inner: seq<Step>)
    requires EngineRun(h + steps) && CommandSteps(IsOpened(h), Owes(h), c, steps)
    requires ResultOf(c, steps).transport == Success
    ensures inner <= steps || (steps != [] && inner == steps[1..])
    ensures ExchangeSteps(c, inner) && ResultOf(c, steps) == ExchangeResult(c, inner)
    ensures forall i :: 0 <= i < |inner| ==> inner[i] in steps && WellFormedStep(inner[i])
    ensures h + steps != [] && (h + steps)[|h + steps| - 1] == inner[|inner| - 1]
  {
    hide Validate, Exchange, ExchangeResult, RecoveryFailure, RecoveryAttempt;
    var run := h + steps;
    if steps != [] && steps[0].Recovery? && Owes(h) && !Recovered(steps[0]) {
      FailureIsNotOk(steps[0]);
    }
    inner := if steps[0].Recovery? then steps[1..] else steps;
    forall i | 0 <= i < |inner| ensures inner[i] in steps && WellFormedStep(inner[i]) {
      var k := |h| + (|steps| - |inner|) + i;
      assert run[k] == inner[i];
      RunAt(run, k);
    }
  }

  /** A command that returns success leaves no debt. */
  lemma SuccessLeavesNoDebt(h: seq<Step>, c: Command, steps: seq<Step>)
    requires EngineRun(h + steps) && CommandSteps(IsOpened(h), Owes(h), c, steps)
    requires ResultOf(c, steps).transport == Success
    ensures !Owes(h + steps)
  {
    var run := h + steps;
    var inner := LastSteps(h, c, steps);
    var last := inner[|inner| - 1];
    RunAt(run, |run| - 1);
    LastStepKeepsPhase(c, inner);
    hide EngineRun, CommandSteps, ResultOf, StepLoses, WellFormedStep, ExchangeResult;
  }

  lemma LastStepKeepsPhase(c: Command, inner: seq<Step>)
    requires ExchangeSteps(c, inner) && ExchangeResult(c, inner).transport == Success
    requires forall i :: 0 <= i < |inner| ==> WellFormedStep(inner[i])
    ensures !StepLoses(inner[|inner| - 1])
  {
    hide Validate, Exchange;
    var p := inner[|inner| - 1].phases;
    if c.cdb[0] == REQUEST_SENSE {
      ExchangeNotLost(p, Pad(c), c.direction, BufferOf(c));
    } else {
      ExchangeNotLost(p, Pad(SenseCommand()), DataIn, Zeros(UFI_SENSE_LENGTH));
    }
  }

  /** A GOOD command's exchange was sound. */
  lemma GoodCommandIsSound(h: seq<Step>, c: Command, steps: seq<Step>)
    requires EngineRun(h + steps) && CommandSteps(IsOpened(h), Owes(h), c, steps)
    requires c.cdb[0] != REQUEST_SENSE
    requires ResultOf(c, steps).transport == Success && ResultOf(c, steps).scsi == SCSI_GOOD
    ensures exists main: seq<Event> ::
              Main(c, main) in steps && c.cdbLength <= 12 && SoundExchange(c, main, ResultOf(c, steps))
  {
    var inner := LastSteps(h, c, steps);
    hide EngineRun, Validate, CommandSteps, ResultOf, Exchange, SoundExchange;
    var main, p := inner[0].phases, inner[|inner| - 1].phases;
    assert inner[0] == Main(c, main);
    GoodExchangeIsSound(c, main, p);
  }

  /** A caller's own REQUEST SENSE is held to less: when it returns success its
      exchange went through without a stall and the sense is what the received
      bytes say, but neither the completion bytes nor the sense key decide, and
      it is always GOOD. */
  lemma CallerSenseIsSound(h: seq<Step>, c: Command, steps: seq<Step>)
    requires EngineRun(h + steps) && CommandSteps(IsOpened(h), Owes(h), c, steps)
    requires c.cdb[0] == REQUEST_SENSE && ResultOf(c, steps).transport == Success
    ensures c.cdbLength <= 12 && ResultOf(c, steps).scsi == SCSI_GOOD
    ensures exists p: seq<Event> :: CallerSense(c, p) in steps && SoundSense(c, p, ResultOf(c, steps))
  {
    var inner := LastSteps(h, c, steps);
    hide EngineRun, Validate, CommandSteps, ResultOf, Exchange, SoundSense;
    var p := inner[0].phases;
    assert inner[0] == CallerSense(c, p);
    CallerSenseExchange(c, p, ResultOf(c, steps));
  }

  ghost predicate SoundSense(c: Command, p: seq<Event>, r: CommandResult)
    requires c.cdbLength <= 12
  {
    && |p| == 3 && p[0] == Adsc(Pad(c), Ok)
    && p[1].BulkIn? && p[1].status == Ok && p[1].transferred == r.transferred <= |p[1].data| == c.DataLength()
    && p[2].Interrupt? && p[2].status == Ok && p[2].transferred == 2
    && ParseSense(p[1].data[..r.transferred]) == Some(r.sense)
  }

  lemma CallerSenseExchange(c: Command, p: seq<Event>, r: CommandResult)
    requires WellFormedStep(CallerSense(c, p)) && r.transport == Success
    requires r == ExchangeResult(c, [CallerSense(c, p)])
    ensures SoundSense(c, p, r) && r.scsi == SCSI_GOOD
  {
    ValidateContains(c);
    assert c.direction == DataIn;
    SuccessCompletes(p, Pad(c), c.direction, BufferOf(c));
    hide Validate, ContainedPayload;
    assert p[1..][0] == p[1];
  }

  lemma ExchangeNotLost(p: seq<Event>, block: CommandBlock, direction: Direction, buffer: seq<byte>)
    requires Exchange(p, block, direction, buffer) && Status(p) == Ok
    ensures !Loses(p)
  {
    if Loses(p) {
      LosingFails(p, block, direction, buffer);
    }
  }

  /** A failed recovery sends none of the caller's command and can be retried:
      the debt stays, and the next accepted command starts with a recovery. */
  lemma FailedRecoveryIsRetryable(h: seq<Step>, c: Command, steps: seq<Step>)
    requires EngineRun(h + steps) && CommandSteps(IsOpened(h), Owes(h), c, steps)
    requires steps != [] && steps[0].Recovery? && !Recovered(steps[0])
    ensures |steps| == 1 && Owes(h + steps) && IsOpened(h + steps)
    ensures ResultOf(c, steps).transport != Success
    ensures forall c2: Command, next: seq<Step> ::
              Validate(c2) && CommandSteps(IsOpened(h + steps), Owes(h + steps), c2, next) ==>
                next != [] && next[0].Recovery?
  {
    var run := h + steps;
    assert run[|run| - 1] == steps[0] && run[..|run| - 1] == h;
    if Owes(h) {
      RunAt(run, |h|);
    } else {
      assert false;
    }
  }

  /** A run in which a command leaves its completion unread and yet no reset is
      owed: the data phase stalls, and so does the clearing of that stall. */
  lemma UnreadCompletion() returns (h: seq<Step>)
    ensures EngineRun(h) && IsOpened(h) && !Owes(h)
    ensures h != [] && h[|h| - 1].Main?
    ensures var p := h[|h| - 1].phases;
            && p != [] && p[0].Adsc? && p[0].status == Ok
            && forall i :: 0 <= i < |p| ==> !p[i].Interrupt?
  {
    var c := ModeSenseCommand(false);
    ValidateContains(c);
    var buffer := BufferOf(c);
    var sent, data := Adsc(Pad(c), Ok), BulkIn(|buffer|, buffer, 0, Stall);
    var p := [sent, data, ClearStall(DataIn, Stall)];
    assert p[1..] == [data, ClearStall(DataIn, Stall)];
    assert Exchange(p, Pad(c), DataIn, buffer);
    FailureLosesExactly(p, Pad(c), DataIn, buffer);
    var s, t := Opened(Ok), Main(c, p);
    h := [s, t];
    assert WellFormedStep(t);
    hide Exchange, Validate;
    assert [s][..0] == [] && EngineRun([]) && WellFormedStep(s) && Enabled([], s);
    assert EngineRun([s]) && h[..1] == [s] && Enabled([s], t);
  }
}
