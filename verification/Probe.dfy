/** The 1581 probe (src/probe.c): save the controller's parameters, ask for
    1581 geometry, verify it, read the disk twice, and restore. What it did is
    recorded as a run; what it reports follows from the run. */
module Probe {
  import opened Wrappers
  import opened Bytes
  import opened Ufi
  import opened CbiProtocol
  import opened ProbeCommands
  import opened Memory

  const IMAGE_BLOCKS: nat := 1600
  const CHUNK_BLOCKS: nat := 10
  const IMAGE_SIZE: nat := 819200

  datatype Status = Supported | Unsupported | Inconclusive

  // ----- what a run may look like -----

  /** m65_geometry_changes_allowed for the 1581 geometry. */
  ghost predicate ChangeAllowed(original: FlexiblePage, mask: FlexiblePage) {
    forall i: nat :: i < FLEX_PAGE_LENGTH && GeometryByte(i) ==>
      ByteChangeAllowed(original.page, Set1581Geometry(original).page, mask.page, i)
  }

  /** The i-th command is the one the workflow sends there, and everything it
      waits for has happened. */
  ghost predicate Follows(b: seq<Call>, i: nat)
    requires i < |b|
  {
    && b[i].Executed?
    && if i == 0 then b[0].command == ModeSenseCommand(false)
       else if i == 1 then Sensed(b[0]).Some? && b[1].command == ModeSenseCommand(true)
       else if i == 2 then
         ChangeDue(b) && SelectCommand(Set1581Geometry(Sensed(b[0]).value)) == Some(b[2].command)
       else if i == 3 then b[2].Executed? && CommandGood(b[2].result) && b[3].command == ModeSenseCommand(false)
       else if i == 4 then
         Sensed(b[3]).Some? && GeometryIs1581(Sensed(b[3]).value) && Reads(b[4], 9, 1)
       else if i == 5 then GoodRead(b[4], 9, 1) && Reads(b[5], 1599, 1)
       else GoodRead(b[5], 1599, 1) && b[i].command.cdb[0] == READ_10
  }

  /** The original and the mask were read, and the mask grants the change. */
  ghost predicate ChangeDue(b: seq<Call>) {
    |b| >= 2 && Sensed(b[0]).Some? && Sensed(b[1]).Some? && ChangeAllowed(Sensed(b[0]).value, Sensed(b[1]).value)
  }

  /** The commands between acquire and cleanup. */
  ghost predicate Course(b: seq<Call>) {
    forall i :: 0 <= i < |b| ==> Follows(b, i) && (i < |b| - 1 ==> !b[i].pending)
  }

  ghost predicate Flagged(b: seq<Call>, flag: bool) { b != [] ==> b[|b| - 1].pending == flag }

  /** The last command shows that the drive cannot do it: the mask forbids the
      change, the drive refuses the change or a boundary block, or the readback
      is not the 1581 geometry. */
  ghost predicate ShowsUnsupported(b: seq<Call>) {
    if |b| == 2 then Sensed(b[0]).Some? && Sensed(b[1]).Some? && !ChangeDue(b)
    else if |b| == 4 then Sensed(b[3]).Some? && !GeometryIs1581(Sensed(b[3]).value)
    else
      (|b| == 3 || |b| == 5 || |b| == 6)
      && var last := b[|b| - 1];
      last.Executed? && last.result.transport == Success && !CommandGood(last.result)
  }

  /** Both passes over the disk are complete. */
  ghost predicate ReadTwiceOver(b: seq<Call>) {
    && |b| == 326
    && ReadsAll(b[6..166], IMAGE_BLOCKS, CHUNK_BLOCKS)
    && ReadsAll(b[166..], IMAGE_BLOCKS, CHUNK_BLOCKS)
  }

  ghost predicate ShowsMismatch(b: seq<Call>) {
    ReadTwiceOver(b) && Delivered(b[6..166]) != Delivered(b[166..])
  }

  ghost predicate ShowsSupported(b: seq<Call>) {
    ReadTwiceOver(b) && Delivered(b[6..166]) == Delivered(b[166..])
  }

  /** The verdict before cleanup. */
  ghost function BodyStatus(b: seq<Call>): Status {
    if ShowsUnsupported(b) then Unsupported
    else if ShowsSupported(b) then Supported
    else Inconclusive
  }

  /** Code and status agree with each other and with the commands. */
  ghost predicate Judged(code: ProbeCode, status: Status, b: seq<Call>) {
    && status == BodyStatus(b)
    && (code == CodeOk <==> status == Supported)
    && (code == CodeUnsupported <==> status == Unsupported)
    && (code == CodeMismatch <==> ShowsMismatch(b))
    && (status == Inconclusive && !ShowsMismatch(b) ==> code == StopCode(b))
  }

  /** The workflow stops short only for a cause: an interrupt pending after its
      last command, an answer that ends it, or, before the disk is read, no
      memory for the two images. */
  ghost predicate StopsForCause(acquirePending: bool, b: seq<Call>, memory: bool) {
    && (b == [] ==> acquirePending)
    && (1 <= |b| <= 5 && b[|b| - 1].Executed? && !b[|b| - 1].pending ==>
          match |b|
          case 1 => Sensed(b[0]).None?
          case 2 => !ChangeDue(b) || SelectCommand(Set1581Geometry(Sensed(b[0]).value)).None?
          case 3 => !CommandGood(b[2].result)
          case 4 => Sensed(b[3]).None? || !GeometryIs1581(Sensed(b[3]).value)
          case _ => !GoodRead(b[4], 9, 1))
    && (|b| >= 6 ==> ReadTwiceOver(b) || Stopped(false, b) || !memory)
  }

  /** A whole call of the workflow. `late` says that a signal fell between the
      moment cleanup clears the interrupt flag and the moment the restore
      checks it; `memory` that no allocation was refused. */
  datatype Run =
    | NotStarted
    | NotAcquired(acquire: Call)
    | Ran(acquire: Call, body: seq<Call>, restore: seq<Call>, release: Call, late: bool, memory: bool)

  ghost function CallsOf(r: Run): seq<Call> {
    match r
    case NotStarted => []
    case NotAcquired(a) => [a]
    case Ran(a, b, c, d, _, _) => [a] + b + c + [d]
  }

  /** The gap is passed exactly when a change was due; whether a signal fell
      into it. */
  ghost function GapsOf(r: Run): seq<bool> {
    if r.Ran? && ChangeDue(r.body) then [r.late] else []
  }

  ghost function RestoreCommand(b: seq<Call>): Option<Command> {
    if ChangeDue(b) then SelectCommand(Sensed(b[0]).value) else None
  }

  ghost predicate RunShape(r: Run) {
    match r
    case NotStarted => true
    case NotAcquired(a) => a.Acquired? && a.status != Success
    case Ran(a, b, c, d, late, memory) =>
      && a.Acquired? && a.status == Success && d.Released?
      && Course(b) && (a.pending ==> b == []) && StopsForCause(a.pending, b, memory)
      && (!memory ==> |b| == 6)
      && (late ==> ChangeDue(b))
      && if RestoreCommand(b).Some? && !late then |c| == 1 && c[0].Executed? && Some(c[0].command) == RestoreCommand(b)
         else c == []
  }

  /** The controller is known to hold its original parameters: they were saved
      and either nothing was to be changed or they were put back. */
  ghost predicate Restored(r: Run)
    requires r.Ran?
  {
    && r.body != [] && Sensed(r.body[0]).Some?
    && (ChangeDue(r.body) ==> r.restore != [] && r.restore[0].Executed? && CommandGood(r.restore[0].result))
  }

  /** The code of a restore that was not sent or not good. */
  ghost function RestoreFailure(c: seq<Call>): ProbeCode {
    if c != [] && c[0].Executed? then FailureCode(c[0].result) else CodeTransport
  }

  /** The final verdict, given the run: a failed release comes first, then a
      failed restore, and otherwise the body decides. */
  ghost predicate Verdict(code: ProbeCode, status: Status, r: Run)
    requires r.Ran? && r.release.Released?
  {
    if r.release.status != Success then
      status == Inconclusive && code == CodeForTransport(r.release.status)
    else if ChangeDue(r.body) && !Restored(r) then
      status == Inconclusive && code == RestoreFailure(r.restore)
    else Judged(code, status, r.body)
  }

  // ----- the report -----

  const BLANK_PAGE := FlexiblePage(Zeros(32), 0, 0, 0, 0, 0, 0, seq(20, i => false))

  class Report {
    var code: ProbeCode
    var status: Status
    var original: FlexiblePage
    var changeable: FlexiblePage
    var requested: FlexiblePage
    var accepted: FlexiblePage
    var acknowledgementSupplied: bool
    var exclusiveAcquired: bool
    var originalSaved: bool
    var controllerChanged: bool
    var controllerRestored: bool
    var boundaryLba9Read: bool
    var boundaryLba1599Read: bool
    var repeatedReadsMatch: bool
    var image: array?<byte>
    var imageLength: nat

    constructor ()
      ensures image == null
    {
      code, status := CodeTransport, Inconclusive;
      original, changeable, requested, accepted := BLANK_PAGE, BLANK_PAGE, BLANK_PAGE, BLANK_PAGE;
      acknowledgementSupplied, exclusiveAcquired, originalSaved := false, false, false;
      controllerChanged, controllerRestored := false, false;
      boundaryLba9Read, boundaryLba1599Read, repeatedReadsMatch := false, false, false;
      image, imageLength := null, 0;
    }

    method Clear()
      modifies this
      ensures code == CodeTransport && status == Inconclusive
      ensures !acknowledgementSupplied && !exclusiveAcquired && !originalSaved
      ensures !controllerChanged && !controllerRestored
      ensures !boundaryLba9Read && !boundaryLba1599Read && !repeatedReadsMatch
      ensures image == null && imageLength == 0
    {
      code, status := CodeTransport, Inconclusive;
      original, changeable, requested, accepted := BLANK_PAGE, BLANK_PAGE, BLANK_PAGE, BLANK_PAGE;
      acknowledgementSupplied, exclusiveAcquired, originalSaved := false, false, false;
      controllerChanged, controllerRestored := false, false;
      boundaryLba9Read, boundaryLba1599Read, repeatedReadsMatch := false, false, false;
      image, imageLength := null, 0;
    }

    /** A command failed: a code for its failure, and the verdict stays open. */
    method Fail(r: CommandResult)
      requires !CommandGood(r) && status == Inconclusive
      modifies this`code
      ensures code == FailureCode(r)
    {
      code := FailureCode(r);
    }

    method Refute()
      modifies this`code, this`status
      ensures code == CodeUnsupported && status == Unsupported
    {
      code, status := CodeUnsupported, Unsupported;
    }
  }

  /** The flags the report raises on the way say what was sent and answered. */
  ghost predicate Noted(b: seq<Call>, saved: bool, changed: bool, lba9: bool, lba1599: bool) {
    && (saved <==> b != [] && Sensed(b[0]).Some?)
    && (changed <==> |b| > 2 && b[2].Executed? && CommandGood(b[2].result))
    && (lba9 <==> |b| > 4 && GoodRead(b[4], 9, 1))
    && (lba1599 <==> |b| > 5 && GoodRead(b[5], 1599, 1))
  }

  lemma CourseExtends(b: seq<Call>, flag: bool, one: seq<Call>, after: bool)
    requires Course(b) && Flagged(b, flag) && SentAtMostOne(flag, one, after)
    requires one != [] ==> Follows(b + one, |b|)
    ensures Course(b + one) && (b != [] || one != [] ==> Flagged(b + one, after))
  {
    hide Follows;
    if one == [] {
      assert b + one == b;
    } else {
      forall i | 0 <= i < |b + one|
        ensures Follows(b + one, i) && (i < |b + one| - 1 ==> !(b + one)[i].pending)
      {
        if i < |b| { FollowsPrefix(b, one, i); }
      }
    }
  }

  lemma FollowsPrefix(b: seq<Call>, more: seq<Call>, i: nat)
    requires i < |b| && Follows(b, i)
    ensures Follows(b + more, i)
  {
    hide Sensed, ChangeAllowed, GoodRead, Reads, SelectCommand, ModeSenseCommand, GeometryIs1581, Set1581Geometry;
    assert forall k :: 0 <= k <= i ==> (b + more)[k] == b[k];
  }

  // ----- the workflow -----

  /** Where a stage of the workflow stands: the calls so far are `base`, from
      before it, and then `b`. */
  ghost predicate Stands(t: Transport, base: seq<Call>, b: seq<Call>)
    reads t
  {
    t.calls == base + b && Course(b) && Flagged(b, t.interrupted)
  }

  lemma ShortIsOpen(b: seq<Call>)
    requires |b| < 326
    ensures !ShowsSupported(b) && !ShowsMismatch(b) && !ReadTwiceOver(b)
    ensures BodyStatus(b) == if ShowsUnsupported(b) then Unsupported else Inconclusive
  {
  }

  /** The image kept with a supported verdict is what the first pass
      delivered. */
  ghost predicate ImageIs(report: Report, b: seq<Call>)
    reads report`status, report`image, report`imageLength, report.image
  {
    report.status == Supported ==>
      && report.image != null && report.imageLength == IMAGE_SIZE
      && |b| == 326 && report.image[..] == Delivered(b[6..166])
  }

  /** The flags in the report are those of Noted. */
  ghost predicate NotedIn(report: Report, b: seq<Call>)
    reads report`originalSaved, report`controllerChanged, report`boundaryLba9Read, report`boundaryLba1599Read
  {
    Noted(b, report.originalSaved, report.controllerChanged, report.boundaryLba9Read, report.boundaryLba1599Read)
  }

  /** The report while the verdict is open. */
  ghost predicate Open(report: Report)
    reads report`code, report`status, report`image, report`imageLength, report`repeatedReadsMatch
  {
    && report.code == CodeTransport && report.status == Inconclusive
    && report.image == null && report.imageLength == 0 && !report.repeatedReadsMatch
  }

  /** The report's pages are those the controller sent: the original with the
      flags of the mask, the mask, the request built on the original, and the
      readback. */
  ghost predicate PagesNoted(b: seq<Call>, original: FlexiblePage, changeable: FlexiblePage,
                             requested: FlexiblePage, accepted: FlexiblePage)
  {
    && (|b| == 1 && Sensed(b[0]).Some? ==> original == Sensed(b[0]).value)
    && (|b| >= 2 && Sensed(b[0]).Some? && Sensed(b[1]).Some? ==>
          && changeable == Sensed(b[1]).value
          && original == Sensed(b[0]).value.(fieldChangeable := original.fieldChangeable)
          && FlagsOf(original, changeable.page)
          && requested == Set1581Geometry(original))
    && (|b| >= 4 && Sensed(b[3]).Some? ==> accepted == Sensed(b[3]).value)
  }

  ghost predicate PagesIn(report: Report, b: seq<Call>)
    reads report`original, report`changeable, report`requested, report`accepted
  {
    PagesNoted(b, report.original, report.changeable, report.requested, report.accepted)
  }

  lemma PagesStay(report: Report, b: seq<Call>, more: seq<Call>)
    requires PagesIn(report, b) && b <= more && |b| >= 2 && (|more| >= 4 ==> |b| >= 4)
    ensures PagesIn(report, more)
  {
    hide Sensed, FlagsOf, Set1581Geometry;
  }

  lemma RequestNoted(report: Report, b: seq<Call>, original: FlexiblePage)
    requires PagesIn(report, b) && |b| == 2 && ChangeDue(b) && Sensed(b[0]) == Some(original)
    ensures report.requested.page == Set1581Geometry(original).page
  {
    hide Sensed, FlagsOf, ChangeAllowed;
    SamePageSameChange(report.original, original);
  }

  /** A failed stage: the code of the failure is that of the stop. */
  lemma FailedStage(b: seq<Call>, sent: seq<Call>, result: CommandResult)
    requires b != [] && b[|b| - 1].Executed? && b[|b| - 1].result.transport == Success
    requires |sent| <= 1 && ResultFrom(result, sent)
    ensures FailureCode(result) == StopCode(b + sent)
    ensures StopCode(b + sent) !in {CodeOk, CodeUnsupported, CodeMismatch, CodeUsage}
  {
    hide FailureCode, ResultFrom, StopCode;
    FailureIsStop(result, sent);
    StopCodeLater(b, sent);
    StopCodeIsFailure(b + sent);
  }

  lemma SensedIsGood(c: Call)
    requires Sensed(c).Some?
    ensures c.Executed? && CommandGood(c.result)
  {
  }

  /** Save the original parameters. */
  method SaveOriginal(t: Transport, report: Report, ghost base: seq<Call>)
    returns (ok: bool, original: FlexiblePage, ghost b: seq<Call>)
    requires t.calls == base && Open(report) && NotedIn(report, [])
    modifies t, report`code, report`originalSaved, report`original
    ensures Stands(t, base, b) && NotedIn(report, b) && (old(t.interrupted) ==> b == []) && |b| <= 1
    ensures PagesIn(report, b)
    ensures !ok ==> Judged(report.code, report.status, b) && report.status != Supported && !ChangeDue(b) && !report.originalSaved
    ensures !ok ==> StopsForCause(old(t.interrupted), b, true)
    ensures ok ==> Open(report) && |b| == 1 && Sensed(b[0]) == Some(original) && report.original == original
  {
    hide Sensed, FailureCode, GoodRead, ShowsSupported, ShowsMismatch, StopCode, ResultFrom;
    var result, page;
    result, page, b := ModeSense(t, false);
    FailureIsStop(result, b);
    StopCodeIsFailure(b);
    CourseExtends([], t.interrupted, [], t.interrupted);
    ShortIsOpen(b);
    original := BLANK_PAGE;
    if page.None? {
      report.Fail(result);
      return false, original, b;
    }
    original := page.value;
    report.originalSaved, report.original := true, original;
    return true, original, b;
  }

  /** Read the mask and decide whether the change may be asked for. */
  method CheckMask(t: Transport, report: Report, original: FlexiblePage, ghost base: seq<Call>, ghost b0: seq<Call>)
    returns (ok: bool, ghost b: seq<Call>)
    requires Stands(t, base, b0) && NotedIn(report, b0) && Open(report)
    requires |b0| == 1 && Sensed(b0[0]) == Some(original) && report.original == original && PagesIn(report, b0)
    modifies t, report`code, report`status, report`original, report`changeable, report`requested
    ensures Stands(t, base, b) && NotedIn(report, b) && b0 <= b && |b| <= 2 && PagesIn(report, b)
    ensures !ok ==> Judged(report.code, report.status, b) && report.status != Supported && !ChangeDue(b)
    ensures !ok ==> StopsForCause(false, b, true)
    ensures ok ==> Open(report) && |b| == 2 && ChangeDue(b)
  {
    hide Sensed, FailureCode, ShowsSupported, ShowsMismatch, ChangeAllowed, Set1581Geometry, Follows, Course,
         ByteChangeAllowed, Noted, StopCode, ResultFrom, FlagsOf;
    var result, page;
    ghost var sent: seq<Call>;
    ghost var flag := t.interrupted;
    result, page, sent := ModeSense(t, true);
    b := b0 + sent;
    MaskFollows(b0, sent);
    SensedIsGood(b0[0]);
    FailedStage(b0, sent, result);
    CourseExtends(b0, flag, sent, t.interrupted);
    ShortIsOpen(b);
    if page.None? {
      report.Fail(result);
      return false, b;
    }
    var allowed := DecideChange(report, original, page.value);
    return allowed, b;
  }

  /** Request the 1581 geometry on top of the saved page, and see whether the
      mask grants it. */
  method DecideChange(report: Report, original: FlexiblePage, mask: FlexiblePage) returns (allowed: bool)
    requires report.original == original
    modifies report`code, report`status, report`original, report`changeable, report`requested
    ensures allowed <==> ChangeAllowed(original, mask)
    ensures report.changeable == mask
    ensures report.original == original.(fieldChangeable := report.original.fieldChangeable)
    ensures FlagsOf(report.original, mask.page)
    ensures report.requested == Set1581Geometry(report.original)
    ensures if allowed then report.code == old(report.code) && report.status == old(report.status)
            else report.code == CodeUnsupported && report.status == Unsupported
  {
    hide ChangeAllowed, Set1581Geometry, ByteChangeAllowed;
    report.changeable := mask;
    report.original := ApplyChangeability(report.original, report.changeable);
    report.requested := Set1581Geometry(report.original);
    SamePageSameChange(original, report.original);
    AllowedMeans(original, report.original, report.requested, report.changeable);
    allowed := GeometryChangesAllowed(report.original, report.requested, report.changeable);
    if !allowed {
      report.Refute();
    }
  }

  lemma MaskFollows(b: seq<Call>, sent: seq<Call>)
    requires |b| == 1 && Sensed(b[0]).Some? && |sent| <= 1
    requires sent != [] ==> sent[0].Executed? && sent[0].command == ModeSenseCommand(true)
    ensures sent != [] ==> Follows(b + sent, 1)
    ensures forall x: bool, c: bool, y: bool, z: bool :: Noted(b, x, c, y, z) <==> Noted(b + sent, x, c, y, z)
  {
    hide Sensed;
  }

  lemma AllowedMeans(original: FlexiblePage, current: FlexiblePage, requested: FlexiblePage, mask: FlexiblePage)
    requires current.page == original.page && requested.page == Set1581Geometry(original).page
    ensures ChangeAllowed(original, mask) <==>
            forall i: nat :: i < FLEX_PAGE_LENGTH && GeometryByte(i) ==>
              ByteChangeAllowed(current.page, requested.page, mask.page, i)
  {
    hide Set1581Geometry, ByteChangeAllowed;
  }

  /** Only the page bytes matter to the change and to the MODE SELECT built
      from it. */
  lemma SamePageSameChange(p: FlexiblePage, q: FlexiblePage)
    requires p.page == q.page
    ensures Set1581Geometry(p).page == Set1581Geometry(q).page
    ensures SelectCommand(p) == SelectCommand(q)
  {
  }

  /** Ask for the 1581 geometry. */
  method Change(t: Transport, report: Report, ghost original: FlexiblePage, ghost base: seq<Call>, ghost b0: seq<Call>)
    returns (ok: bool, ghost b: seq<Call>)
    requires Stands(t, base, b0) && NotedIn(report, b0) && Open(report)
    requires |b0| == 2 && ChangeDue(b0) && Sensed(b0[0]) == Some(original)
    requires report.requested.page == Set1581Geometry(original).page
    modifies t, report`code, report`status, report`controllerChanged
    ensures Stands(t, base, b) && NotedIn(report, b) && b0 <= b && |b| <= 3
    ensures !ok ==> Judged(report.code, report.status, b) && report.status != Supported
    ensures !ok ==> StopsForCause(false, b, true)
    ensures ok ==> Open(report) && |b| == 3 && b[2].Executed? && CommandGood(b[2].result)
  {
    hide Sensed, FailureCode, GoodRead, ShowsSupported, ShowsMismatch, ChangeAllowed, SelectCommand, Set1581Geometry,
         StopCode;
    SamePageSameChange(report.requested, Set1581Geometry(original));
    var result;
    ghost var sent: seq<Call>;
    ghost var flag := t.interrupted;
    result, sent := ModeSelect(t, report.requested);
    b := b0 + sent;
    SensedIsGood(b0[1]);
    FailedStage(b0, sent, result);
    CourseExtends(b0, flag, sent, t.interrupted);
    ShortIsOpen(b);
    if !CommandGood(result) {
      report.Fail(result);
      if result.transport == Success {
        report.Refute();
      }
      return false, b;
    }
    report.controllerChanged := true;
    return true, b;
  }

  /** Read the parameters back. */
  method Verify(t: Transport, report: Report, ghost base: seq<Call>, ghost b0: seq<Call>)
    returns (ok: bool, ghost b: seq<Call>)
    requires Stands(t, base, b0) && NotedIn(report, b0) && Open(report)
    requires |b0| == 3 && b0[2].Executed? && CommandGood(b0[2].result) && PagesIn(report, b0)
    modifies t, report`code, report`status, report`accepted
    ensures Stands(t, base, b) && NotedIn(report, b) && b0 <= b && |b| <= 4
    ensures |b| == 4 && Sensed(b[3]).Some? ==> report.accepted == Sensed(b[3]).value
    ensures PagesIn(report, b)
    ensures !ok ==> Judged(report.code, report.status, b) && report.status != Supported
    ensures !ok ==> StopsForCause(false, b, true)
    ensures ok ==> Open(report) && |b| == 4 && Sensed(b[3]) == Some(report.accepted) && GeometryIs1581(report.accepted)
  {
    hide Sensed, FailureCode, GoodRead, ShowsSupported, ShowsMismatch, ChangeDue, GeometryIs1581, StopCode, ResultFrom;
    var result, page;
    ghost var sent: seq<Call>;
    ghost var flag := t.interrupted;
    result, page, sent := ModeSense(t, false);
    b := b0 + sent;
    FailedStage(b0, sent, result);
    CourseExtends(b0, flag, sent, t.interrupted);
    ShortIsOpen(b);
    if page.None? {
      report.Fail(result);
      return false, b;
    }
    report.accepted := page.value;
    if !GeometryIs1581(report.accepted) {
      report.Refute();
      return false, b;
    }
    return true, b;
  }

  /** Read one boundary block: the fifth command, or the sixth. */
  method ReadBoundary(t: Transport, report: Report, lba: nat, ghost base: seq<Call>, ghost b0: seq<Call>)
    returns (ok: bool, ghost b: seq<Call>)
    requires Stands(t, base, b0) && Open(report)
    requires if lba == 9 then |b0| == 4 && Sensed(b0[3]).Some? && GeometryIs1581(Sensed(b0[3]).value)
             else lba == 1599 && |b0| == 5 && GoodRead(b0[4], 9, 1)
    modifies t, report`code, report`status
    ensures Stands(t, base, b) && b0 <= b
    ensures !ok ==> Judged(report.code, report.status, b) && report.status != Supported
    ensures |b| <= |b0| + 1 && (ok <==> |b| == |b0| + 1 && GoodRead(b[|b0|], lba, 1))
    ensures !ok ==> StopsForCause(false, b, true)
    ensures ok ==> Open(report)
  {
    hide Sensed, FailureCode, ShowsSupported, ShowsMismatch, ChangeDue, GeometryIs1581, CdbRead10, StopCode, ResultFrom;
    var result, data;
    ghost var sent: seq<Call>;
    ghost var flag := t.interrupted;
    result, data, sent := ReadBlocks(t, lba, 1, Zeros(BLOCK_SIZE));
    b := b0 + sent;
    if lba == 9 { SensedIsGood(b0[3]); }
    FailedStage(b0, sent, result);
    CourseExtends(b0, flag, sent, t.interrupted);
    ShortIsOpen(b);
    if !CommandGood(result) {
      report.Fail(result);
      if result.transport == Success {
        report.Refute();
      }
      return false, b;
    }
    return true, b;
  }

  lemma CourseReads(b: seq<Call>, flag: bool, pass: seq<Call>, after: bool)
    requires Course(b) && Flagged(b, flag) && |b| >= 6 && GoodRead(b[5], 1599, 1)
    requires OnlyReads(pass) && FlagFollows(flag, pass, after)
    ensures Course(b + pass) && Flagged(b + pass, after)
  {
    hide GoodRead, Follows;
    var all := b + pass;
    forall i | 0 <= i < |all| ensures Follows(all, i) && (i < |all| - 1 ==> !all[i].pending) {
      if i < |b| {
        FollowsPrefix(b, pass, i);
      } else {
        LaterReadFollows(all, i);
      }
    }
  }

  lemma LaterReadFollows(b: seq<Call>, i: nat)
    requires 6 <= i < |b| && GoodRead(b[5], 1599, 1) && b[i].Executed? && b[i].command.cdb[0] == READ_10
    ensures Follows(b, i)
  {
  }

  lemma PastBoundaries(b: seq<Call>)
    requires |b| >= 6 && GoodRead(b[5], 1599, 1)
    ensures !ShowsUnsupported(b)
  {
  }

  lemma PassLength(n: nat)
    ensures Covered(n, IMAGE_BLOCKS, CHUNK_BLOCKS) == Smaller(n * 10, 1600)
  {
    CoveredIsProduct(n, IMAGE_BLOCKS, CHUNK_BLOCKS);
  }

  lemma FullPass(pass: seq<Call>)
    requires ReadsAll(pass, IMAGE_BLOCKS, CHUNK_BLOCKS)
    ensures |pass| == 160
  {
    hide GoodRead;
    PassLength(|pass|);
    PassLength(160);
    assert |pass| > 160 ==> ChunkRead(pass[160], 160, IMAGE_BLOCKS, CHUNK_BLOCKS);
  }

  /** Two passes of reads behind the boundary reads: the run is complete
      exactly when both passes are. */
  lemma PassesComplete(b0: seq<Call>, p: seq<Call>, q: seq<Call>)
    requires |b0| == 6
    requires p != [] ==> Covered(|p| - 1, IMAGE_BLOCKS, CHUNK_BLOCKS) < IMAGE_BLOCKS
    requires q != [] ==> ReadsAll(p, IMAGE_BLOCKS, CHUNK_BLOCKS) && Covered(|q| - 1, IMAGE_BLOCKS, CHUNK_BLOCKS) < IMAGE_BLOCKS
    ensures ReadTwiceOver(b0 + p + q) <==>
              ReadsAll(p, IMAGE_BLOCKS, CHUNK_BLOCKS) && ReadsAll(q, IMAGE_BLOCKS, CHUNK_BLOCKS)
    ensures ReadTwiceOver(b0 + p + q) ==> (b0 + p + q)[6..166] == p && (b0 + p + q)[166..] == q
  {
    hide ReadsAll;
    if p != [] { PassLength(|p| - 1); }
    if q != [] { PassLength(|q| - 1); FullPass(p); }
    var b := b0 + p + q;
    if ReadsAll(p, IMAGE_BLOCKS, CHUNK_BLOCKS) && ReadsAll(q, IMAGE_BLOCKS, CHUNK_BLOCKS) {
      FullPass(p);
      FullPass(q);
    }
    if |b| == 326 {
      assert b[6..166] == p && b[166..] == q;
    }
  }

  /** Two complete reads, into two images. */
  method ReadBoth(t: Transport, image: array<byte>, second: array<byte>, ghost base: seq<Call>, ghost b0: seq<Call>)
    returns (ok: bool, code: ProbeCode, ghost b: seq<Call>)
    requires Stands(t, base, b0) && |b0| == 6 && GoodRead(b0[5], 1599, 1)
    requires image.Length == second.Length == IMAGE_SIZE && image != second
    modifies t, image, second
    ensures Stands(t, base, b) && b0 <= b && !ShowsUnsupported(b)
    ensures ok <==> ReadTwiceOver(b)
    ensures ok ==> image[..] == Delivered(b[6..166]) && second[..] == Delivered(b[166..])
    ensures !ok ==> code == StopCode(b)
    ensures !ok ==> Stopped(false, b)
  {
    hide GoodRead, FullRead, Stopped, Sensed, ReadsAll, ChangeDue, Course, OnlyReads, FlagFollows, Covered, Delivered,
         ReadTwiceOver, ShowsUnsupported, Flagged, StopCode;
    GoodReadIsGood(b0[5]);
    ghost var p, q: seq<Call>;
    ghost var flag := t.interrupted;
    ok, code, p := ReadCompleteImage(t, image, IMAGE_BLOCKS, CHUNK_BLOCKS);
    b := b0 + p;
    CourseReads(b0, flag, p, t.interrupted);
    PassesComplete(b0, p, []);
    PastBoundaries(b);
    assert b0 + p + [] == b;
    if !ok {
      StoppedLater(b0, flag, p);
      StopCodeLater(b0, p);
      return;
    }
    ghost var b1 := b;
    flag := t.interrupted;
    ok, code, q := ReadCompleteImage(t, second, IMAGE_BLOCKS, CHUNK_BLOCKS);
    CourseReads(b, flag, q, t.interrupted);
    b := b + q;
    PassesComplete(b0, p, q);
    PastBoundaries(b);
    if !ok {
      StoppedLater(b1, flag, q);
      FullPassEndsWell(p);
      StopCodeLater(b1, q);
    }
  }

  lemma GoodReadIsGood(c: Call)
    requires exists lba, blocks :: GoodRead(c, lba, blocks)
    ensures c.Executed? && c.result.transport == Success
  {
  }

  lemma GoodReadStops(b: seq<Call>)
    requires b != [] && GoodRead(b[|b| - 1], 1599, 1)
    ensures StopCode(b) == CodeTransport
  {
  }

  lemma FullPassEndsWell(pass: seq<Call>)
    requires ReadsAll(pass, IMAGE_BLOCKS, CHUNK_BLOCKS)
    ensures pass != [] && pass[|pass| - 1].Executed? && pass[|pass| - 1].result.transport == Success
  {
    FullPass(pass);
    assert ChunkRead(pass[159], 159, IMAGE_BLOCKS, CHUNK_BLOCKS);
  }

  lemma StoppedLater(b: seq<Call>, flag: bool, more: seq<Call>)
    requires b != [] && Flagged(b, flag) && Stopped(flag, more)
    ensures Stopped(false, b + more)
  {
    hide FullRead;
    if more == [] {
      assert b + more == b;
    }
  }

  /** Read the whole disk twice and compare. */
  method ReadTwice(t: Transport, heap: Heap, report: Report, ghost base: seq<Call>, ghost b0: seq<Call>)
    returns (ghost b: seq<Call>, ghost memory: bool)
    requires Stands(t, base, b0) && Open(report) && |b0| == 6 && GoodRead(b0[5], 1599, 1)
    modifies t, heap, report`code, report`status, report`image, report`imageLength, report`repeatedReadsMatch
    ensures Stands(t, base, b) && b0 <= b
    ensures memory <==> heap.refusals == old(heap.refusals)
    ensures if memory then ReadTwiceOver(b) || Stopped(false, b) else b == b0
    ensures Judged(report.code, report.status, b)
    ensures report.repeatedReadsMatch <==> report.status == Supported
    ensures ImageIs(report, b) && (report.image != null ==> fresh(report.image))
  {
    hide GoodRead, FullRead, Stopped, Course, Flagged, Delivered, ReadTwiceOver, ShowsUnsupported, StopCode, Judged,
         BodyStatus, ShowsMismatch, ShowsSupported;
    b := b0;
    GoodReadStops(b0);
    PastBoundaries(b0);
    ShortIsOpen(b0);
    StoppedIsJudged(b0);
    var firstAllocated := heap.Ask(IMAGE_SIZE);
    var secondAllocated := heap.Ask(IMAGE_SIZE);
    memory := firstAllocated && secondAllocated;
    if firstAllocated {
      report.image := new byte[IMAGE_SIZE];
    }
    if !firstAllocated || !secondAllocated {
      report.code := CodeTransport;
      return;
    }
    var second := new byte[IMAGE_SIZE];
    var ok, code;
    ok, code, b := ReadBoth(t, report.image, second, base, b0);
    if !ok {
      StoppedIsJudged(b);
      report.code := code;
      return;
    }
    ComparedIsJudged(b);
    if report.image[..] != second[..] {
      report.code, report.status := CodeMismatch, Inconclusive;
      return;
    }
    report.repeatedReadsMatch, report.imageLength := true, IMAGE_SIZE;
    report.code, report.status := CodeOk, Supported;
  }

  lemma StoppedIsJudged(b: seq<Call>)
    requires !ShowsUnsupported(b) && !ReadTwiceOver(b)
    ensures Judged(StopCode(b), Inconclusive, b)
  {
    StopCodeIsFailure(b);
    hide ShowsUnsupported, ReadTwiceOver, StopCode;
  }

  lemma ComparedIsJudged(b: seq<Call>)
    requires !ShowsUnsupported(b) && ReadTwiceOver(b)
    ensures |b| == 326
    ensures var same := Delivered(b[6..166]) == Delivered(b[166..]);
            Judged(if same then CodeOk else CodeMismatch, if same then Supported else Inconclusive, b)
  {
    hide ShowsUnsupported, ReadsAll;
  }

  lemma NotedStays(report: Report, b: seq<Call>, more: seq<Call>)
    requires NotedIn(report, b) && |b| >= 6 && b <= more
    ensures NotedIn(report, more)
  {
    hide Sensed, GoodRead;
  }

  /** The boundary blocks and then the whole disk, once the readback shows the
      1581 geometry. */
  method ReadDisk(t: Transport, heap: Heap, report: Report, ghost base: seq<Call>, ghost b0: seq<Call>)
    returns (ghost b: seq<Call>, ghost memory: bool)
    requires Stands(t, base, b0) && NotedIn(report, b0) && Open(report)
    requires |b0| == 4 && Sensed(b0[3]).Some? && GeometryIs1581(Sensed(b0[3]).value)
    modifies t, heap, report`code, report`status, report`boundaryLba9Read, report`boundaryLba1599Read,
             report`image, report`imageLength, report`repeatedReadsMatch
    ensures Stands(t, base, b) && NotedIn(report, b) && b0 <= b && StopsForCause(false, b, memory)
    ensures (memory <==> heap.refusals == old(heap.refusals)) && (!memory ==> |b| == 6)
    ensures Judged(report.code, report.status, b)
    ensures report.repeatedReadsMatch <==> report.status == Supported
    ensures ImageIs(report, b) && (report.image != null ==> fresh(report.image))
  {
    hide GoodRead, Sensed, Course, Flagged, Judged, GeometryIs1581, Delivered;
    memory := true;
    var ok;
    ok, b := ReadBoundary(t, report, 9, base, b0);
    if !ok {
      return;
    }
    report.boundaryLba9Read := true;
    ghost var b1 := b;
    ok, b := ReadBoundary(t, report, 1599, base, b1);
    if !ok {
      return;
    }
    report.boundaryLba1599Read := true;
    ghost var b2 := b;
    b, memory := ReadTwice(t, heap, report, base, b2);
    NotedStays(report, b2, b);
  }

  /** The part of m65_test_1581 between acquire and cleanup. */
  method RunBody(t: Transport, heap: Heap, report: Report)
    returns (restoreNeeded: bool, original: FlexiblePage, ghost b: seq<Call>, ghost memory: bool)
    requires Open(report) && NotedIn(report, [])
    modifies t, heap, report`code, report`status, report`original, report`changeable, report`requested,
             report`accepted, report`originalSaved, report`controllerChanged, report`boundaryLba9Read, report`boundaryLba1599Read,
             report`image, report`imageLength, report`repeatedReadsMatch
    ensures t.calls == old(t.calls) + b && Course(b) && (old(t.interrupted) ==> b == [])
    ensures NotedIn(report, b) && PagesIn(report, b) && Judged(report.code, report.status, b)
    ensures StopsForCause(old(t.interrupted), b, memory)
    ensures (memory <==> heap.refusals == old(heap.refusals)) && (!memory ==> |b| == 6)
    ensures restoreNeeded <==> ChangeDue(b)
    ensures restoreNeeded ==> Sensed(b[0]) == Some(original)
    ensures report.repeatedReadsMatch <==> report.status == Supported
    ensures ImageIs(report, b) && (report.image != null ==> fresh(report.image))
  {
    hide GoodRead, Sensed, Course, Flagged, BodyStatus, ShowsMismatch, ChangeAllowed, GeometryIs1581, Noted, Delivered,
         PagesNoted, Judged, StopCode;
    ghost var base := t.calls;
    var ok;
    restoreNeeded, memory := false, true;
    ghost var b1, b2, b3, b4: seq<Call>;
    ok, original, b1 := SaveOriginal(t, report, base);
    if !ok {
      return false, original, b1, memory;
    }
    ok, b2 := CheckMask(t, report, original, base, b1);
    if !ok {
      return false, original, b2, memory;
    }
    restoreNeeded := true;
    RequestNoted(report, b2, original);
    ok, b3 := Change(t, report, original, base, b2);
    PagesStay(report, b2, b3);
    if !ok {
      return true, original, b3, memory;
    }
    ok, b4 := Verify(t, report, base, b3);
    if !ok {
      return true, original, b4, memory;
    }
    b, memory := ReadDisk(t, heap, report, base, b4);
    PagesStay(report, b4, b);
  }

  /** Put the saved parameters back if a change was due; an interrupt that was
      pending before does not prevent it, one that arrives between the two
      statements does. */
  method Restore(t: Transport, signals: Signals, report: Report, restoreNeeded: bool, original: FlexiblePage, ghost b: seq<Call>)
    returns (ghost c: seq<Call>, ghost late: bool)
    requires NotedIn(report, b) && Judged(report.code, report.status, b) && !report.controllerRestored
    requires restoreNeeded <==> ChangeDue(b)
    requires restoreNeeded ==> Sensed(b[0]) == Some(original)
    modifies t, signals, report`code, report`status, report`controllerRestored
    ensures t.calls == old(t.calls) + c && (late ==> ChangeDue(b))
    ensures signals.gaps == old(signals.gaps) + if ChangeDue(b) then [late] else []
    ensures if RestoreCommand(b).Some? && !late then
              |c| == 1 && c[0].Executed? && Some(c[0].command) == RestoreCommand(b)
            else c == []
    ensures report.controllerRestored <==>
              report.originalSaved
              && (ChangeDue(b) ==> c != [] && c[0].Executed? && CommandGood(c[0].result))
    ensures !ChangeDue(b) || report.controllerRestored ==> report.code == old(report.code) && report.status == old(report.status)
    ensures ChangeDue(b) && !report.controllerRestored ==>
              report.status == Inconclusive && report.code == RestoreFailure(c)
  {
    hide Sensed, SelectCommand, BodyStatus, ShowsMismatch, ChangeAllowed, GoodRead;
    c, late := [], false;
    if restoreNeeded && report.originalSaved {
      t.interrupted := false;
      var signal := signals.Gap();
      late := signal;
      if signal {
        t.interrupted := true;
      }
      var result;
      result, c := ModeSelect(t, original);
      if CommandGood(result) {
        report.controllerRestored := true;
      } else {
        report.code := CodeForTransport(result.transport);
        if report.code == CodeOk {
          report.code := CodeTransport;
        }
        report.status := Inconclusive;
      }
    } else if report.originalSaved {
      report.controllerRestored := true;
    }
  }

  /** Release the transport, and drop the image unless the verdict stands. */
  method Release(t: Transport, report: Report) returns (ghost d: Call)
    modifies t, report`code, report`status, report`exclusiveAcquired, report`image, report`imageLength
    ensures t.calls == old(t.calls) + [d] && d.Released? && !report.exclusiveAcquired
    ensures d.status == Success ==> report.code == old(report.code) && report.status == old(report.status)
    ensures d.status != Success ==> report.status == Inconclusive && report.code == CodeForTransport(d.status)
    ensures report.status == Supported ==> report.image == old(report.image) && report.imageLength == old(report.imageLength)
    ensures report.status != Supported ==> report.image == null && report.imageLength == 0
  {
    var status := t.ReleaseExclusive();
    d := Released(status, t.interrupted);
    if status != Success {
      report.code := CodeForTransport(status);
      report.status := Inconclusive;
    }
    report.exclusiveAcquired := false;
    if report.status != Supported {
      report.image, report.imageLength := null, 0;
    }
  }

  /** What the report says of a run that acquired the transport. */
  ghost predicate Reports(report: Report, run: Run)
    requires run.Ran? && run.release.Released?
    reads report
  {
    && Verdict(report.code, report.status, run)
    && (report.controllerRestored <==> Restored(run))
    && NotedIn(report, run.body) && PagesIn(report, run.body)
    && (report.image != null <==> report.status == Supported)
    && !report.exclusiveAcquired
  }

  /** Code, status and image never disagree. */
  ghost predicate Consistent(code: ProbeCode, status: Status, kept: bool) {
    && (code == CodeOk <==> status == Supported)
    && (status == Supported <==> kept)
    && (code == CodeUnsupported <==> status == Unsupported)
  }

  lemma VerdictIsConsistent(code: ProbeCode, status: Status, r: Run)
    requires r.Ran? && r.release.Released? && Verdict(code, status, r)
    ensures Consistent(code, status, status == Supported)
  {
    hide ChangeAllowed, Sensed, BodyStatus, ShowsMismatch;
  }

  /** The verdict after the body, after the restore and after the release add
      up to the verdict of the run. */
  lemma RunConcludes(run: Run, saved: bool, restored: bool, judged: (ProbeCode, Status),
                     afterRestore: (ProbeCode, Status), final: (ProbeCode, Status))
    requires run.Ran? && run.release.Released?
    requires Judged(judged.0, judged.1, run.body)
    requires saved <==> run.body != [] && Sensed(run.body[0]).Some?
    requires restored <==>
               saved && (ChangeDue(run.body) ==>
                           run.restore != [] && run.restore[0].Executed? && CommandGood(run.restore[0].result))
    requires !ChangeDue(run.body) || restored ==> afterRestore == judged
    requires ChangeDue(run.body) && !restored ==> afterRestore == (RestoreFailure(run.restore), Inconclusive)
    requires final == if run.release.status == Success then afterRestore
                      else (CodeForTransport(run.release.status), Inconclusive)
    ensures Verdict(final.0, final.1, run) && (restored <==> Restored(run))
    ensures Consistent(final.0, final.1, final.1 == Supported)
  {
    hide Sensed, ChangeAllowed, Judged, RestoreFailure;
    VerdictIsConsistent(final.0, final.1, run);
  }

  lemma CallsAfterAcquire(r: Run)
    requires r.Ran?
    ensures CallsOf(r)[1..] == r.body + r.restore + [r.release]
  {
  }

  /** From the body on, with the transport acquired. */
  method RunAcquired(t: Transport, signals: Signals, heap: Heap, report: Report, ghost a: Call)
    returns (ghost run: Run)
    requires Open(report) && NotedIn(report, []) && !report.controllerRestored
    requires a == Acquired(Success, t.interrupted)
    modifies t, signals, heap, report
    ensures run.Ran? && RunShape(run) && run.acquire == a
    ensures t.calls == old(t.calls) + CallsOf(run)[1..]
    ensures signals.gaps == old(signals.gaps) + GapsOf(run)
    ensures run.memory <==> heap.refusals == old(heap.refusals)
    ensures Reports(report, run) && report.acknowledgementSupplied == old(report.acknowledgementSupplied)
    ensures Consistent(report.code, report.status, report.image != null)
    ensures ImageIs(report, run.body) && (report.image != null ==> fresh(report.image))
  {
    hide Sensed, SelectCommand, Judged, GoodRead, Course, Delivered, ChangeDue, RestoreCommand, StopsForCause,
         Verdict, Restored, RestoreFailure, Consistent, CallsOf, PagesNoted, FlagsOf;
    ghost var b, memory;
    var restoreNeeded, original;
    restoreNeeded, original, b, memory := RunBody(t, heap, report);
    run := CleanUp(t, signals, report, restoreNeeded, original, a, b, memory);
    CallsAfterAcquire(run);
  }

  /** The cleanup: restore, then release. */
  method CleanUp(t: Transport, signals: Signals, report: Report, restoreNeeded: bool, original: FlexiblePage,
                 ghost a: Call, ghost b: seq<Call>, ghost memory: bool)
    returns (ghost run: Run)
    requires NotedIn(report, b) && Judged(report.code, report.status, b) && !report.controllerRestored
    requires restoreNeeded <==> ChangeDue(b)
    requires restoreNeeded ==> Sensed(b[0]) == Some(original)
    modifies t, signals, report`code, report`status, report`controllerRestored, report`exclusiveAcquired,
             report`image, report`imageLength
    ensures run.Ran? && run.acquire == a && run.body == b && run.memory == memory && run.release.Released?
    ensures t.calls == old(t.calls) + run.restore + [run.release]
    ensures signals.gaps == old(signals.gaps) + GapsOf(run) && (run.late ==> ChangeDue(b))
    ensures if RestoreCommand(b).Some? && !run.late then
              |run.restore| == 1 && run.restore[0].Executed? && Some(run.restore[0].command) == RestoreCommand(b)
            else run.restore == []
    ensures Verdict(report.code, report.status, run) && (report.controllerRestored <==> Restored(run))
    ensures Consistent(report.code, report.status, report.status == Supported)
    ensures report.status == Supported ==>
              old(report.status) == Supported
              && report.image == old(report.image) && report.imageLength == old(report.imageLength)
    ensures report.status != Supported ==> report.image == null
    ensures !report.exclusiveAcquired
  {
    hide Sensed, SelectCommand, Judged, GoodRead, Course, ChangeDue, RestoreCommand, Verdict, Restored, RestoreFailure,
         Consistent;
    ghost var judged := (report.code, report.status);
    ghost var c, late, d;
    c, late := Restore(t, signals, report, restoreNeeded, original, b);
    ghost var restored := (report.code, report.status);
    d := Release(t, report);
    run := Ran(a, b, c, d, late, memory);
    RunConcludes(run, report.originalSaved, report.controllerRestored, judged, restored, (report.code, report.status));
  }

  /** m65_test_1581. */
  method Test1581(t: Transport, signals: Signals, heap: Heap, acknowledgement: bool, report: Report)
    returns (ghost run: Run)
    modifies t, signals, heap, report
    ensures t.calls == old(t.calls) + CallsOf(run) && RunShape(run)
    ensures signals.gaps == old(signals.gaps) + GapsOf(run)
    ensures run.Ran? && !run.memory <==> heap.refusals != old(heap.refusals)
    ensures report.acknowledgementSupplied == acknowledgement
    ensures run == NotStarted <==> !acknowledgement
    ensures run == NotStarted ==> report.code == CodeUsage && report.status == Inconclusive
    ensures run.NotAcquired? ==>
              report.code == CodeForTransport(run.acquire.status) != CodeOk && report.status == Inconclusive
    ensures !run.Ran? ==> report.image == null && !report.exclusiveAcquired && !report.controllerRestored
    ensures run.Ran? ==> Reports(report, run)
    ensures Consistent(report.code, report.status, report.image != null)
    ensures report.status == Supported ==>
              run.Ran? && fresh(report.image) && report.imageLength == IMAGE_SIZE
              && report.image[..] == Delivered(run.body[6..166])
  {
    hide Reports, Delivered, Course, RestoreCommand, ChangeDue, StopsForCause, Sensed, GoodRead;
    report.Clear();
    report.acknowledgementSupplied := acknowledgement;
    t.interrupted := false;
    if !acknowledgement {
      report.code := CodeUsage;
      return NotStarted;
    }
    var status := t.AcquireExclusive();
    ghost var a := Acquired(status, t.interrupted);
    if status != Success {
      report.code := CodeForTransport(status);
      return NotAcquired(a);
    }
    report.exclusiveAcquired := true;
    run := RunAcquired(t, signals, heap, report, a);
    assert CallsOf(run) == [a] + CallsOf(run)[1..];
  }
}
