/** Concrete runs of the 1581 probe in which a promised restore does not
    happen, and why: they show that the conditions in ProbeSafety are needed. */
module ProbeWitnesses {
  import opened Bytes
  import opened Ufi
  import opened ModePages
  import opened CbiProtocol
  import opened ProbeCommands
  import opened Probe
  import opened ProbeSafety

  /** A controller's answer to MODE SENSE that holds one Flexible Disk page. */
  ghost function Answer(changeable: bool, page: seq<byte>): Call
    requires WellFormed(Alone(page))
  {
    var d := Print(Alone(page));
    Executed(ModeSenseCommand(changeable), CommandResult(Success, SCSI_GOOD, |d|, NO_SENSE), d, false)
  }

  ghost function Alone(page: seq<byte>): Response { Response(Zeros(4), [], [], page, []) }

  lemma AnswerIsSensed(changeable: bool, page: seq<byte>)
    requires WellFormed(Alone(page))
    ensures DecodeFlexible(page).Some? && Sensed(Answer(changeable, page)) == DecodeFlexible(page)
  {
    hide DecodeFlexible, Parse, WellFormed, Print;
    var d := Print(Alone(page));
    ParseInvertsPrint(Alone(page), []);
    assert d + [] == d && d[..|d|] == d;
  }

  /** A page with the given length byte and its other bytes alike. */
  ghost function PageOf(length: byte, fill: byte): seq<byte>
    requires 30 <= length < 200
  {
    [FLEXIBLE_DISK_PAGE, length] + seq(length, i => fill)
  }

  lemma PageOfIsWellFormed(length: byte, fill: byte)
    requires 30 <= length < 200
    ensures WellFormed(Alone(PageOf(length, fill)))
  {
    assert Concat([]) == [];
  }

  lemma {:induction false} FullMaskCovers(a: nat, b: nat, m: nat)
    requires m in {0, 1, 3, 7, 15, 31, 63, 127, 255} && a <= m && b <= m
    ensures Covers(a, b, m)
  {
    if m > 0 {
      FullMaskCovers(a / 2, b / 2, m / 2);
      CoversStep(a, b, m);
    }
  }

  /** Against a mask of ones any page may be changed. */
  lemma FullMaskAllows(original: FlexiblePage, mask: FlexiblePage)
    requires forall i :: 2 <= i < FLEX_PAGE_LENGTH ==> mask.page[i] == 255
    ensures ChangeAllowed(original, mask)
  {
    hide Set1581Geometry, Covers, AndNot, Xor;
    var requested := Set1581Geometry(original);
    forall i: nat | i < FLEX_PAGE_LENGTH && GeometryByte(i)
      ensures ByteChangeAllowed(original.page, requested.page, mask.page, i)
    {
      FullMaskCovers(original.page[i], requested.page[i], 255);
      MaskCoversChange(original.page[i], requested.page[i], 255);
    }
  }

  lemma AnswerHolds(changeable: bool, length: byte, fill: byte) returns (c: Call)
    requires 30 <= length < 200
    ensures c.Executed? && c.command == ModeSenseCommand(changeable) && !c.pending
    ensures Sensed(c).Some? && Sensed(c).value.page == PageOf(length, fill)[..FLEX_PAGE_LENGTH]
  {
    PageOfIsWellFormed(length, fill);
    AnswerIsSensed(changeable, PageOf(length, fill));
    c := Answer(changeable, PageOf(length, fill));
    hide Sensed, WellFormed, PageOf;
    DecodedStart(PageOf(length, fill));
  }

  lemma DecodedStart(page: seq<byte>)
    requires DecodeFlexible(page).Some?
    ensures DecodeFlexible(page).value.page == page[..FLEX_PAGE_LENGTH]
  {
  }

  /** Answers to the first two commands that make a change due. */
  lemma DueAnswers(length: byte) returns (b: seq<Call>)
    requires 30 <= length < 200
    ensures |b| == 2 && Course(b) && ChangeDue(b) && !b[0].pending && !b[1].pending
    ensures Sensed(b[0]).value.page[1] == length
  {
    hide Sensed, DecodeFlexible, ModeSenseCommand, ChangeAllowed;
    var original := AnswerHolds(false, length, 0);
    var mask := AnswerHolds(true, 30, 255);
    FullMaskAllows(Sensed(original).value, Sensed(mask).value);
    b := [original, mask];
  }

  lemma DueIsSensed(b: seq<Call>)
    requires ChangeDue(b)
    ensures |b| >= 2 && Sensed(b[0]).Some? && Sensed(b[1]).Some?
  {
  }

  /** There is a run, without any interrupt, in which the page's length byte
      lets the parser accept it and the builder refuse it. */
  lemma UnbuildableRun() returns (r: Run)
    ensures RunShape(r) && r.Ran? && !r.late && |r.body| == 2 && !r.body[0].pending && !r.body[1].pending
    ensures ChangeDue(r.body) && Sensed(r.body[0]).value.page[1] == 31 && r.restore == []
  {
    hide ChangeDue, Sensed, SelectCommand, Set1581Geometry, Course, DecodeFlexible, GoodRead, GeometryIs1581;
    var b := DueAnswers(31);
    DueIsSensed(b);
    BuildableExactly(b[0]);
    r := Ran(Acquired(Success, false), b, [], Released(Success, false), false, true);
  }

  /** And there is a run in which the change is accepted and a signal in the gap
      keeps the restore from being sent. */
  lemma LateSignalRun() returns (r: Run)
    ensures RunShape(r) && r.Ran? && r.late && |r.body| == 3 && CommandGood(r.body[2].result)
    ensures IsSelect(CallsOf(r)[3]) && r.restore == []
  {
    hide ChangeAllowed, Sensed, SelectCommand, Set1581Geometry, DecodeFlexible, ModeSenseCommand, GoodRead,
         GeometryIs1581, Course;
    var b := DueAnswers(30);
    DueIsSensed(b);
    BuildableExactly(b[0]);
    var change := SelectCommand(Set1581Geometry(Sensed(b[0]).value)).value;
    var sent := Executed(change, CommandResult(Success, SCSI_GOOD, 40, NO_SENSE), BufferOf(change), true);
    var all := b + [sent];
    assert all[0] == b[0] && all[1] == b[1];
    CourseExtends(b, false, [sent], true);
    CourseSelects(all, 2);
    r := Ran(Acquired(Success, false), all, [], Released(Success, false), true, true);
    CallAt(r, 3);
  }
}
