/** What holds of every run of the 1581 probe, whatever the transport answers
    and whenever an interrupt arrives during one of its calls. */
module ProbeSafety {
  import opened Wrappers
  import opened Bytes
  import opened Ufi
  import opened CbiProtocol
  import opened ProbeCommands
  import opened Probe

  ghost predicate IsSelect(c: Call) { c.Executed? && c.command.cdb[0] == 0x55 }

  /** Where a call lies in its run. */
  lemma CallAt(r: Run, i: nat)
    requires r.Ran? && |r.restore| <= 1 && i < |CallsOf(r)|
    ensures |CallsOf(r)| == |r.body| + |r.restore| + 2
    ensures CallsOf(r)[i] == if i == 0 then r.acquire
                             else if i <= |r.body| then r.body[i - 1]
                             else if i == |CallsOf(r)| - 1 then r.release
                             else r.restore[0]
  {
  }

  lemma RunLength(r: Run)
    requires r.Ran?
    ensures |CallsOf(r)| == |r.body| + |r.restore| + 2
  {
  }

  /** One successful acquire gives exactly one release, and nothing follows
      it; without an acquire nothing else is called. */
  lemma OneAcquireOneRelease(r: Run, i: nat)
    requires RunShape(r) && i < |CallsOf(r)|
    ensures CallsOf(r)[i].Acquired? <==> i == 0
    ensures CallsOf(r)[i].Released? <==> r.Ran? && i == |CallsOf(r)| - 1
    ensures i > 0 ==> CallsOf(r)[0].status == Success
  {
    if r.Ran? {
      CallAt(r, i);
      CallAt(r, 0);
      hide Course, RestoreCommand, CallsOf;
      if 1 <= i <= |r.body| {
        CourseSelects(r.body, i - 1);
      }
    }
  }

  /** MODE SELECT is the third command or none. */
  lemma CourseSelects(b: seq<Call>, i: nat)
    requires Course(b) && i < |b|
    ensures b[i].Executed? && (IsSelect(b[i]) <==> i == 2)
    ensures i == 2 ==> ChangeDue(b) && SelectCommand(Set1581Geometry(Sensed(b[0]).value)) == Some(b[2].command)
    ensures b[i].pending ==> i == |b| - 1
  {
    hide ChangeAllowed, Sensed, SelectCommand, Set1581Geometry;
    assert Follows(b, i);
    FollowsExecutes(b, i);
  }

  lemma FollowsExecutes(b: seq<Call>, i: nat)
    requires i < |b| && Follows(b, i)
    ensures b[i].Executed? && (IsSelect(b[i]) <==> i == 2)
  {
    hide ChangeAllowed, GeometryIs1581, Set1581Geometry, BuildModeSelectPayload, CommandGood;
    if i == 2 {
      assert b[2].command.cdb[0] == MODE_SELECT_10;
    }
  }

  /** If the change reached the transport, so did the restore, once, after
      every other command and right before the release; no other MODE SELECT
      is ever sent. No signal may fall in the gap that `late` stands for. */
  lemma ChangeIsUndone(r: Run, i: nat)
    requires RunShape(r) && r.Ran? && !r.late && i < |CallsOf(r)| && IsSelect(CallsOf(r)[i])
    ensures var t := CallsOf(r);
            && |t| > 3 && Sensed(t[1]).Some?
            && t[|t| - 2].Executed? && Some(t[|t| - 2].command) == SelectCommand(Sensed(t[1]).value)
            && (i == |t| - 2
                || (i == 3 < |t| - 2 && Some(t[3].command) == SelectCommand(Set1581Geometry(Sensed(t[1]).value))))
  {
    hide Course, Sensed, SelectCommand, Set1581Geometry, ChangeAllowed, StopsForCause;
    var t := CallsOf(r);
    CallAt(r, i);
    CallAt(r, 1);
    CallAt(r, |t| - 2);
    hide CallsOf;
    if 1 <= i <= |r.body| {
      CourseSelects(r.body, i - 1);
      BuildsTogether(Sensed(r.body[0]).value);
    }
  }

  /** That premise is exact: a change that reached the transport is undone
      exactly if no signal fell in the gap; otherwise no further MODE SELECT is
      sent and the probe ends inconclusive. */
  lemma ChangeUndoneExactly(r: Run, code: ProbeCode, status: Status)
    requires RunShape(r) && r.Ran? && |r.body| > 2 && Verdict(code, status, r)
    ensures r.restore != [] <==> !r.late
    ensures r.late ==> forall i :: 0 <= i < |CallsOf(r)| && IsSelect(CallsOf(r)[i]) ==> i == 3
    ensures r.late ==> status == Inconclusive && code != CodeOk
    ensures r.late && r.release.status == Success ==> code == CodeTransport
  {
    hide Sensed, SelectCommand, Set1581Geometry, ChangeAllowed, StopsForCause, Judged, CallsOf, IsSelect;
    CourseSelects(r.body, 2);
    BuildsTogether(Sensed(r.body[0]).value);
    RunLength(r);
    forall i | r.late && 0 <= i < |CallsOf(r)| && IsSelect(CallsOf(r)[i]) ensures i == 3 {
      CallAt(r, i);
      if 1 <= i <= |r.body| {
        CourseSelects(r.body, i - 1);
      } else {
        OneAcquireOneRelease(r, i);
        NoSelectAtEnds(r);
      }
    }
  }

  lemma NoSelectAtEnds(r: Run)
    requires RunShape(r) && r.Ran?
    ensures !IsSelect(r.acquire) && !IsSelect(r.release)
  {
    hide Course, StopsForCause, RestoreCommand;
  }

  lemma BuildsTogether(p: FlexiblePage)
    ensures SelectCommand(p).Some? <==> SelectCommand(Set1581Geometry(p)).Some?
  {
    ChangeAndRestoreBuildTogether(p);
  }

  /** Once an interrupt is pending, the only command that is still sent is the
      restoring MODE SELECT. */
  lemma OnlyRestoreAfterInterrupt(r: Run, i: nat, j: nat)
    requires RunShape(r) && r.Ran? && i < j < |CallsOf(r)|
    requires CallsOf(r)[i].pending && CallsOf(r)[j].Executed?
    ensures j == |CallsOf(r)| - 2 && Some(CallsOf(r)[j].command) == RestoreCommand(r.body)
  {
    CallAt(r, i);
    CallAt(r, j);
    hide CallsOf, Course, RestoreCommand;
    if 1 <= i <= |r.body| {
      CourseSelects(r.body, i - 1);
    }
  }

  // ----- a controller that keeps state -----

  /** The command is a MODE SENSE for the Flexible Disk page with this page
      control: 0 for the current values, 1 for the changeable mask. */
  ghost predicate AsksFor(c: Call, control: nat) {
    && c.Executed? && c.command.cdb[0] == 0x5a
    && c.command.cdb[2] % 0x40 == 0x05 && c.command.cdb[2] / 0x40 == control
  }

  /** A controller whose Flexible Disk page changes only by MODE SELECT. An
      accepted MODE SELECT installs the page sent, up to the flag bits of its
      first byte; a failed one may leave anything. MODE SENSE reports the page
      or the mask, whichever the block asks for. */
  ghost predicate Controller(t: seq<Call>, pages: seq<PageBytes>, mask: PageBytes) {
    && |pages| == |t| + 1
    && forall i :: 0 <= i < |t| ==> ControllerStep(t[i], pages[i], pages[i + 1], mask)
  }

  ghost predicate ControllerStep(c: Call, before: PageBytes, after: PageBytes, mask: PageBytes) {
    if IsSelect(c) then
      c.result.transport == Success && c.result.scsi == 0 ==>
        c.command.data.Bytes? && |c.command.data.bytes| == 40 && WithoutFlags(after) == c.command.data.bytes[8..]
    else
      && after == before
      && (AsksFor(c, 0) && Sensed(c).Some? ==> Sensed(c).value.page == before)
      && (AsksFor(c, 1) && Sensed(c).Some? ==> Sensed(c).value.page == mask)
  }

  lemma {:induction false} UnchangedWithoutSelect(t: seq<Call>, pages: seq<PageBytes>, mask: PageBytes, n: nat)
    requires Controller(t, pages, mask) && n <= |t|
    requires forall i :: 0 <= i < n ==> !IsSelect(t[i])
    ensures pages[n] == pages[0]
    decreases n
  {
    if n > 0 {
      UnchangedWithoutSelect(t, pages, mask, n - 1);
      assert ControllerStep(t[n - 1], pages[n - 1], pages[n], mask);
    }
  }

  /** When the probe reports the controller restored, the controller's page is
      the one it started with, up to the flag bits of its first byte. What was
      saved is that page, and what decided on the change is its mask. */
  lemma RestoredMeansOriginal(r: Run, pages: seq<PageBytes>, mask: PageBytes)
    requires RunShape(r) && r.Ran? && Restored(r) && Controller(CallsOf(r), pages, mask)
    ensures SameUpToFlags(pages[|CallsOf(r)|], pages[0])
    ensures Sensed(r.body[0]).value.page == pages[0]
    ensures ChangeDue(r.body) ==> Sensed(r.body[1]).value.page == mask
  {
    hide CallsOf, Sensed, SelectCommand, ChangeAllowed, ControllerStep, Course, StopsForCause;
    SavedIsOriginal(r, pages, mask);
    if ChangeDue(r.body) {
      PutBack(r, pages, mask);
    } else {
      NeverChanged(r, pages, mask);
    }
  }

  /** Two pages agree but for the two flag bits of their first byte. */
  ghost predicate SameUpToFlags(p: PageBytes, q: PageBytes) { p[1..] == q[1..] && p[0] % 0x40 == q[0] % 0x40 }

  lemma PutBack(r: Run, pages: seq<PageBytes>, mask: PageBytes)
    requires RunShape(r) && r.Ran? && Restored(r) && ChangeDue(r.body) && Controller(CallsOf(r), pages, mask)
    requires |pages| == |CallsOf(r)| + 1 && Sensed(r.body[0]).value.page == pages[0]
    ensures SameUpToFlags(pages[|CallsOf(r)|], pages[0])
  {
    hide CallsOf, Sensed, SelectCommand, ChangeAllowed, Controller, ControllerStep, Course, StopsForCause, WithoutFlags;
    var n := |CallsOf(r)|;
    LastCommandStays(r, pages, mask);
    InstalledPage(r.restore[0], Sensed(r.body[0]).value, pages[n - 2], pages[n - 1], mask);
    SamePageWithoutFlags(pages[n], pages[0]);
  }

  lemma NeverChanged(r: Run, pages: seq<PageBytes>, mask: PageBytes)
    requires RunShape(r) && r.Ran? && !ChangeDue(r.body) && Controller(CallsOf(r), pages, mask)
    ensures pages[|CallsOf(r)|] == pages[0]
  {
    var t := CallsOf(r);
    RunLength(r);
    hide CallsOf, Sensed, SelectCommand, ChangeAllowed, Controller, Course, StopsForCause;
    forall i | 0 <= i < |t| ensures !IsSelect(t[i]) {
      CallAt(r, i);
      if 1 <= i <= |r.body| {
        CourseSelects(r.body, i - 1);
      }
    }
    UnchangedWithoutSelect(t, pages, mask, |t|);
  }

  lemma SavedIsOriginal(r: Run, pages: seq<PageBytes>, mask: PageBytes)
    requires RunShape(r) && r.Ran? && r.body != [] && Sensed(r.body[0]).Some? && Controller(CallsOf(r), pages, mask)
    ensures Sensed(r.body[0]).value.page == pages[0]
    ensures |r.body| > 1 && Sensed(r.body[1]).Some? ==> Sensed(r.body[1]).value.page == mask
  {
    var t := CallsOf(r);
    RunLength(r);
    CallAt(r, 0);
    CallAt(r, 1);
    CallAt(r, 2);
    ModeSenseAsks(false);
    ModeSenseAsks(true);
    hide CallsOf, Sensed, WithoutFlags, ModeSenseCommand;
    assert Follows(r.body, 0);
    assert ControllerStep(t[0], pages[0], pages[1], mask) && ControllerStep(t[1], pages[1], pages[2], mask);
    if |r.body| > 1 {
      assert Follows(r.body, 1);
      assert ControllerStep(t[2], pages[2], pages[3], mask);
    }
  }

  lemma SamePageWithoutFlags(p: PageBytes, q: PageBytes)
    requires WithoutFlags(p) == WithoutFlags(q)
    ensures SameUpToFlags(p, q)
  {
    assert WithoutFlags(p)[1..] == p[1..] && WithoutFlags(q)[1..] == q[1..];
    assert WithoutFlags(p)[0] == WithoutFlags(q)[0];
  }

  /** The last command but the release is c, and the page it leaves stays. */
  ghost predicate LeavesPage(t: seq<Call>, pages: seq<PageBytes>, mask: PageBytes, c: Call) {
    && |t| >= 4 && |pages| == |t| + 1
    && ControllerStep(c, pages[|t| - 2], pages[|t| - 1], mask) && pages[|t|] == pages[|t| - 1]
  }

  lemma LastCommandStays(r: Run, pages: seq<PageBytes>, mask: PageBytes)
    requires RunShape(r) && r.Ran? && Restored(r) && ChangeDue(r.body) && Controller(CallsOf(r), pages, mask)
    ensures |r.restore| == 1 && LeavesPage(CallsOf(r), pages, mask, r.restore[0])
    ensures Some(r.restore[0].command) == SelectCommand(Sensed(r.body[0]).value) && CommandGood(r.restore[0].result)
  {
    var t := CallsOf(r);
    RunLength(r);
    CallAt(r, |t| - 2);
    CallAt(r, |t| - 1);
    hide CallsOf, Sensed, SelectCommand, ChangeAllowed, WithoutFlags, Course, StopsForCause;
    assert ControllerStep(t[|t| - 2], pages[|t| - 2], pages[|t| - 1], mask);
    assert ControllerStep(t[|t| - 1], pages[|t| - 1], pages[|t|], mask);
  }

  lemma InstalledPage(c: Call, p: FlexiblePage, before: PageBytes, after: PageBytes, mask: PageBytes)
    requires c.Executed? && Some(c.command) == SelectCommand(p) && CommandGood(c.result)
    requires ControllerStep(c, before, after, mask)
    ensures WithoutFlags(after) == WithoutFlags(p.page)
  {
    ChangeAndRestoreBuildTogether(p);
    hide WithoutFlags, Set1581Geometry, BuildModeSelectPayload;
    assert IsSelect(c);
  }

  /** The change that reaches such a controller touches only bits its mask
      grants. */
  lemma MaskIsRespected(r: Run, pages: seq<PageBytes>, mask: PageBytes)
    requires RunShape(r) && r.Ran? && |r.body| > 2 && Controller(CallsOf(r), pages, mask)
    ensures ChangeDue(r.body)
    ensures var requested := Set1581Geometry(Sensed(r.body[0]).value).page;
            && SelectCommand(Set1581Geometry(Sensed(r.body[0]).value)) == Some(r.body[2].command)
            && forall i: nat :: i < FLEX_PAGE_LENGTH ==> Covers(pages[0][i], requested[i], mask[i])
  {
    hide CallsOf, Sensed, SelectCommand, Set1581Geometry, Controller, StopsForCause, Covers, ByteChangeAllowed;
    CourseSelects(r.body, 2);
    SavedIsOriginal(r, pages, mask);
    AllowedChangeIsContained(Sensed(r.body[0]).value, Sensed(r.body[1]).value);
  }

  /** The change is sent exactly if it is due, the saved page's length byte is
      30, and no interrupt came with the mask. */
  lemma ChangeSentExactly(r: Run)
    requires RunShape(r) && r.Ran?
    ensures |r.body| > 2 <==>
              ChangeDue(r.body) && Sensed(r.body[0]).value.page[1] == 30 && !r.body[1].pending
  {
    hide Sensed, ChangeAllowed, Set1581Geometry, SelectCommand, RestoreCommand;
    if |r.body| >= 2 {
      assert Follows(r.body, 1);
      BuildableExactly(r.body[0]);
    }
    if |r.body| > 2 {
      CourseSelects(r.body, 2);
      CourseSelects(r.body, 1);
    }
  }

  /** The restore is sent exactly if the change is due, the saved page's length
      byte is 30, and no signal fell in the gap. */
  lemma RestoreSentExactly(r: Run)
    requires RunShape(r) && r.Ran?
    ensures r.restore != [] <==> ChangeDue(r.body) && Sensed(r.body[0]).value.page[1] == 30 && !r.late
  {
    hide Sensed, ChangeAllowed, Set1581Geometry, SelectCommand, Course, StopsForCause;
    if ChangeDue(r.body) {
      BuildableExactly(r.body[0]);
    }
  }

  lemma BuildableExactly(c: Call)
    requires Sensed(c).Some?
    ensures SelectCommand(Sensed(c).value).Some? <==> Sensed(c).value.page[1] == 30
    ensures SelectCommand(Set1581Geometry(Sensed(c).value)).Some? <==> Sensed(c).value.page[1] == 30
  {
    SensedIsFlexible(c);
    BuildsTogether(Sensed(c).value);
    hide Sensed, Set1581Geometry;
  }

  /** With a length byte other than 30 the probe sends neither the change nor
      the restore, although it wants the change, and ends inconclusive. */
  lemma UnbuildablePage(r: Run, code: ProbeCode, status: Status)
    requires RunShape(r) && r.Ran? && ChangeDue(r.body) && Verdict(code, status, r)
    requires Sensed(r.body[0]).value.page[1] != 30
    ensures |r.body| == 2 && r.restore == [] && status == Inconclusive
  {
    ChangeSentExactly(r);
    RestoreSentExactly(r);
    hide Sensed, ChangeAllowed, Course, StopsForCause, RestoreCommand, Judged;
  }

  lemma SensedIsFlexible(c: Call)
    requires Sensed(c).Some?
    ensures var p := Sensed(c).value;
            PageType(p.page[0]) == FLEXIBLE_DISK_PAGE && !Subpage(p.page[0]) && p.page[1] >= 30
  {
  }

  // ----- the verdict -----

  lemma {:induction false} CoveredGrows(i: nat, j: nat, total: nat, chunk: nat)
    requires i <= j
    ensures Covered(i, total, chunk) <= Covered(j, total, chunk)
    decreases j
  {
    if i < j {
      CoveredGrows(i, j - 1, total, chunk);
    }
  }

  ghost predicate InChunk(k: nat, lba: nat, total: nat, chunk: nat) {
    Covered(k, total, chunk) <= lba < Covered(k + 1, total, chunk)
  }

  lemma InOneChunk(j: nat, k: nat, lba: nat, total: nat, chunk: nat)
    requires InChunk(j, lba, total, chunk) && InChunk(k, lba, total, chunk)
    ensures j == k
  {
    if j < k {
      CoveredGrows(j + 1, k, total, chunk);
    } else if k < j {
      CoveredGrows(k + 1, j, total, chunk);
    }
  }

  /** Exactly one of the reads covers a given block. */
  lemma {:induction false} EachBlockOnce(total: nat, chunk: nat, n: nat, lba: nat) returns (k: nat)
    requires lba < Covered(n, total, chunk)
    ensures k < n && InChunk(k, lba, total, chunk)
    ensures forall j: nat :: InChunk(j, lba, total, chunk) ==> j == k
    decreases n
  {
    if lba < Covered(n - 1, total, chunk) {
      k := EachBlockOnce(total, chunk, n - 1, lba);
    } else {
      k := n - 1;
    }
    forall j: nat | InChunk(j, lba, total, chunk) ensures j == k {
      InOneChunk(j, k, lba, total, chunk);
    }
  }

  /** The k-th block of some data, if it is all there. */
  ghost function Block(data: seq<byte>, k: int): seq<byte> {
    if 0 <= k && (k + 1) * BLOCK_SIZE <= |data| then data[k * BLOCK_SIZE..(k + 1) * BLOCK_SIZE] else []
  }

  lemma BlockOfConcat(a: seq<byte>, b: seq<byte>, n: nat, k: int)
    requires |a| == n * BLOCK_SIZE
    ensures k < n ==> Block(a + b, k) == Block(a, k)
    ensures k >= n ==> Block(a + b, k) == Block(b, k - n)
  {
  }

  lemma BlockPresent(data: seq<byte>, n: nat, k: int)
    requires |data| == n * BLOCK_SIZE && 0 <= k < n
    ensures |Block(data, k)| == BLOCK_SIZE
  {
  }

  lemma DeliveredStep(calls: seq<Call>, total: nat, chunk: nat)
    requires calls != [] && ReadsFromStart(calls, total, chunk)
    ensures var n := |calls|;
            && ReadsFromStart(calls[..n - 1], total, chunk) && calls[n - 1].Executed?
            && Delivered(calls) == Delivered(calls[..n - 1]) + calls[n - 1].data
            && |calls[n - 1].data| == (Covered(n, total, chunk) - Covered(n - 1, total, chunk)) * BLOCK_SIZE
  {
    assert ChunkRead(calls[|calls| - 1], |calls| - 1, total, chunk);
  }

  lemma DeliveredBlock(calls: seq<Call>, total: nat, chunk: nat, lba: int)
    requires calls != [] && ReadsFromStart(calls, total, chunk)
    ensures var n := |calls|;
            && calls[n - 1].Executed? && ReadsFromStart(calls[..n - 1], total, chunk)
            && |calls[n - 1].data| == (Covered(n, total, chunk) - Covered(n - 1, total, chunk)) * BLOCK_SIZE
            && Block(Delivered(calls), lba)
               == if lba < Covered(n - 1, total, chunk) then Block(Delivered(calls[..n - 1]), lba)
                  else Block(calls[n - 1].data, lba - Covered(n - 1, total, chunk))
  {
    hide ReadsFromStart, Delivered, Covered, Block;
    var n := |calls|;
    DeliveredStep(calls, total, chunk);
    DeliveredLength(calls[..n - 1], total, chunk);
    BlockOfConcat(Delivered(calls[..n - 1]), calls[n - 1].data, Covered(n - 1, total, chunk), lba);
  }

  /** What was delivered for a block is the matching block of what the read
      that covers it returned. */
  lemma {:induction false} BlockIsFromItsRead(calls: seq<Call>, total: nat, chunk: nat, k: nat, lba: nat)
    requires ReadsFromStart(calls, total, chunk) && k < |calls| && InChunk(k, lba, total, chunk)
    ensures calls[k].Executed?
    ensures Block(Delivered(calls), lba) == Block(calls[k].data, lba - Covered(k, total, chunk)) != []
    decreases |calls|
  {
    hide ReadsFromStart, Delivered, Covered, Block;
    var n := |calls|;
    DeliveredBlock(calls, total, chunk, lba);
    if k < n - 1 {
      CoveredGrows(k + 1, n - 1, total, chunk);
      BlockIsFromItsRead(calls[..n - 1], total, chunk, k, lba);
    } else {
      BlockPresent(calls[k].data, Covered(n, total, chunk) - Covered(k, total, chunk), lba - Covered(k, total, chunk));
    }
  }

  lemma {:induction false} DeliveredLength(calls: seq<Call>, total: nat, chunk: nat)
    requires ReadsFromStart(calls, total, chunk)
    ensures |Delivered(calls)| == Covered(|calls|, total, chunk) * BLOCK_SIZE
    decreases |calls|
  {
    if calls != [] {
      var n := |calls|;
      assert ChunkRead(calls[n - 1], n - 1, total, chunk);
      DeliveredLength(calls[..n - 1], total, chunk);
    }
  }

  /** An OK result rests on a complete run: the readback is the 1581 geometry,
      both boundary blocks were read, two complete passes delivered the same
      bytes, the controller was restored and the transport released. */
  lemma OkIsSound(r: Run, code: ProbeCode, status: Status)
    requires RunShape(r) && r.Ran? && Verdict(code, status, r) && (code == CodeOk || status == Supported)
    ensures code == CodeOk && status == Supported
    ensures var b := r.body;
            && |b| == 326
            && Some(b[2].command) == SelectCommand(Set1581Geometry(Sensed(b[0]).value)) && CommandGood(b[2].result)
            && Sensed(b[3]).Some? && GeometryIs1581(Sensed(b[3]).value)
            && GoodRead(b[4], 9, 1) && GoodRead(b[5], 1599, 1)
            && ReadsAll(b[6..166], 1600, 10) && ReadsAll(b[166..], 1600, 10)
            && Delivered(b[6..166]) == Delivered(b[166..]) && |Delivered(b[6..166])| == 819200
    ensures forall i :: 0 <= i < 326 ==> WentWell(r.body[i])
    ensures Restored(r) && |r.restore| == 1 && WentWell(r.restore[0])
    ensures ChangeDue(r.body) && r.release.status == Success
  {
    hide Follows, ChangeAllowed, Sensed, SelectCommand, GeometryIs1581, GoodRead, Set1581Geometry, ChangeDue, ReadsAll,
         Delivered;
    assert ShowsSupported(r.body);
    FollowsUpTo(r.body);
    PassIsImage(r.body[6..166]);
    AllWentWell(r.body);
  }

  ghost predicate WentWell(c: Call) { c.Executed? && c.result.transport == Success && c.result.scsi == 0 }

  lemma AllWentWell(b: seq<Call>)
    requires Course(b) && ReadTwiceOver(b)
    ensures forall i :: 0 <= i < 326 ==> WentWell(b[i])
  {
    hide ReadTwiceOver, Follows;
    TwiceIsLong(b);
    forall i | 0 <= i < 6 ensures WentWell(b[i]) {
      assert Follows(b, i) && Follows(b, i + 1);
      FirstWentWell(b, i);
    }
    PassWentWell(b[6..166]);
    PassWentWell(b[166..]);
    forall i | 6 <= i < 326 ensures WentWell(b[i]) {
      assert if i < 166 then b[i] == b[6..166][i - 6] else b[i] == b[166..][i - 166];
    }
  }

  lemma TwiceIsLong(b: seq<Call>)
    requires ReadTwiceOver(b)
    ensures |b| == 326
    ensures ReadsAll(b[6..166], IMAGE_BLOCKS, CHUNK_BLOCKS) && ReadsAll(b[166..], IMAGE_BLOCKS, CHUNK_BLOCKS)
  {
  }

  lemma FirstWentWell(b: seq<Call>, i: nat)
    requires i < 6 && i + 1 < |b| && Follows(b, i) && Follows(b, i + 1)
    ensures WentWell(b[i])
  {
    hide ChangeAllowed, SelectCommand, GeometryIs1581, Set1581Geometry;
  }

  lemma PassWentWell(pass: seq<Call>)
    requires ReadsFromStart(pass, IMAGE_BLOCKS, CHUNK_BLOCKS)
    ensures forall i :: 0 <= i < |pass| ==> WentWell(pass[i])
  {
    hide Covered;
    forall i | 0 <= i < |pass| ensures WentWell(pass[i]) {
      assert ChunkRead(pass[i], i, IMAGE_BLOCKS, CHUNK_BLOCKS);
    }
  }

  lemma FollowsUpTo(b: seq<Call>)
    requires Course(b) && |b| > 6
    ensures ChangeDue(b) && b[2].Executed? && CommandGood(b[2].result)
    ensures Some(b[2].command) == SelectCommand(Set1581Geometry(Sensed(b[0]).value))
    ensures Sensed(b[3]).Some? && GeometryIs1581(Sensed(b[3]).value)
    ensures GoodRead(b[4], 9, 1) && GoodRead(b[5], 1599, 1)
  {
    hide ChangeAllowed, Sensed, SelectCommand, GeometryIs1581, GoodRead, Set1581Geometry;
    assert Follows(b, 2) && Follows(b, 3) && Follows(b, 4) && Follows(b, 5) && Follows(b, 6);
  }

  lemma PassIsImage(pass: seq<Call>)
    requires ReadsAll(pass, IMAGE_BLOCKS, CHUNK_BLOCKS)
    ensures |Delivered(pass)| == IMAGE_SIZE
  {
    DeliveredLength(pass, IMAGE_BLOCKS, CHUNK_BLOCKS);
  }

  /** Code and status never disagree, and a failed restore or release always
      ends inconclusive. */
  lemma CodeMatchesStatus(r: Run, code: ProbeCode, status: Status)
    requires RunShape(r) && r.Ran? && Verdict(code, status, r)
    ensures code == CodeOk <==> status == Supported
    ensures code == CodeUnsupported <==> status == Unsupported
    ensures status == Unsupported ==> ShowsUnsupported(r.body)
    ensures r.release.status != Success || (Sensed(CallsOf(r)[1]).Some? && !Restored(r) && r.body != []) ==>
              status == Inconclusive && code != CodeOk
  {
    hide Sensed;
    RunLength(r);
    CallAt(r, 1);
    hide ShowsUnsupported, ShowsSupported, ShowsMismatch, ChangeDue, CallsOf;
  }
}
