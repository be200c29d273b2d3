# Verified model of the 1581 USB floppy diagnostic

This project models the platform-independent core of the diagnostic and the
state its macOS USB adapter keeps, and proves properties of every run of them.
`dafny verify dfyconfig.toml` checks the whole project.

| file | models |
|---|---|
| `Bytes.dfy` | big-endian reads and writes, bit masks (`src/bytes.c`) |
| `Memory.dfy` | an allocator that may refuse any request |
| `Ufi.dfy` | command blocks, the allowlist, sense data, the Flexible Disk page, the change check, MODE SELECT payloads (`src/ufi.c`) |
| `ModePages.dfy` | the MODE SENSE page walk and the format-capacity list (`src/ufi.c`) |
| `CbiProtocol.dfy` | the runs of the CBI engine as a grammar of steps, and what holds of every run (`src/cbi.c`) |
| `CbiEngine.dfy` | the engine itself, phase by phase, against an adapter that may answer anything; its wire trace is always that of a run |
| `MacAdapter.dfy` | the adapter's flags, method by method, over a USB stack that may answer anything (`src/usb_cbi_macos.c`) |
| `WireSafety.dfy` | the engine's safety as a statement about the events on the wire alone |
| `Composition.dfy` | engine runs paired with adapter states |
| `StatusPath.dfy` | how a USB return becomes a report's code, through all three layers |
| `InterruptLifetime.dfy` | the two-owner interrupt request, all interleavings of thread and callback |
| `ProbeCommands.dfy`, `Probe.dfy`, `ProbeSafety.dfy`, `ProbeWitnesses.dfy` | the 1581 probe over an arbitrary transport, what holds of every run, and runs that show where a promise ends (`src/probe.c`) |
| `Inspect.dfy` | the read-only inspection (`src/probe.c`) |
| `Layout.dfy` | logical sectors of an image (`src/layout.c`) |
| `JsonTree.dfy`, `JsonCalls.dfy`, `JsonParser.dfy`, `JsonWriter.dfy` | the streaming JSON writer, the meaning of its call sequences, and a parser that undoes it (`src/json.c`; RFC 8259) |

How the parts fit:

- **Engine.** `CbiEngine.Engine` keeps a ghost history of steps. Its invariant
  says that the wire trace is the flattening of that history, that the history
  is a run in the sense of `CbiProtocol.EngineRun`, and that
  `recovery_required` is set exactly when the history owes a Command Block
  Reset (section 2.2 of the USB Mass Storage CBI Transport specification,
  revision 1.1). Safety is then proved about all runs.
- **Adapter.** `MacAdapter.MacStep` is the relation between flags, an
  operation's outcome and the flags afterwards; every method of
  `MacAdapter.MacCbi` is proved to keep to it, and to derive status and flags
  from the answers of a logged USB stack. `Composition` pairs the relation
  with engine runs.
- **Probe.** `Probe.Test1581` returns, as a ghost value, the run it made: the
  acquire, the commands, the restore if any, the release. Its contract says
  what shape the run has and that the report is determined by it. Signals in
  the cleanup and refused allocations come from environment objects that log
  them, and the run agrees with their logs.
- **Writer.** `JsonWriter.Writer` keeps a ghost list of the calls made on it.
  Its invariant ties buffer, container stack, counts and pending key to the
  document those calls describe, until the allocator refuses, the text outgrows
  the largest buffer or a call does not fit.

Results about where the code and its documentation part ways:

- After a close that fails other than with "no device", the engine stays open
  while the adapter is closed (`src/cbi.c:430`, `src/usb_cbi_macos.c:532`). An
  acquire then reports success without opening. `Composition.FlagsAgree` gives
  the exact condition, `Composition.AcquireAfterFailedClose` a run, and
  `Composition.StaleEndsWithRelease` what ends it.
- A completion interrupt that fails with a stall, a permission error or "no
  device" puts the adapter out of step without the engine requiring recovery
  (`Composition.AdapterCanDoubtAlone` is such a run). These are the only cases:
  `Composition.DoubtIsOwedUnlessUnnoticed` gives the exact condition for one
  command and `Composition.DoubtsAloneExactly` for whole runs. The next command
  is then turned away and the one after it recovers
  (`Composition.MissCostsOneCommand`).
- The mode parser accepts a Flexible Disk page whose length byte is more than
  30, the MODE SELECT builder does not. The probe then sends neither the change
  nor the restore and ends inconclusive (`ProbeSafety.UnbuildablePage`;
  `ProbeWitnesses.UnbuildableRun` is such a run, and
  `ProbeSafety.ChangeSentExactly` and `ProbeSafety.RestoreSentExactly` say
  exactly when each is sent).
- A comment in the source says that an interrupt must never suppress the
  restoration (`src/probe.c:502`). One that arrives between the clearing of the
  flag (`src/probe.c:503`) and the check in front of the command
  (`src/probe.c:62`) does. `ProbeWitnesses.LateSignalRun` is such a run, and
  `ProbeSafety.ChangeUndoneExactly` proves that the change is undone exactly if
  no signal falls into that gap; otherwise the run ends inconclusive. A signal
  at any other moment has the effect of one during a neighbouring call.
- `docs/architecture.md` says that restoration uses the complete saved page.
  The builder clears the top bit of its first byte (`src/ufi.c:401`; it refuses
  a page with the other flag bit). `Ufi.WholePageExactly` proves that the
  payload holds the whole page exactly if that bit is clear, and
  `Ufi.FlaggedPage` is a page with it set. The statements about the restored
  page are therefore up to that bit.
- An exchange that fails with a stall, a permission error or "no device" is not
  taken for a loss of phase (`CbiProtocol.FailureLosesExactly` is the exact
  condition), although it may end before its completion is read:
  `CbiProtocol.UnreadCompletion` is a run in which the clearing of a stall
  stalls, the completion stays unread and no reset is owed.

## Model

| member | source | states |
|---|---|---|
| Bytes.ReadBe16 | src/bytes.c:8-16 | a bounds-checked read succeeds exactly when both bytes are there, and its value is the one whose encoding they are |
| Bytes.ReadBe24 | src/bytes.c:18-27 | the same for three bytes |
| Bytes.ReadBe32 | src/bytes.c:29-39 | the same for four bytes |
| Bytes.MaskCoversChange | src/ufi.c:366-381 | the bit-mask test on one byte passes exactly when every differing bit is set in the mask |
| Ufi.ValidateContains | src/ufi.c:425-502 | an accepted command has an allowlisted opcode and length; data goes out only with MODE SELECT and only as an empty header and one page 0x05 of length 30 |
| Ufi.AcceptedFields | src/ufi.c:425-502 | a READ (10) is accepted exactly if its buffer is the encoded number of 512-byte blocks; an accepted MODE SELECT encodes its 40 bytes, an accepted REQUEST SENSE its buffer's length |
| Ufi.CommandBytes | src/ufi.c:57-120 | the bytes of every command block the program builds |
| Ufi.ModeSenseAsks | src/ufi.c:95-102 | page code 0x05 with page control 1 for the mask and 0 for the current values |
| Ufi.WorkflowCommandsValidate | src/probe.c:96-109 | every command the workflows build passes the validator |
| Ufi.ParseSense | src/ufi.c:150-174 | usable sense data is marked valid, with a four-bit key and a seven-bit response code |
| Ufi.ParseReadCapacity | src/ufi.c:176-193 | accepted exactly if eight bytes are there and the last block is not the all-ones sentinel; the result encodes back to those bytes |
| Ufi.SenseInvertsPrint | src/ufi.c:150-174 | parsing returns the key, ASC and ASCQ of sense data printed in the fixed or the descriptor format, whatever the other bytes are |
| Ufi.SenseIsPrinted | src/ufi.c:150-174 | and whatever it accepts is such a printing |
| Ufi.DecodeFlexible | src/ufi.c:231-255 | a decoded page is the first 32 bytes, and its fields agree with them |
| Ufi.Set1581Geometry | src/ufi.c:329-343 | only bytes 2 to 9 and 28 to 29 can change, and the fields still agree with the bytes |
| Ufi.RequestedBytes | src/ufi.c:329-343 | the ten bytes it sets: 250 kbit/s, 2 heads, 10 sectors of 512 bytes, 80 cylinders, 300 rpm |
| Ufi.GeometryIs1581MeansBytes | src/ufi.c:345-350 | the readback check on fields holds exactly when every geometry byte is the one the change asks for |
| Ufi.ApplyChangeability | src/ufi.c:309-327 | a field is flagged exactly when the mask has a bit in one of its bytes; nothing else changes |
| Ufi.FieldsDividePage | src/ufi.c:14-35 | each of bytes 2 to 29 is in exactly one named field |
| Ufi.PageByte | src/ufi.c:231-240 | page code and subpage bit of a page's first byte |
| Ufi.GeometryChangesAllowed | src/ufi.c:352-383 | the loop over fields accepts exactly when every geometry byte passes the mask test |
| Ufi.AllowedChangeIsContained | src/ufi.c:352-383 | the check passes exactly when every differing bit anywhere in the page is granted by the mask; each field that then differs is a geometry field flagged changeable |
| Ufi.BuildModeSelectPayload | src/ufi.c:385-404 | a payload, when there is one, is the contained 40-byte form |
| Ufi.ChangeAndRestoreBuildTogether | src/ufi.c:385-404 | the change and the restore can be built together or not at all, and each installs its page up to the flag bits of byte 0 |
| Ufi.WholePageExactly | src/ufi.c:394-401 | a payload holds the saved page whole exactly if the page's top bit is clear; with the other flag bit there is none |
| Ufi.FlaggedPage | src/ufi.c:401 | a page whose payload differs from it |
| ModePages.ParseModeParameters | src/ufi.c:257-307 | the page-walking loop computes the parse that the lemmas below characterise |
| ModePages.ParseInvertsPrint | src/ufi.c:231-307 | on the printing of any well-formed response, followed by any bytes, it returns the Flexible Disk page and its offset |
| ModePages.ParseAcceptsExactlyResponses | src/ufi.c:231-307 | it succeeds exactly on buffers that begin with a well-formed response, and bytes past the declared length change nothing |
| ModePages.ParseFormatCapacities | src/ufi.c:195-229 | it succeeds exactly when the list is complete and a multiple of eight; the result is the list the next lemma inverts, of byte 3 over 8 entries; the two inner rejections are unreachable |
| ModePages.FormatCapacitiesInvertPrint | tests/fake_transport.c:74-82 | parsing the printing of any list of at most 31 descriptors, under a header with its length and followed by any bytes, returns the list |
| CbiProtocol.SuccessCompletes | src/cbi.c:138-209 | a successful exchange whose command did not stall ends in a two-byte completion, with the data phase within its buffer |
| CbiProtocol.LosingFails | src/cbi.c:138-209 | an exchange with a phase loss in it never reports success |
| CbiProtocol.FailureLosesExactly | src/cbi.c:83-116 | a failed exchange loses the phase exactly unless its last operation failed with a stall, a permission error or "no device" |
| CbiProtocol.UnreadCompletion | src/cbi.c:172-180 | a run in which an accepted command's completion is never read and no reset is owed |
| CbiProtocol.NoCommandBeforeRecovery | src/cbi.c:478-586 | in every run, between a loss of phase and a later ordinary command lies a complete reset or a fresh open |
| CbiProtocol.NoCommandAfterWireLoss | src/cbi.c:83-116 | the same for a loss at any event on the wire, also during an attempt to recover |
| WireSafety.NoBlockBeforeRecovery | src/cbi.c:478-586 | the same on the trace of events: between an operation that loses the phase and a later block other than the reset block lie the six events of a complete reset or a successful open |
| CbiProtocol.DebtHasCause | src/cbi.c:83-116 | a reset is owed only after a loss that nothing has paid for since |
| CbiProtocol.RecoveredIsCompleteReset | src/cbi.c:243-346 | what counts as recovery is exactly prepare, reset block, completion 00 00, both pipe clears and finish, all successful |
| CbiProtocol.RunPermitted | src/cbi.c:478-538 | in every run each command block is the reset block or an allowlisted command zero-padded to 12 bytes, and each bulk-out directly follows an accepted MODE SELECT with the contained payload |
| CbiProtocol.ResetIsNotACommand | src/cbi.c:247-250 | no allowlisted command is the reset block |
| CbiProtocol.SuccessLeavesNoDebt | src/cbi.c:529-586 | a command that returns transport success leaves no reset owed |
| CbiProtocol.SenseDecides | src/cbi.c:545-585 | with usable sense data that agrees with the completion, a command succeeds exactly if a phase stalled or all data that data-out and READ (10) must move did; it is then CHECK CONDITION exactly if a phase stalled or the key is above 1, and otherwise GOOD; a reset is owed exactly if it does not succeed |
| CbiProtocol.NoSuccessWithoutSense | src/cbi.c:548-563 | without such sense data there is no success |
| CbiProtocol.OutcomeExactly | src/cbi.c:529-586 | the same for the command in its run: success, GOOD and the debt, each exactly |
| CbiProtocol.GoodCommandIsSound | src/cbi.c:529-586 | if a command other than REQUEST SENSE is also GOOD, no phase stalled, the completion is the sense's ASC and ASCQ, the key is at most 1, and the count is within the buffer, exact for data-out and READ (10) |
| CbiProtocol.CallerSenseIsSound | src/cbi.c:439-476 | a caller's own REQUEST SENSE that succeeds is always GOOD: its phases went through and its sense is what the received bytes say; completion bytes and sense key do not decide |
| CbiProtocol.FailedRecoveryIsRetryable | src/cbi.c:521-527 | a failed recovery sends nothing of the caller's command, leaves the debt, and the next accepted command recovers first |
| CbiEngine.Engine.RunExchange | src/cbi.c:138-209 | the events of one exchange, its status, record and data, and recovery required exactly if a phase was lost |
| CbiEngine.Engine.Recover | src/cbi.c:265-345 | one recovery step of the grammar; Ok exactly if it completed, else the first failure |
| CbiEngine.Engine.RecoverIfRequired | src/cbi.c:243-346 | nothing when no reset is owed; otherwise one attempt, and the flag is clear exactly when it succeeded |
| CbiEngine.Engine.FetchSense | src/cbi.c:348-394 | the internal REQUEST SENSE, usable exactly when complete, unstalled and parseable; recovery required otherwise, and the record left is the parser's |
| CbiEngine.Engine.Acquire | src/cbi.c:396-416 | success without an event when open; otherwise one open, which clears the debt when it succeeds |
| CbiEngine.Engine.Release | src/cbi.c:418-437 | one close when open; the engine stays open unless it succeeds or the device is gone |
| CbiEngine.Engine.ExecuteRequestSense | src/cbi.c:439-476 | the caller's own REQUEST SENSE: its step, its result and its buffer |
| CbiEngine.Engine.JudgeSense | src/cbi.c:545-585 | the result of an ordinary command from its exchange and its sense data, and the disagreements that require recovery |
| CbiEngine.Engine.Execute | src/cbi.c:478-586 | the steps it takes are those the grammar allows in this state, the result and the caller's buffer are the ones they determine, and the engine's invariant is kept |
| CbiEngine.Engine.Destroy | src/cbi.c:588-605 | closes if open, and is closed afterwards |
| MacAdapter.ReturnsThatLose | src/usb_cbi_macos.c:83-105 | which return each status stands for, and which returns make the engine owe a reset |
| MacAdapter.MacCbi.OpenSeize | src/usb_cbi_macos.c:450-516 | succeeds exactly if seizure, endpoints and event source are as they should be; opening clears doubt and arming, any failure leaves it closed and is reported by its cause |
| MacAdapter.MacCbi.CloseInterface | src/usb_cbi_macos.c:518-551 | always drained, closed, disarmed and without a request afterwards; the first of the two failures is reported |
| MacAdapter.MacCbi.SendAdsc | src/usb_cbi_macos.c:553-593 | a block is sent exactly when no request is pending and it is the armed reset, or an ordinary command with neither doubt nor arming; a timeout or a short transfer puts the adapter in doubt, nothing else does |
| MacAdapter.MacCbi.ReadBulk | src/usb_cbi_macos.c:595-628 | status and count are the transfer's; a timeout puts the adapter in doubt and clears the pipe, nothing else does |
| MacAdapter.MacCbi.WriteBulk | src/usb_cbi_macos.c:630-661 | the same for data out, with an all-or-nothing count |
| MacAdapter.MacCbi.ReadInterrupt | src/usb_cbi_macos.c:663-742 | memory, submission, the deadline, the drain and the received length decide in turn; any failure after submission puts the adapter in doubt, any before changes nothing |
| MacAdapter.MacCbi.PrepareReset | src/usb_cbi_macos.c:769-801 | succeeds, and arms, exactly if the adapter is open and disarmed, the request drains and the pipe clears; no request is then pending |
| MacAdapter.MacCbi.FinishReset | src/usb_cbi_macos.c:803-819 | consumes the arming; doubt ends exactly if recovered |
| Composition.RunKeepsContract | include/m65/cbi.h:56-74 | against any adapter, each successful prepare is followed by at most one reset block and exactly one finish before any other command, open or close; a failed prepare by none |
| Composition.FlagsAgree | src/usb_cbi_macos.c:391-417 | between steps of every composed run nothing is armed, and the adapter is open exactly when the engine is and no failed close has come between |
| Composition.DoubtIsOwedUnlessUnnoticed | src/usb_cbi_macos.c:728-740 | a command that puts the adapter in doubt makes the engine owe a reset exactly if it did not end in a completion that failed with a stall, a permission error or "no device" |
| Composition.DoubtsAloneExactly | src/cbi.c:83-88 | the adapter doubts while the engine owes nothing exactly if such a command occurred and its doubt has lasted since, with no loss of phase and no resynchronisation after it |
| Composition.HeldWithoutDoubtExactly | src/usb_cbi_macos.c:456-489 | a request is held without doubt exactly if a command left it while a failed close had the adapter closed and an open has since dropped the doubt |
| Composition.OrdinaryOnlyInStep | src/usb_cbi_macos.c:391-417 | an ordinary command reaches the control pipe exactly when the adapter is in step with no request pending, never while armed or while a reset is owed; one turned away changes nothing and makes the engine owe a reset |
| Composition.DebtEndsInStep | src/usb_cbi_macos.c:803-819 | the debt ends only by a finish that ends the adapter's doubt, or by an open that really opened; finish never refuses |
| Composition.MissCostsOneCommand | src/cbi.c:521-527 | a missed doubt costs one command, rejected unsent, and the next accepted one begins with prepare |
| Composition.AcquireAfterFailedClose | src/cbi.c:401-403 | a run in which the engine is open and owes nothing while the adapter is closed |
| Composition.StaleEndsWithRelease | src/usb_cbi_macos.c:523-525 | in that state every prepare is refused and the next release succeeds and ends it |
| Composition.AdapterCanDoubtAlone | src/cbi.c:83-88 | a run in which the adapter is in doubt and the engine owes nothing |
| StatusPath.TransportKeepsKind | src/cbi.c:118-136 | each kind of failure keeps its name through the engine |
| StatusPath.CodeOfReturn | src/probe.c:37-52 | the code a probe reports for each return of the USB stack: permission and missing device as such, everything else a transport failure |
| InterruptLifetime.NeverTouchedAfterFree | src/usb_cbi_macos.c:324-355 | in every interleaving no step reads, writes or frees a freed request |
| InterruptLifetime.FreedExactlyOnce | src/usb_cbi_macos.c:324-330 | a request is freed at most once, never while held, and once neither side holds it it is freed or about to be |
| InterruptLifetime.TheLaterFrees | src/usb_cbi_macos.c:332-355 | each side frees exactly if the other let go before it |
| InterruptLifetime.NothingLeaks | src/usb_cbi_macos.c:821-841 | after destruction a request is freed unless its callback is still to come |
| InterruptLifetime.OneRequestAtATime | src/usb_cbi_macos.c:663-742 | the context holds at most one request, and a result is read only after the callback wrote it |
| InterruptLifetime.UnfinishedIsKept | src/usb_cbi_macos.c:783-790 | a request whose callback is still to come is let go only by close or destroy; reading and preparing keep it when the abort failed |
| InterruptLifetime.InvAlways | src/usb_cbi_macos.c:419-432 | reference counts equal owners in every reachable state |
| ProbeCommands.ExecuteChecked | src/probe.c:54-68 | a command is sent exactly when it validates and no interrupt is pending |
| ProbeCommands.ModeSense | src/probe.c:255-276 | good exactly when a page was delivered within the buffer and parsed |
| ProbeCommands.ModeSelect | src/probe.c:278-294 | sent exactly when the payload can be built and no interrupt is pending |
| ProbeCommands.ReadBlocks | src/probe.c:296-310 | good exactly when every byte asked for arrived |
| ProbeCommands.ReadCompleteImage | src/probe.c:312-336 | for any number of blocks and any chunk size: true exactly when consecutive full reads cover the disk, and then the image is what they delivered; it stops short only for an interrupt or a read that was not full |
| ProbeCommands.CoveredIsProduct | src/probe.c:316-333 | n chunks cover n times the chunk size, up to the total |
| Probe.DecideChange | src/probe.c:410-421 | the report then holds the mask, the saved page flagged by it, and the request built on that page; it is refused as unsupported exactly if the mask does not grant it |
| Probe.CheckMask | src/probe.c:404-421 | goes on exactly when the mask grants the change |
| Probe.Change | src/probe.c:423-434 | the change is asked for with the saved page's geometry replaced; its refusal shows the drive unsupported |
| Probe.Verify | src/probe.c:436-449 | goes on exactly when the readback is the 1581 geometry |
| Probe.ReadBoundary | src/probe.c:451-473 | goes on exactly when the block was read; a refusal shows the drive unsupported |
| Probe.ReadTwice | src/probe.c:475-497 | with both allocations granted it reads both passes to the end unless an interrupt or a bad read stops it; supported exactly when both are complete and equal, and the image is then the first |
| Probe.Restore | src/probe.c:499-530 | the saved page is sent, pending interrupt or not, exactly if a change was due, the payload can be built and no signal falls between the clearing and the check of the flag; failure ends inconclusive with its own code |
| Probe.Release | src/probe.c:532-551 | one release; failure ends inconclusive; the image is kept only if supported |
| Probe.Test1581 | src/probe.c:351-553 | what it did is a run of the right shape that stops early only for a cause, with the late signal and the refused allocations those of the environment; the report's pages, flags, code and status follow from that run, and on every path code OK, status supported and a kept image agree, as do the two "unsupported" |
| ProbeSafety.OneAcquireOneRelease | src/probe.c:384-392 | in every run one successful acquire gives exactly one release, last; without one nothing else is called |
| ProbeSafety.ChangeIsUndone | src/probe.c:499-545 | if the change reached the transport and no signal fell into the gap, exactly one MODE SELECT of the saved page reaches it later, after everything else and right before the release |
| ProbeSafety.ChangeUndoneExactly | src/probe.c:501-504 | a change that reached the transport is undone exactly if no signal fell into the gap; otherwise no further MODE SELECT is sent and the run ends inconclusive |
| ProbeWitnesses.LateSignalRun | src/probe.c:501-504 | a run with the change accepted, a signal in the gap and no restore |
| ProbeSafety.OnlyRestoreAfterInterrupt | src/probe.c:54-68 | once an interrupt is pending the only command still sent is the restoring MODE SELECT |
| ProbeSafety.RestoredMeansOriginal | src/probe.c:501-530 | on a controller that keeps state and answers MODE SENSE by the page control in the block, a restored report means its page is the original up to the flag bits of byte 0; what was saved is that page, and what decided is its mask |
| ProbeSafety.MaskIsRespected | src/probe.c:415-424 | the change that reaches such a controller touches only bits its mask grants |
| ProbeSafety.ChangeSentExactly | src/probe.c:415-424 | the change is sent exactly if it is due, the page's length byte is 30 and no interrupt came with the mask |
| ProbeSafety.RestoreSentExactly | src/probe.c:501-504 | the restore is sent exactly if the change is due, the page's length byte is 30 and no signal fell into the gap |
| ProbeSafety.UnbuildablePage | src/ufi.c:394-398 | with another length byte a due change and its restore are both not sent, and the run ends inconclusive |
| ProbeWitnesses.UnbuildableRun | src/ufi.c:242 | a run without any interrupt in which this happens |
| ProbeSafety.OkIsSound | src/probe.c:436-506 | OK rests on 1581 readback, LBA 9 and 1599, two complete equal passes in which every command went well, a good restore and release |
| ProbeSafety.CodeMatchesStatus | src/probe.c:499-552 | in every verdict a failed restore or release is inconclusive, and "unsupported" rests on what the last command showed |
| ProbeSafety.EachBlockOnce | src/probe.c:316-333 | exactly one read of a pass covers each block |
| ProbeSafety.BlockIsFromItsRead | src/probe.c:326-333 | each block of the image is the matching block of what the read covering it returned |
| Inspect.RunInspection | src/probe.c:131-253 | OK exactly if all six commands were good, their data was accepted and the release succeeded; the report then holds what was received, with the current page flagged by the mask; otherwise its code is that of the first failure, and it stops short only for an interrupt or a command that was not accepted |
| Inspect.InspectionIsClean | src/probe.c:237-252 | one acquire, one release, last; the six commands in order, each after its predecessor was accepted, none after an interrupt, none with data out |
| Layout.AddressesAgree | src/layout.c:16-69 | the two address maps undo each other, a sector's image offset is its place in track and sector order, and cylinder, head and sector index are in range and make up the address |
| Layout.GeometryFitsDisk | src/ufi.c:345-350 | the geometry the probe accepts is that of the disk it reads and of the sector layout: 80 cylinders, 20 blocks a track, 1,600 blocks of 512 bytes |
| Layout.CopyLogicalSector | src/layout.c:71-89 | copies exactly the sector's 256 bytes when the image holds them, and otherwise nothing |
| Layout.SectorsMakeTheImage | src/layout.c:16-89 | every logical sector in order gives the image back |
| Layout.SectorIsWhatWasRead | src/layout.c:71-89 | on an image from the read loop, a sector is the matching half of the block the transport returned for its address |
| JsonWriter.Buffer.Reserve | src/json.c:8-37 | room for the text and its terminator, failing only if the writer had failed, the allocator refused or the text exceeds the largest power-of-two buffer; contents kept, and the list of capacities so far grown by the new one exactly when the buffer moved: 256 first, each at least double the one before |
| JsonWriter.EarlierSumBelowLast | src/json.c:23-35 | all capacities given up by reallocation are together less than the current one |
| JsonWriter.Buffer.AppendBytes | src/json.c:39-48 | appends exactly the bytes, or fails for good for one of those causes; at most one new capacity |
| JsonWriter.Buffer.AppendEscaped | src/json.c:60-118 | appends exactly the string literal, or fails for one of those causes |
| JsonWriter.Writer.BeforeValue | src/json.c:120-149 | a value may follow exactly when the document accepts one; the separator is then in place |
| JsonWriter.Writer.BeginContainer | src/json.c:175-199 | keeps the writer's invariant for the document of the calls made |
| JsonWriter.Writer.EndContainer | src/json.c:201-224 | the same; true exactly when the container was closed |
| JsonWriter.Writer.WriteKey | src/json.c:226-245 | the same; true exactly when the key was taken |
| JsonWriter.Writer.WriteString | src/json.c:247-250 | the same for a string, with null dropped |
| JsonWriter.Writer.WriteUint | src/json.c:252-260 | the same for an unsigned number |
| JsonWriter.Writer.WriteInt | src/json.c:262-270 | the same for a signed number |
| JsonWriter.Writer.WriteBool | src/json.c:272-275 | the same for a boolean |
| JsonWriter.Writer.WriteNull | src/json.c:277-280 | the same for null |
| JsonWriter.Writer.Finish | src/json.c:282-285 | true exactly when the allocator refused nothing and the calls describe one finished value whose text has room in the largest buffer; the buffer is then its rendering, which parses back to it |
| JsonWriter.FinishedDocument | src/json.c:120-285 | the text of a finished document renders the one value its effective calls serialise, and the RFC 8259 parser returns that value |
| JsonCalls.FinishedCallsSerialise | src/json.c:120-285 | the calls of a finished document, less the dropped ones, are exactly the serialisation of its value |
| JsonCalls.WritableExactlyWhenFits | src/json.c:175-199 | a value can be written exactly when it nests at most sixteen containers |
| JsonParser.TextRoundTrip | src/json.c:39-285 | parsing a rendered value returns it |
| JsonParser.ValueRoundTrip | src/json.c:120-285 | also inside any context a rendering occurs in |
| JsonParser.CharsInvertEscape | src/json.c:60-118 | unescaping (section 7 of RFC 8259) undoes escaping for every byte string |
| JsonParser.EscapeInjective | src/json.c:60-118 | escaping is injective |
| JsonParser.EscapeIsClean | src/json.c:60-118 | an escaped string has no control byte, and each quote in it is the second byte of the escape of a quote in the string |

## Left out

- Detail and reason texts, and the copies of sense data in the probe's reports: the sense data of a command is modelled, where a report keeps it is not.
- Null pointer arguments of the workflows and parsers, and the capacity arguments callers pass as compile-time constants.
- Caller buffers for data in are values: the contents after a call are returned, not written through a pointer. Command blocks, payloads and decoded pages are likewise values.
- Engine and adapter are separate classes; their composition is proved on runs and flag sequences, not by running one object against the other.
- The fixed-size arrays of the JSON writer's stack are sequences, and the buffer part of its record is a class of its own.
- JsonParser.TextRoundTrip: the parser reads integers only, since the writer prints no fraction or exponent.
- Probe.Test1581: the transport is any transport; that the CBI engine is one is not restated.
- Inspect.RunInspection: the trimming of INQUIRY texts is not modelled, only whether the data is accepted.
- InterruptLifetime.NothingLeaks: a callback that never fires leaves its request allocated, as in the source.
- Building the control request around a command block, endpoint and registry discovery, plug-in creation, run-loop plumbing and freeing of contexts.
- Use of the transport from a thread other than the acquiring one, which the adapter refuses.
- Wall-clock time: a timeout is one of the outcomes.
- `src/main.c`, `src/output.c`, `src/cli.c`, `src/device.c`, `src/scsi_macos.c`, `src/discovery_macos.c`, and the interleave tables of `src/layout.c`.
