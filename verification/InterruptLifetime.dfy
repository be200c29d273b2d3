/** The life of an interrupt request (src/usb_cbi_macos.c). The context and the
    submitted callback hold one reference each; the callback may run at any
    point after its submission is accepted, interleaved step by step with the
    thread that uses the transport. */
module InterruptLifetime {
  import opened Wrappers

  /** Where a request's callback is. */
  datatype Callback = Unsubmitted | InFlight | Wrote | Marked | Freeing | Returned

  /** A request: the memory it occupies while `frees` is 0. */
  datatype Request = Request(refs: int, complete: bool, written: bool, frees: nat, callback: Callback)

  /** The operation a shared helper was called from. */
  datatype Op = InterruptIn | Prepare | Close | Destroy

  /** Where the transport's thread is. */
  datatype Main =
    | Idle
    | Gone
    | Submit(r: nat)
    | Accepted(r: nat)
    | Refused(r: nat)
    | FreeRefused(r: nat)
    | Wait(r: nat)
    | Read(r: nat)
    | Drain(op: Op)
    | DrainWait(op: Op)
    | Drained(op: Op, ok: bool)
    | Detach(op: Op)
    | Drop(r: nat, op: Op)
    | Free(r: nat, op: Op)

  datatype State = State(reqs: seq<Request>, ctx: Option<nat>, main: Main)

  datatype Action =
    // the thread
    | Begin(begun: Op)
    | Accept
    | Refuse
    | SubmitReturns
    | DropForCallback
    | FreeForCallback
    | Poll
    | Deadline
    | ReadResult
    | FindNothing
    | FindComplete
    | AbortFails
    | AbortWorks
    | EndDrain
    | DetachRequest
    | DropReference
    | FreeRequest
    // the callback of request cb
    | CbWrite(cb: nat)
    | CbMark(cb: nat)
    | CbDrop(cb: nat)
    | CbFree(cb: nat)

  const START: State := State([], None, Idle)

  function After(op: Op): Main { if op == Destroy then Gone else Idle }

  ghost predicate Pending(s: State) { s.ctx.Some? && s.ctx.value < |s.reqs| }

  ghost predicate Complete(s: State) { Pending(s) && s.reqs[s.ctx.value].complete }

  ghost predicate At(s: State, r: nat, c: Callback) { r < |s.reqs| && s.reqs[r].callback == c }

  ghost predicate Can(s: State, a: Action) {
    match a
    case Begin(op) => s.main == Idle && (op == InterruptIn ==> s.ctx == None)
    case Accept => s.main.Submit? && s.main.r < |s.reqs|
    case Refuse => s.main.Submit?
    case SubmitReturns => s.main.Accepted?
    case DropForCallback => s.main.Refused? && s.main.r < |s.reqs|
    case FreeForCallback => s.main.FreeRefused? && s.main.r < |s.reqs|
    case Poll => (s.main.Wait? || s.main.DrainWait?) && Pending(s)
    case Deadline => (s.main.Wait? || s.main.DrainWait?) && Pending(s) && !Complete(s)
    case ReadResult => s.main.Read? && s.main.r < |s.reqs|
    case FindNothing => s.main.Drain? && s.ctx == None
    case FindComplete => s.main.Drain? && Complete(s)
    case AbortFails => s.main.Drain? && Pending(s) && !Complete(s)
    case AbortWorks => s.main.Drain? && Pending(s) && !Complete(s)
    case EndDrain => s.main.Drained?
    case DetachRequest => s.main.Detach?
    case DropReference => s.main.Drop? && s.main.r < |s.reqs|
    case FreeRequest => s.main.Free? && s.main.r < |s.reqs|
    case CbWrite(r) => At(s, r, InFlight)
    case CbMark(r) => At(s, r, Wrote)
    case CbDrop(r) => At(s, r, Marked)
    case CbFree(r) => At(s, r, Freeing)
  }

  /** interrupt_request_release by the thread: the last reference frees. */
  ghost function Released(s: State, r: nat, ifLast: Main, otherwise: Main): State
    requires r < |s.reqs|
  {
    var q := s.reqs[r];
    s.(reqs := s.reqs[r := q.(refs := q.refs - 1)], main := if q.refs == 1 then ifLast else otherwise)
  }

  ghost function Freed(s: State, r: nat, next: Main): State
    requires r < |s.reqs|
  {
    s.(reqs := s.reqs[r := s.reqs[r].(frees := s.reqs[r].frees + 1)], main := next)
  }

  ghost function Do(s: State, a: Action): State
    requires Can(s, a)
  {
    match a
    case Begin(op) =>
      if op == InterruptIn then
        State(s.reqs + [Request(2, false, false, 0, Unsubmitted)], Some(|s.reqs|), Submit(|s.reqs|))
      else if op == Destroy then s.(main := Detach(op))
      else s.(main := Drain(op))
    case Accept =>
      var r := s.main.r;
      s.(reqs := s.reqs[r := s.reqs[r].(callback := InFlight)], main := Accepted(r))
    case Refuse => s.(main := Refused(s.main.r))
    case SubmitReturns => s.(main := Wait(s.main.r))
    case DropForCallback => Released(s, s.main.r, FreeRefused(s.main.r), Detach(InterruptIn))
    case FreeForCallback => Freed(s, s.main.r, Detach(InterruptIn))
    case Poll =>
      if !Complete(s) then s
      else if s.main.Wait? then s.(main := Read(s.main.r))
      else s.(main := Drained(s.main.op, true))
    case Deadline =>
      if s.main.Wait? then s.(main := Drain(InterruptIn)) else s.(main := Drained(s.main.op, false))
    case ReadResult => s.(main := Detach(InterruptIn))
    case FindNothing => s.(main := Drained(s.main.op, true))
    case FindComplete => s.(main := Drained(s.main.op, true))
    case AbortFails => s.(main := Drained(s.main.op, false))
    case AbortWorks => s.(main := DrainWait(s.main.op))
    case EndDrain =>
      if s.main.op == Close || s.main.ok || Complete(s) then s.(main := Detach(s.main.op))
      else s.(main := After(s.main.op))
    case DetachRequest =>
      if s.ctx == None then s.(main := After(s.main.op))
      else s.(ctx := None, main := Drop(s.ctx.value, s.main.op))
    case DropReference => Released(s, s.main.r, Free(s.main.r, s.main.op), After(s.main.op))
    case FreeRequest => Freed(s, s.main.r, After(s.main.op))
    case CbWrite(r) => s.(reqs := s.reqs[r := s.reqs[r].(written := true, callback := Wrote)])
    case CbMark(r) => s.(reqs := s.reqs[r := s.reqs[r].(complete := true, callback := Marked)])
    case CbDrop(r) =>
      var q := s.reqs[r];
      s.(reqs := s.reqs[r := q.(refs := q.refs - 1, callback := if q.refs == 1 then Freeing else Returned)])
    case CbFree(r) =>
      s.(reqs := s.reqs[r := s.reqs[r].(frees := s.reqs[r].frees + 1, callback := Returned)])
  }

  /** The request whose memory an action reads, writes or frees. */
  ghost function Touches(s: State, a: Action): Option<nat>
    requires Can(s, a)
  {
    match a
    case Accept => Some(s.main.r)
    case DropForCallback => Some(s.main.r)
    case FreeForCallback => Some(s.main.r)
    case Poll => s.ctx
    case Deadline => s.ctx
    case ReadResult => Some(s.main.r)
    case FindComplete => s.ctx
    case AbortFails => s.ctx
    case AbortWorks => s.ctx
    case EndDrain => if s.main.op == Close || s.main.ok then None else s.ctx
    case DropReference => Some(s.main.r)
    case FreeRequest => Some(s.main.r)
    case CbWrite(r) => Some(r)
    case CbMark(r) => Some(r)
    case CbDrop(r) => Some(r)
    case CbFree(r) => Some(r)
    case _ => None
  }

  ghost predicate Leads(p: State, a: Action, s: State) { Can(p, a) && s == Do(p, a) }

  /** Some interleaving leads from the start to this state. */
  ghost predicate Reachable(s: State, actions: seq<Action>)
    decreases |actions|
  {
    if actions == [] then s == START
    else
      var a := actions[|actions| - 1];
      exists p :: Leads(p, a, s) && Reachable(p, actions[..|actions| - 1])
  }

  // ----- the invariant -----

  /** The context's reference is still held. */
  ghost predicate ContextHolds(s: State, r: nat) { s.ctx == Some(r) || (s.main.Drop? && s.main.r == r) }

  /** The callback's reference is still held. */
  ghost predicate CallbackHolds(s: State, r: nat)
    requires r < |s.reqs|
  {
    match s.reqs[r].callback
    case Unsubmitted => s.main == Submit(r) || s.main == Refused(r)
    case InFlight => true
    case Wrote => true
    case Marked => true
    case _ => false
  }

  ghost function One(b: bool): nat { if b then 1 else 0 }

  /** Someone has dropped the last reference and is about to free. */
  ghost predicate ThreadFrees(s: State, r: nat) { (s.main.Free? || s.main.FreeRefused?) && s.main.r == r }

  /** References are owners, and the memory is freed, or about to be, exactly
      when there are none. */
  ghost predicate RequestInv(s: State, r: nat)
    requires r < |s.reqs|
  {
    var q := s.reqs[r];
    && q.refs == One(ContextHolds(s, r)) + One(CallbackHolds(s, r))
    && q.frees + One(ThreadFrees(s, r)) + One(q.callback == Freeing) == One(q.refs == 0)
    && (q.complete <==> q.callback in {Marked, Freeing, Returned})
    && (q.written <==> q.callback in {Wrote, Marked, Freeing, Returned})
    && (s.main == Submit(r) || s.main == Refused(r) ==> q.callback == Unsubmitted)
  }

  /** The context holds a request that was submitted and has not completed. */
  ghost predicate Unfinished(s: State) {
    Pending(s) && s.reqs[s.ctx.value].callback in {InFlight, Wrote}
  }

  ghost predicate ThreadInv(s: State) {
    && (s.ctx.Some? ==> s.ctx.value < |s.reqs|)
    && match s.main
       case Submit(r) => s.ctx == Some(r)
       case Accepted(r) => s.ctx == Some(r)
       case Refused(r) => s.ctx == Some(r)
       case FreeRefused(r) => false
       case Wait(r) => s.ctx == Some(r)
       case Read(r) => s.ctx == Some(r) && Complete(s)
       case Drain(op) => op != Destroy
       case DrainWait(op) => op != Destroy && s.ctx.Some?
       case Drained(op, ok) => op != Destroy && (if ok then !Unfinished(s) else s.ctx.Some?)
       case Detach(op) => op in {InterruptIn, Prepare} ==> !Unfinished(s)
       case Drop(r, _) => s.ctx == None && r < |s.reqs|
       case Free(r, _) => s.ctx == None && r < |s.reqs|
       case Gone => s.ctx == None
       case _ => true
  }

  ghost predicate Inv(s: State) { ThreadInv(s) && forall r :: 0 <= r < |s.reqs| ==> RequestInv(s, r) }

  lemma StepKeepsRequest(s: State, a: Action, r: nat)
    requires Inv(s) && Can(s, a) && r < |Do(s, a).reqs|
    ensures RequestInv(Do(s, a), r)
  {
    if r < |s.reqs| {
      assert RequestInv(s, r);
      hide Inv;
    }
  }

  lemma StepKeepsThread(s: State, a: Action)
    requires Inv(s) && Can(s, a)
    ensures ThreadInv(Do(s, a))
  {
    if s.main.Refused? {
      assert RequestInv(s, s.main.r);
    } else if s.ctx.Some? {
      assert RequestInv(s, s.ctx.value);
    }
  }

  lemma {:induction false} InvAlways(s: State, actions: seq<Action>)
    requires Reachable(s, actions)
    ensures Inv(s)
    decreases |actions|
  {
    if actions != [] {
      var a := actions[|actions| - 1];
      var p :| Leads(p, a, s) && Reachable(p, actions[..|actions| - 1]);
      InvAlways(p, actions[..|actions| - 1]);
      StepKeepsThread(p, a);
      forall r | 0 <= r < |s.reqs| ensures RequestInv(s, r) {
        StepKeepsRequest(p, a, r);
      }
    }
  }

  // ----- what follows for every interleaving -----

  /** No step touches a request that has been freed. */
  lemma NeverTouchedAfterFree(s: State, actions: seq<Action>, a: Action)
    requires Reachable(s, actions) && Can(s, a) && Touches(s, a).Some?
    ensures Touches(s, a).value < |s.reqs| && s.reqs[Touches(s, a).value].frees == 0
  {
    InvAlways(s, actions);
    hide Reachable;
    assert RequestInv(s, Touches(s, a).value);
  }

  /** A request is freed at most once, and not while anyone holds it; once both
      the context and the callback have let go it has been freed, or the one
      that let go last is about to free it. */
  lemma FreedExactlyOnce(s: State, actions: seq<Action>, r: nat)
    requires Reachable(s, actions) && r < |s.reqs|
    ensures s.reqs[r].frees <= 1
    ensures s.reqs[r].frees == 1 ==> !ContextHolds(s, r) && !CallbackHolds(s, r)
    ensures !ContextHolds(s, r) && !CallbackHolds(s, r) ==>
              s.reqs[r].frees == 1 || ThreadFrees(s, r) || s.reqs[r].callback == Freeing
  {
    InvAlways(s, actions);
    hide Reachable;
    assert RequestInv(s, r);
  }

  /** The thread frees exactly if the callback let go before it, and the
      callback exactly if the context did. */
  lemma TheLaterFrees(s: State, actions: seq<Action>, a: Action)
    requires Reachable(s, actions) && Can(s, a)
    ensures a == DropReference ==> (ThreadFrees(Do(s, a), s.main.r) <==> !CallbackHolds(s, s.main.r))
    ensures a.CbDrop? ==> (Do(s, a).reqs[a.cb].callback == Freeing <==> !ContextHolds(s, a.cb))
    ensures a != FreeForCallback
  {
    InvAlways(s, actions);
    hide Reachable;
    if a == DropReference {
      assert RequestInv(s, s.main.r);
    } else if a.CbDrop? {
      assert RequestInv(s, a.cb);
    }
  }

  /** Nothing leaks: once the transport is gone, a request that was never
      submitted or whose callback has returned has been freed; one whose
      callback is still to come has not. */
  lemma NothingLeaks(s: State, actions: seq<Action>, r: nat)
    requires Reachable(s, actions) && s.main == Gone && r < |s.reqs|
    ensures s.reqs[r].callback in {Unsubmitted, Returned} ==> s.reqs[r].frees == 1
    ensures s.reqs[r].callback in {InFlight, Wrote, Marked} ==> s.reqs[r].frees == 0
  {
    InvAlways(s, actions);
    hide Reachable;
    assert RequestInv(s, r);
  }

  /** At any time the context holds at most one request, every other request
      has only its callback left, and a result is read only after the callback
      has written it. */
  lemma OneRequestAtATime(s: State, actions: seq<Action>)
    requires Reachable(s, actions)
    ensures forall r, q :: 0 <= r < q < |s.reqs| ==> !(ContextHolds(s, r) && ContextHolds(s, q))
    ensures forall r :: 0 <= r < |s.reqs| && !ContextHolds(s, r) ==> s.reqs[r].refs <= 1
    ensures Can(s, ReadResult) ==> s.reqs[s.main.r].written && s.reqs[s.main.r].complete
    ensures Can(s, Begin(InterruptIn)) ==> forall r :: 0 <= r < |s.reqs| ==> !ContextHolds(s, r)
  {
    InvAlways(s, actions);
    OneHolder(s);
    if Can(s, ReadResult) {
      hide Reachable;
      assert RequestInv(s, s.main.r);
    }
  }

  lemma OneHolder(s: State)
    requires Inv(s)
    ensures forall r, q :: 0 <= r < q < |s.reqs| ==> !(ContextHolds(s, r) && ContextHolds(s, q))
    ensures forall r :: 0 <= r < |s.reqs| && !ContextHolds(s, r) ==> s.reqs[r].refs <= 1
  {
    forall r | 0 <= r < |s.reqs| && !ContextHolds(s, r) ensures s.reqs[r].refs <= 1 {
      assert RequestInv(s, r);
    }
  }

  /** A request whose callback is still to come is let go only by closing or by
      destroying: reading and preparing keep it when the abort failed, so that
      a later prepare can drain it. */
  lemma UnfinishedIsKept(s: State, actions: seq<Action>, a: Action)
    requires Reachable(s, actions) && Can(s, a) && Unfinished(s)
    ensures Do(s, a).ctx != s.ctx ==> a == DetachRequest && s.main.op in {Close, Destroy}
    ensures a == EndDrain && s.main.op in {InterruptIn, Prepare} ==>
              !s.main.ok && Do(s, a) == s.(main := Idle)
  {
    InvAlways(s, actions);
    hide Reachable;
    assert RequestInv(s, s.ctx.value);
  }
}
