/** The engine of src/cbi.c on top of the macOS adapter of
    src/usb_cbi_macos.c, on one thread: every run of the engine paired with
    every course of the adapter's flags that goes with its events. */
module Composition {
  import opened Bytes
  import opened Ufi
  import opened CbiProtocol
  import opened MacAdapter

  // ----- the contract between the two: include/m65/cbi.h -----

  /** How far the one-shot permission to reset has got. */
  datatype Permission = Idle | Armed | Used | Violated

  /** An adapter that enforces the documented contract: one prepare at a time,
      one reset block per successful prepare, exactly one finish for each, and
      no other command, open or close in between. */
  ghost function Next(p: Permission, e: Event): Permission {
    match e
    case Prepare(s) => if p != Idle then Violated else if s == Ok then Armed else Idle
    case Finish(_, _) => if p == Armed || p == Used then Idle else Violated
    case Adsc(block, _) =>
      if block == RESET_BLOCK then (if p == Armed then Used else Violated)
      else if p == Idle then Idle else Violated
    case Open(_) => if p == Idle then Idle else Violated
    case Close(_) => if p == Idle then Idle else Violated
    case _ => p
  }

  ghost function Follow(p: Permission, t: seq<Event>): Permission
    decreases |t|
  {
    if t == [] then p else Follow(Next(p, t[0]), t[1..])
  }

  lemma {:induction false} FollowConcat(p: Permission, a: seq<Event>, b: seq<Event>)
    ensures Follow(p, a + b) == Follow(Follow(p, a), b)
    decreases |a|
  {
    if a == [] {
      assert a + b == b;
    } else {
      assert (a + b)[1..] == a[1..] + b;
      FollowConcat(Next(p, a[0]), a[1..], b);
    }
  }

  predicate DataEvent(e: Event) { e.BulkIn? || e.BulkOut? || e.Interrupt? || e.ClearStall? }

  ghost predicate DataEvents(t: seq<Event>) { forall i :: 0 <= i < |t| ==> DataEvent(t[i]) }

  lemma {:induction false} FollowData(p: Permission, t: seq<Event>)
    requires DataEvents(t)
    ensures Follow(p, t) == p
    decreases |t|
  {
    if t != [] {
      FollowData(p, t[1..]);
    }
  }

  /** After its command an exchange has only data events. */
  lemma ExchangeShape(p: seq<Event>, block: CommandBlock, direction: Direction, buffer: seq<byte>)
    requires Exchange(p, block, direction, buffer)
    ensures p != [] && p[0].Adsc? && p[0].block == block && DataEvents(p[1..])
  {
    var q := p[1..];
    if q != [] && direction != NoData {
      assert |q| > 1 ==> q[1..][0] == q[1];
      assert |q| > 2 ==> q[2..][0] == q[2];
    }
  }

  /** The block an ordinary step starts with. */
  ghost function BlockOf(s: Step): CommandBlock
    requires Ordinary(s) && WellFormedStep(s)
  {
    match s
    case Main(c, _) => Pad(c)
    case CallerSense(c, _) => Pad(c)
    case Sense(_, _, _) => Pad(SenseCommand())
  }

  lemma OrdinaryShape(s: Step)
    requires Ordinary(s) && WellFormedStep(s)
    ensures BlockOf(s) != RESET_BLOCK
    ensures Flat(s) != [] && Flat(s)[0].Adsc? && Flat(s)[0].block == BlockOf(s) && DataEvents(Flat(s)[1..])
    ensures Flat(s)[0].status != Ok ==> |Flat(s)| == 1
  {
    hide Validate;
    match s
    case Main(c, p) =>
      ExchangeShape(p, Pad(c), c.direction, BufferOf(c));
      ResetIsNotACommand(c);
    case CallerSense(c, p) =>
      ExchangeShape(p, Pad(c), c.direction, BufferOf(c));
      ResetIsNotACommand(c);
    case Sense(_, _, p) =>
      ExchangeShape(p, Pad(SenseCommand()), DataIn, Zeros(UFI_SENSE_LENGTH));
      assert Pad(SenseCommand())[0] == SenseCommand().cdb[0];
  }

  lemma RecoveryKeepsContract(s: Step)
    requires s.Recovery? && WellFormedStep(s)
    ensures Follow(Idle, Flat(s)) == Idle
  {
    hide Exchange, ResetCompleted;
    var t := Flat(s);
    assert t[0] == Prepare(s.prepare) && t[1..] == s.reset + s.clears + s.finish;
    if s.prepare == Ok {
      ExchangeShape(s.reset, RESET_BLOCK, NoData, []);
      var sent, data := [s.reset[0]], s.reset[1..] + s.clears;
      assert s.finish == [s.finish[0]] && Follow(Used, s.finish) == Follow(Idle, s.finish[1..]);
      hide RecoveryAttempt;
      assert s.reset + s.clears + s.finish == sent + (data + s.finish);
      FollowConcat(Armed, sent, data + s.finish);
      assert sent[1..] == [] && Follow(Armed, sent) == Used;
      FollowData(Used, data);
      FollowConcat(Used, data, s.finish);
    } else {
      assert t[1..] == [];
    }
  }

  lemma StepKeepsContract(s: Step)
    requires WellFormedStep(s)
    ensures Follow(Idle, Flat(s)) == Idle
  {
    if s.Recovery? {
      RecoveryKeepsContract(s);
    } else if Ordinary(s) {
      hide Exchange, Validate, WellFormedStep;
      OrdinaryShape(s);
      FollowData(Idle, Flat(s)[1..]);
    } else {
      assert Flat(s) != [] ==> Follow(Idle, Flat(s)[1..]) == Next(Idle, Flat(s)[0]) == Idle;
    }
  }

  /** Every run keeps the reset contract, against any adapter: each successful
      prepare is followed by exactly one finish before anything else but the
      one reset exchange, a failed prepare by none, and the permission is
      never left armed. */
  lemma {:induction false} RunKeepsContract(h: seq<Step>)
    requires EngineRun(h)
    ensures Follow(Idle, FlatAll(h)) == Idle
    decreases |h|
  {
    if h != [] {
      var g := h[..|h| - 1];
      RunKeepsContract(g);
      StepKeepsContract(h[|h| - 1]);
      FollowConcat(Idle, FlatAll(g), Flat(h[|h| - 1]));
    }
  }

  // ----- the adapter along a run -----

  /** The adapter can go from m to n while these events happen. */
  ghost predicate Reaches(m: Mac, t: seq<Event>, n: Mac)
    decreases |t|
  {
    if t == [] then n == m
    else exists k :: MacStep(m, t[0], k) && Reaches(k, t[1..], n)
  }

  lemma {:induction false} ReachesSplit(m: Mac, a: seq<Event>, b: seq<Event>, n: Mac) returns (k: Mac)
    requires Reaches(m, a + b, n)
    ensures Reaches(m, a, k) && Reaches(k, b, n)
    decreases |a|
  {
    hide MacStep;
    if a == [] {
      assert a + b == b;
      k := m;
    } else {
      assert (a + b)[1..] == a[1..] + b && (a + b)[0] == a[0];
      var k0 :| MacStep(m, (a + b)[0], k0) && Reaches(k0, (a + b)[1..], n);
      k := ReachesSplit(k0, a[1..], b, n);
      assert MacStep(m, a[0], k0) && Reaches(k0, a[1..], k);
    }
  }

  lemma ReachesOne(m: Mac, e: Event, n: Mac)
    requires Reaches(m, [e], n)
    ensures MacStep(m, e, n)
  {
    hide MacStep;
    assert [e][1..] == [];
  }

  /** A failure the engine does not take for a loss of phase, though the
      adapter may. */
  ghost predicate Unnoticed(e: Event) {
    e.Interrupt? && (e.status == Stall || e.status == Permission || e.status == NoDevice)
  }

  ghost predicate MissesIn(t: seq<Event>) { exists i :: 0 <= i < |t| && Unnoticed(t[i]) }

  /** Commands and data leave the interface and the permission alone, and what
      puts the adapter out of step is a loss of phase or an unnoticed one. */
  lemma {:induction false} ReachesInExchange(m: Mac, t: seq<Event>, n: Mac)
    requires Reaches(m, t, n)
    requires forall i :: 0 <= i < |t| ==> DataEvent(t[i]) || t[i].Adsc?
    ensures n.open == m.open && n.armed == m.armed && (m.desync ==> n.desync) && (m.pending ==> n.pending)
    ensures n.desync ==> m.desync || Loses(t) || MissesIn(t)
    ensures n.pending ==> m.pending || n.desync
    ensures (forall i :: 0 <= i < |t| ==> t[i].status == Ok) ==> n == m
    decreases |t|
  {
    if t != [] {
      var k :| MacStep(m, t[0], k) && Reaches(k, t[1..], n);
      ReachesInExchange(k, t[1..], n);
      assert Loses(t[1..]) ==> Loses(t) by { assert forall i :: 0 <= i < |t[1..]| ==> t[1..][i] == t[i + 1]; }
      assert MissesIn(t[1..]) ==> MissesIn(t) by { assert forall i :: 0 <= i < |t[1..]| ==> t[1..][i] == t[i + 1]; }
      OutOfStep(m, t[0], k);
    }
  }

  lemma OutOfStep(m: Mac, e: Event, n: Mac)
    requires MacStep(m, e, n) && (DataEvent(e) || e.Adsc?)
    ensures n.open == m.open && n.armed == m.armed && (m.desync ==> n.desync) && (m.pending ==> n.pending)
    ensures n.desync ==> m.desync || EventLoses(e) || Unnoticed(e)
    ensures n.pending ==> m.pending || n.desync
    ensures e.status == Ok ==> n == m
  {
  }

  // ----- composed runs -----

  /** A run of the engine with the adapter's flags before and after each
      step. */
  ghost predicate Composed(h: seq<Step>, ms: seq<Mac>) {
    && EngineRun(h) && |ms| == |h| + 1 && ms[0] == Mac(false, false, false, false)
    && forall i :: 0 <= i < |h| ==> Reaches(ms[i], Flat(h[i]), ms[i + 1])
  }

  /** The last close failed in a way that leaves the engine open, although the
      adapter always closes. */
  ghost predicate Stale(h: seq<Step>) {
    h != [] &&
    match h[|h| - 1]
    case Opened(s) => s != Ok && Stale(h[..|h| - 1])
    case Closed(s) => s != Ok && s != NoDevice
    case Destroyed(_) => false
    case _ => Stale(h[..|h| - 1])
  }

  /** How the adapter's flags follow from the engine's run. */
  ghost predicate Agrees(h: seq<Step>, m: Mac) {
    && !m.armed
    && (m.open <==> IsOpened(h) && !Stale(h))
  }

  lemma RecoveryCourse(s: Step, m: Mac, n: Mac)
    requires s.Recovery? && WellFormedStep(s) && Reaches(m, Flat(s), n) && !m.armed
    ensures !n.armed && n.open == m.open
    ensures !m.open ==> s.prepare == Protocol
    ensures s.prepare != Ok ==> n.desync == m.desync
    ensures s.prepare == Ok ==> s.finish[0].status == Ok && n.desync == !s.finish[0].recovered
    ensures Recovered(s) ==> n == Mac(true, false, false, false)
    ensures n.pending && !m.pending ==> n.open && n.desync
    ensures m.desync && !n.desync ==> !n.pending
  {
    hide Exchange, ResetCompleted, Reaches, MacStep;
    var middle := s.reset + s.clears;
    assert Flat(s) == [Prepare(s.prepare)] + (middle + s.finish);
    var b := ReachesSplit(m, [Prepare(s.prepare)], middle + s.finish, n);
    ReachesOne(m, Prepare(s.prepare), b);
    PrepareAndFinish(m, Prepare(s.prepare), b);
    if s.prepare == Ok {
      var a := ReachesSplit(b, middle, s.finish, n);
      ResetCourse(s, b, a);
      FinishIsOne(s);
      ReachesOne(a, s.finish[0], n);
      PrepareAndFinish(a, s.finish[0], n);
    } else {
      NothingReached(b, middle + s.finish, n);
    }
    if Recovered(s) { RecoveredIsCompleteReset(s); }
  }

  lemma NothingReached(m: Mac, t: seq<Event>, n: Mac)
    requires Reaches(m, t, n) && t == []
    ensures n == m
  {
  }

  lemma ResetCourse(s: Step, m: Mac, n: Mac)
    requires s.Recovery? && WellFormedStep(s) && s.prepare == Ok && Reaches(m, s.reset + s.clears, n)
    ensures n.open == m.open && n.armed == m.armed
    ensures Recovered(s) ==> n == m
  {
    hide Exchange, ResetCompleted, Reaches, EventLoses, Unnoticed;
    ExchangeShape(s.reset, RESET_BLOCK, NoData, []);
    var middle := s.reset + s.clears;
    forall i | 0 <= i < |middle| ensures DataEvent(middle[i]) || middle[i].Adsc? {
      assert 0 < i < |s.reset| ==> middle[i] == s.reset[1..][i - 1];
    }
    ReachesInExchange(m, middle, n);
    if Recovered(s) {
      RecoveredIsCompleteReset(s);
      assert forall i :: 0 <= i < |middle| ==> middle[i] == Flat(s)[i + 1];
    }
  }

  lemma PrepareAndFinish(m: Mac, e: Event, n: Mac)
    requires MacStep(m, e, n) && (e.Prepare? || e.Finish?)
    ensures n.open == m.open
    ensures e.Prepare? && e.status == Ok ==> n == m.(pending := false, armed := true) && m.open
    ensures e.Prepare? && e.status != Ok ==>
              n.armed == m.armed && n.desync == m.desync && (n.pending ==> m.pending)
    ensures e.Prepare? && !m.open ==> e.status == Protocol
    ensures e.Finish? && m.armed ==> e.status == Ok && n == m.(armed := false, desync := !e.recovered)
  {
  }

  lemma OrdinaryCourse(s: Step, m: Mac, n: Mac)
    requires Ordinary(s) && WellFormedStep(s) && Reaches(m, Flat(s), n)
    ensures n.open == m.open && n.armed == m.armed && (m.desync ==> n.desync) && (m.pending ==> n.pending)
    ensures n.desync ==> m.desync || Loses(Flat(s)) || MissesIn(Flat(s))
    ensures n.pending ==> m.pending || n.desync
    ensures !Ready(m, BlockOf(s)) ==> n == m && Flat(s) == [Adsc(BlockOf(s), Protocol)]
  {
    hide Exchange, EventLoses, Unnoticed, WellFormedStep, MissesIn, Loses, BlockOf;
    OrdinaryShape(s);
    var t := Flat(s);
    forall i | 0 <= i < |t| ensures DataEvent(t[i]) || t[i].Adsc? {
      assert 0 < i ==> t[i] == t[1..][i - 1];
    }
    ReachesInExchange(m, t, n);
    if !Ready(m, BlockOf(s)) {
      var k :| MacStep(m, t[0], k) && Reaches(k, t[1..], n);
      assert |t| == 1 && t == [t[0]];
    }
  }

  lemma AgreesStep(h: seq<Step>, s: Step, m: Mac, n: Mac)
    requires Agrees(h, m) && (Stale(h) ==> IsOpened(h))
    requires WellFormedStep(s) && Enabled(h, s) && Reaches(m, Flat(s), n)
    ensures Agrees(h + [s], n) && (Stale(h + [s]) ==> IsOpened(h + [s]))
  {
    hide Exchange, Validate, RecoveryAttempt, EventLoses, Unnoticed;
    assert (h + [s])[..|h|] == h;
    match s
    case Opened(status) => ReachesOne(m, Open(status), n);
    case Closed(status) => ReachesOne(m, Close(status), n);
    case Destroyed(closing) => if closing != [] { assert closing == [closing[0]]; ReachesOne(m, closing[0], n); }
    case Recovery(_, _, _, _) => RecoveryCourse(s, m, n);
    case _ => OrdinaryCourse(s, m, n);
  }

  lemma ComposedPrefix(h: seq<Step>, ms: seq<Mac>, i: nat)
    requires Composed(h, ms) && i <= |h|
    ensures Composed(h[..i], ms[..i + 1])
  {
    hide Flat;
    RunPrefix(h, i);
  }

  /** At every point between steps of every composed run no reset is armed,
      and the adapter is open exactly when the engine is and no failed close
      has come between them. */
  lemma {:induction false} FlagsAgree(h: seq<Step>, ms: seq<Mac>)
    requires Composed(h, ms)
    ensures Agrees(h, ms[|h|]) && (Stale(h) ==> IsOpened(h))
    decreases |h|
  {
    if h != [] {
      var n := |h| - 1;
      ComposedPrefix(h, ms, n);
      FlagsAgree(h[..n], ms[..n + 1]);
      RunAt(h, n);
      assert h == h[..n] + [h[n]];
      hide Agrees, WellFormedStep, Enabled, Flat;
      AgreesStep(h[..n], h[n], ms[n], ms[n + 1]);
    }
  }

  lemma FlagsAgreeAt(h: seq<Step>, ms: seq<Mac>, i: nat)
    requires Composed(h, ms) && i <= |h|
    ensures Agrees(h[..i], ms[i]) && (Stale(h[..i]) ==> IsOpened(h[..i]))
  {
    hide Agrees;
    ComposedPrefix(h, ms, i);
    FlagsAgree(h[..i], ms[..i + 1]);
  }

  /** A command the adapter turns away loses the phase for the engine. */
  lemma RefusalLoses(s: Step)
    requires Ordinary(s) && Flat(s) != [] && Flat(s)[0].status == Protocol
    ensures StepLoses(s)
  {
    assert EventLoses(Flat(s)[0]);
  }

  /** An ordinary command reaches the control pipe exactly when the adapter is
      in step and holds no interrupt request; it is then not armed and no
      reset is owed. A command it turns away sends nothing, changes nothing,
      and makes the engine owe a reset. */
  lemma OrdinaryOnlyInStep(h: seq<Step>, ms: seq<Mac>, i: nat)
    requires Composed(h, ms) && i < |h| && Ordinary(h[i])
    ensures !ms[i].armed && !Owes(h[..i]) && WellFormedStep(h[i])
    ensures Ready(ms[i], BlockOf(h[i])) <==> !ms[i].desync && !ms[i].pending
    ensures !Ready(ms[i], BlockOf(h[i])) ==>
              Flat(h[i]) == [Adsc(BlockOf(h[i]), Protocol)] && ms[i + 1] == ms[i] && Owes(h[..i + 1])
  {
    hide Exchange, Validate, EngineRun, StepLoses, IsOpened, Stale, WellFormedStep, Flat, Reaches, BlockOf;
    FlagsAgreeAt(h, ms, i);
    RunAt(h, i);
    OrdinaryShape(h[i]);
    OrdinaryCourse(h[i], ms[i], ms[i + 1]);
    assert h[..i + 1][..i] == h[..i] && h[..i + 1][i] == h[i];
    if !Ready(ms[i], BlockOf(h[i])) {
      RefusalLoses(h[i]);
    }
  }

  // ----- when the adapter doubts alone -----

  /** A command that puts the adapter out of step makes the engine owe a reset,
      unless it ended in a completion that failed in one of the three ways the
      engine does not take for a loss of phase. */
  lemma DoubtIsOwedUnlessUnnoticed(h: seq<Step>, ms: seq<Mac>, i: nat)
    requires Composed(h, ms) && i < |h| && Ordinary(h[i]) && !ms[i].desync && ms[i + 1].desync
    ensures Flat(h[i]) != []
    ensures Owes(h[..i + 1]) <==> !Unnoticed(Flat(h[i])[|Flat(h[i])| - 1])
  {
    hide Validate, Owes, EngineRun, Enabled;
    RunAt(h, i);
    OrdinaryCourse(h[i], ms[i], ms[i + 1]);
    LastEventDecides(h[i]);
    OwesAfterOrdinary(h, i);
  }

  lemma OwesAfterOrdinary(h: seq<Step>, i: nat)
    requires EngineRun(h) && i < |h| && Ordinary(h[i])
    ensures !Owes(h[..i]) && (Owes(h[..i + 1]) <==> StepLoses(h[i]))
  {
    hide StepLoses, WellFormedStep, IsOpened;
    RunAt(h, i);
    assert h[..i + 1][..i] == h[..i] && h[..i + 1][i] == h[i];
  }

  /** Only the last event of an exchange can fail, and it says how the exchange
      ends. */
  lemma LastEventDecides(s: Step)
    requires Ordinary(s) && WellFormedStep(s) && (Loses(Flat(s)) || MissesIn(Flat(s)))
    ensures Flat(s) != []
    ensures StepLoses(s) <==> !Unnoticed(Flat(s)[|Flat(s)| - 1])
  {
    hide Validate;
    match s
    case Main(c, p) => LastPhaseDecides(p, Pad(c), c.direction, BufferOf(c));
    case CallerSense(c, p) => LastPhaseDecides(p, Pad(c), c.direction, BufferOf(c));
    case Sense(_, _, p) => LastPhaseDecides(p, Pad(SenseCommand()), DataIn, Zeros(UFI_SENSE_LENGTH));
  }

  lemma LastPhaseDecides(p: seq<Event>, block: CommandBlock, direction: Direction, buffer: seq<byte>)
    requires Exchange(p, block, direction, buffer) && (Loses(p) || MissesIn(p))
    ensures p != [] && (Loses(p) <==> !Unnoticed(p[|p| - 1])) && Status(p) != Ok
  {
    if Loses(p) {
      LosingFails(p, block, direction, buffer);
    }
    assert |p| > 1 ==> p[1..][0] == p[1];
    assert |p| > 2 ==> p[1..][1] == p[2] && p[2..][0] == p[2];
  }

  /** The i-th step put the adapter in a doubt the engine did not notice, and
      since then the doubt has lasted and no step has lost the phase or brought
      it back. */
  ghost predicate UnnoticedSince(h: seq<Step>, ms: seq<Mac>, i: nat)
    requires |ms| == |h| + 1
  {
    && i < |h| && Ordinary(h[i]) && !ms[i].desync
    && Flat(h[i]) != [] && Unnoticed(Flat(h[i])[|Flat(h[i])| - 1])
    && forall k :: i < k <= |h| ==>
         ms[k].desync && (k < |h| ==> !StepLoses(h[k]) && !Resynchronizes(h[k]))
  }

  /** The adapter doubts while the engine owes nothing exactly when such a step
      occurred and its doubt is unresolved. */
  lemma DoubtsAloneExactly(h: seq<Step>, ms: seq<Mac>)
    requires Composed(h, ms)
    ensures ms[|h|].desync && !Owes(h) <==> exists i :: UnnoticedSince(h, ms, i)
  {
    if i :| UnnoticedSince(h, ms, i) {
      UnnoticedLasts(h, ms, i, |h|);
      assert h[..|h|] == h;
    }
    if ms[|h|].desync && !Owes(h) {
      var i := UnnoticedStep(h, ms);
    }
  }

  lemma {:induction false} UnnoticedLasts(h: seq<Step>, ms: seq<Mac>, i: nat, n: nat)
    requires Composed(h, ms) && UnnoticedSince(h, ms, i) && i < n <= |h|
    ensures !Owes(h[..n])
    decreases n
  {
    hide StepLoses, Resynchronizes, Flat, Unnoticed, Reaches, EngineRun;
    if n == i + 1 {
      DoubtIsOwedUnlessUnnoticed(h, ms, i);
    } else {
      UnnoticedLasts(h, ms, i, n - 1);
      assert h[..n][..n - 1] == h[..n - 1] && h[..n][n - 1] == h[n - 1];
    }
  }

  lemma UnnoticedLonger(h: seq<Step>, ms: seq<Mac>, i: nat)
    requires h != [] && |ms| == |h| + 1 && UnnoticedSince(h[..|h| - 1], ms[..|h|], i)
    requires ms[|h|].desync && !StepLoses(h[|h| - 1]) && !Resynchronizes(h[|h| - 1])
    ensures UnnoticedSince(h, ms, i)
  {
    hide StepLoses, Resynchronizes, Flat, Unnoticed, Ordinary;
    var n := |h| - 1;
    assert forall k :: i <= k <= n ==> ms[..|h|][k] == ms[k] && (k < n ==> h[..n][k] == h[k]);
  }

  lemma {:induction false} UnnoticedStep(h: seq<Step>, ms: seq<Mac>) returns (i: nat)
    requires Composed(h, ms) && ms[|h|].desync && !Owes(h)
    ensures UnnoticedSince(h, ms, i)
    decreases |h|
  {
    hide StepLoses, Resynchronizes, Flat, Unnoticed, EngineRun, Owes;
    DoubtComesFrom(h, ms);
    var n := |h| - 1;
    if Ordinary(h[n]) {
      DoubtIsOwedUnlessUnnoticed(h, ms, n);
      assert h[..n + 1] == h;
      i := n;
    } else {
      ComposedPrefix(h, ms, n);
      hide Composed, UnnoticedSince, Ordinary;
      i := UnnoticedStep(h[..n], ms[..n + 1]);
      UnnoticedLonger(h, ms, i);
    }
  }

  /** A doubt the engine does not share was there before the last step, unless
      that step was a command; the step neither lost the phase nor brought it
      back. */
  lemma DoubtComesFrom(h: seq<Step>, ms: seq<Mac>)
    requires Composed(h, ms) && ms[|h|].desync && !Owes(h)
    ensures h != []
    ensures var n := |h| - 1;
            if Ordinary(h[n]) then !ms[n].desync
            else ms[n].desync && !Owes(h[..n]) && !StepLoses(h[n]) && !Resynchronizes(h[n])
  {
    hide Exchange, Validate, RecoveryAttempt, Loses, EngineRun, IsOpened, Stale;
    var n := |h| - 1;
    assert h[..n + 1] == h;
    RunAt(h, n);
    FlagsAgreeAt(h, ms, n);
    match h[n]
    case Opened(s) => ReachesOne(ms[n], Open(s), ms[n + 1]);
    case Closed(s) => ReachesOne(ms[n], Close(s), ms[n + 1]);
    case Destroyed(closing) =>
      if closing != [] { assert closing == [closing[0]]; ReachesOne(ms[n], closing[0], ms[n + 1]); }
    case Recovery(_, _, _, _) => RecoveryCourse(h[n], ms[n], ms[n + 1]);
    case _ => OrdinaryOnlyInStep(h, ms, n);
  }

  // ----- when a request is left over -----

  /** The i-th step was a command sent while a failed close had left the
      adapter closed; it left a request behind that is still there. */
  ghost predicate LeftWhileStale(h: seq<Step>, ms: seq<Mac>, i: nat)
    requires |ms| == |h| + 1
  {
    && i < |h| && Ordinary(h[i]) && Stale(h[..i]) && !ms[i].pending
    && forall k :: i < k <= |h| ==> ms[k].pending
  }

  lemma {:induction false} PendingWhileClosed(h: seq<Step>, ms: seq<Mac>) returns (i: nat)
    requires Composed(h, ms) && ms[|h|].pending && !ms[|h|].open
    ensures LeftWhileStale(h, ms, i)
    decreases |h|
  {
    var n := |h| - 1;
    PendingComesFrom(h, ms);
    if ms[n].pending {
      ComposedPrefix(h, ms, n);
      i := PendingWhileClosed(h[..n], ms[..n + 1]);
      LeftLonger(h, ms, i);
    } else {
      i := n;
    }
  }

  lemma LeftLonger(h: seq<Step>, ms: seq<Mac>, i: nat)
    requires h != [] && |ms| == |h| + 1 && ms[|h|].pending
    requires LeftWhileStale(h[..|h| - 1], ms[..|h|], i)
    ensures LeftWhileStale(h, ms, i)
  {
    hide Stale;
    var n := |h| - 1;
    assert h[..n][..i] == h[..i];
    assert forall k :: i < k <= n ==> ms[..n + 1][k] == ms[k];
  }

  /** What a request held by a closed adapter, or without doubt, was before the
      last step. */
  lemma PendingComesFrom(h: seq<Step>, ms: seq<Mac>)
    requires Composed(h, ms) && ms[|h|].pending && (!ms[|h|].open || !ms[|h|].desync)
    ensures h != []
    ensures var n := |h| - 1;
            !ms[|h|].open ==> if ms[n].pending then !ms[n].open else Ordinary(h[n]) && Stale(h[..n])
    ensures var n := |h| - 1;
            !ms[|h|].desync ==> ms[n].pending && (ms[n].desync ==> h[n].Opened? && !ms[n].open)
  {
    hide Exchange, Validate, RecoveryAttempt, Loses, EngineRun, Stale, Owes;
    var n := |h| - 1;
    RunAt(h, n);
    FlagsAgreeAt(h, ms, n);
    match h[n]
    case Opened(s) => ReachesOne(ms[n], Open(s), ms[n + 1]);
    case Closed(s) => ReachesOne(ms[n], Close(s), ms[n + 1]);
    case Destroyed(closing) =>
      if closing != [] { assert closing == [closing[0]]; ReachesOne(ms[n], closing[0], ms[n + 1]); }
    case Recovery(_, _, _, _) => RecoveryCourse(h[n], ms[n], ms[n + 1]);
    case _ => OrdinaryCourse(h[n], ms[n], ms[n + 1]);
  }

  /** A request held without doubt: a command left it while a failed close had
      the adapter closed, the adapter was opened since, and the doubt ended
      with that. */
  ghost predicate HeldOver(h: seq<Step>, ms: seq<Mac>, i: nat, j: nat)
    requires |ms| == |h| + 1
  {
    && LeftWhileStale(h, ms, i) && i < j < |h| && h[j].Opened? && ms[j].desync
    && forall k :: j < k <= |h| ==> !ms[k].desync
  }

  lemma HeldLonger(h: seq<Step>, ms: seq<Mac>, i: nat, j: nat)
    requires h != [] && |ms| == |h| + 1 && ms[|h|].pending && !ms[|h|].desync
    requires HeldOver(h[..|h| - 1], ms[..|h|], i, j)
    ensures HeldOver(h, ms, i, j)
  {
    LeftLonger(h, ms, i);
    hide LeftWhileStale;
    assert forall k :: j <= k < |h| ==> ms[..|h|][k] == ms[k];
  }

  lemma {:induction false} HeldOverSteps(h: seq<Step>, ms: seq<Mac>) returns (i: nat, j: nat)
    requires Composed(h, ms) && ms[|h|].pending && !ms[|h|].desync
    ensures HeldOver(h, ms, i, j)
    decreases |h|
  {
    PendingComesFrom(h, ms);
    var n := |h| - 1;
    ComposedPrefix(h, ms, n);
    hide Composed, LeftWhileStale;
    if ms[n].desync {
      i := PendingWhileClosed(h[..n], ms[..n + 1]);
      j := n;
      LeftLonger(h, ms, i);
      LeftBefore(h[..n], ms[..n + 1], i);
    } else {
      i, j := HeldOverSteps(h[..n], ms[..n + 1]);
      HeldLonger(h, ms, i, j);
    }
  }

  lemma LeftBefore(h: seq<Step>, ms: seq<Mac>, i: nat)
    requires |ms| == |h| + 1 && LeftWhileStale(h, ms, i)
    ensures i < |h| && ms[|h|].pending
  {
  }

  /** Between steps the adapter holds a request without doubting exactly when a
      command left one behind while the adapter was stale and an open has
      since dropped the doubt but not the request. */
  lemma HeldWithoutDoubtExactly(h: seq<Step>, ms: seq<Mac>)
    requires Composed(h, ms)
    ensures ms[|h|].pending && !ms[|h|].desync <==> exists i, j :: HeldOver(h, ms, i, j)
  {
    hide LeftWhileStale;
    if ms[|h|].pending && !ms[|h|].desync {
      var i, j := HeldOverSteps(h, ms);
    }
    if i, j :| HeldOver(h, ms, i, j) {
      LeftBefore(h, ms, i);
    }
  }

  /** The engine stops owing a reset only together with the adapter: by a
      recovery whose finish also ended the adapter's own doubt, or by an open
      that really opened. Finish never refuses. */
  lemma DebtEndsInStep(h: seq<Step>, ms: seq<Mac>, i: nat)
    requires Composed(h, ms) && i < |h|
    ensures Owes(h[..i]) && !Owes(h[..i + 1]) ==>
              Resynchronizes(h[i]) && ms[i + 1].open && !ms[i + 1].desync && !ms[i + 1].armed
              && (h[i].Recovery? ==> !ms[i + 1].pending)
    ensures h[i].Recovery? && h[i].prepare == Ok ==>
              |h[i].finish| == 1 && h[i].finish[0].status == Ok
    ensures h[i].Opened? ==> !ms[i].open
  {
    hide Exchange, Validate, RecoveryAttempt, StepLoses, Loses;
    FlagsAgreeAt(h, ms, i);
    FlagsAgreeAt(h, ms, i + 1);
    RunAt(h, i);
    assert h[..i + 1][..i] == h[..i] && h[..i + 1][i] == h[i];
    if h[i].Recovery? {
      if h[i].prepare == Ok {
        FinishIsOne(h[i]);
      }
      RecoveryCourse(h[i], ms[i], ms[i + 1]);
    } else if h[i].Opened? {
      ReachesOne(ms[i], Open(h[i].status), ms[i + 1]);
    }
  }

  lemma FinishIsOne(s: Step)
    requires s.Recovery? && WellFormedStep(s) && s.prepare == Ok
    ensures |s.finish| == 1 && s.finish == [s.finish[0]] && s.finish[0].Finish?
  {
  }

  /** A doubt of the adapter's that the engine missed, or an interrupt request
      left over, costs one command: it is turned away unsent, and the next
      command the allowlist accepts begins by preparing a reset. */
  lemma MissCostsOneCommand(h: seq<Step>, ms: seq<Mac>, c: Command, steps: seq<Step>)
    requires Composed(h + steps, ms) && !Owes(h)
    requires IsOpened(h) && Validate(c) && CommandSteps(true, false, c, steps)
    requires ms[|h|].desync || ms[|h|].pending
    ensures |steps| == 1 && |Flat(steps[0])| == 1 && ms[|ms| - 1] == ms[|h|]
    ensures ResultOf(c, steps).transport == BadProtocol
    ensures Owes(h + steps) && IsOpened(h + steps)
    ensures forall d: Command, next: seq<Step> ::
              Validate(d) && CommandSteps(true, true, d, next) ==> next != [] && Flat(next[0])[0].Prepare?
  {
    hide Exchange, Validate, EngineRun, RecoveryAttempt;
    var run, i := h + steps, |h|;
    assert run[i] == steps[0] && run[..i] == h && run[..i + 1][..i] == h;
    OrdinaryOnlyInStep(run, ms, i);
    RefusedStepEnds(c, steps);
    assert steps == [steps[0]] && run[..i + 1] == run;
  }

  lemma RefusedStepEnds(c: Command, steps: seq<Step>)
    requires ExchangeSteps(c, steps)
    requires |Flat(steps[0])| == 1 && Flat(steps[0])[0].Adsc? && Flat(steps[0])[0].status == Protocol
    ensures |steps| == 1 && ResultOf(c, steps).transport == BadProtocol
  {
  }

  /** While a failed close keeps the two apart nothing can recover, and one
      further release always succeeds. */
  lemma StaleEndsWithRelease(h: seq<Step>, ms: seq<Mac>, i: nat)
    requires Composed(h, ms) && i < |h| && Stale(h[..i])
    ensures h[i].Recovery? ==> h[i].prepare == Protocol
    ensures h[i].Closed? ==> h[i].status == Ok && !IsOpened(h[..i + 1]) && !Stale(h[..i + 1])
  {
    hide Exchange, Validate, RecoveryAttempt, StepLoses;
    FlagsAgreeAt(h, ms, i);
    RunAt(h, i);
    assert h[..i + 1][..i] == h[..i] && h[..i + 1][i] == h[i];
    if h[i].Recovery? {
      RecoveryCourse(h[i], ms[i], ms[i + 1]);
    } else if h[i].Closed? {
      ReachesOne(ms[i], Close(h[i].status), ms[i + 1]);
    }
  }

  lemma AfterFirstOpen()
    ensures EngineRun([Opened(Ok)]) && IsOpened([Opened(Ok)]) && !Owes([Opened(Ok)]) && Flat(Opened(Ok)) == [Open(Ok)]
  {
    var s := Opened(Ok);
    assert [s][..0] == [] && EngineRun([]) && WellFormedStep(s) && Enabled([], s);
  }

  lemma ReachesInOne(m: Mac, e: Event, n: Mac)
    requires MacStep(m, e, n)
    ensures Reaches(m, [e], n)
  {
    assert [e][1..] == [] && Reaches(n, [], n);
  }

  /** An acquire that reports success without opening can leave the adapter
      closed: it does so after a close that timed out. */
  lemma AcquireAfterFailedClose() returns (h: seq<Step>, ms: seq<Mac>)
    ensures Composed(h, ms) && IsOpened(h) && !Owes(h) && !ms[|h|].open
  {
    var first, open := Mac(false, false, false, false), Mac(true, false, false, false);
    var s, t := Opened(Ok), Closed(Timeout);
    h, ms := [s, t], [first, open, first];
    AfterFirstOpen();
    assert h[..1] == [s] && EngineRun(h);
    ReachesInOne(first, Open(Ok), open);
    ReachesInOne(open, Close(Timeout), first);
  }

  /** The two doubts do differ: a completion that fails with "no device" puts
      the adapter out of step and costs the engine nothing. */
  lemma AdapterCanDoubtAlone() returns (h: seq<Step>, ms: seq<Mac>)
    ensures Composed(h, ms) && ms[|h|].desync && !Owes(h)
  {
    var first, open := Mac(false, false, false, false), Mac(true, false, false, false);
    var c := SimpleCommand(CdbTestUnitReady(), 6, NoData, Null(0));
    ValidateContains(c);
    var sent, failed := Adsc(Pad(c), Ok), Interrupt([0, 0], 0, NoDevice);
    var s, t := Opened(Ok), Main(c, [sent, failed]);
    h, ms := [s, t], [first, open, open.(desync := true)];
    assert Pad(c)[0] == c.cdb[0] == 0;
    assert [sent, failed][1..] == [failed] && WellFormedStep(t);
    hide Validate, Exchange, EngineRun, WellFormedStep;
    AfterFirstOpen();
    assert h[..1] == [s] && Enabled([s], t);
    UnlostRun([s], t, [sent, failed]);
    assert [s] + [t] == h;
    ReachesInOne(first, Open(Ok), open);
    ReachesInOne(open, failed, ms[2]);
    assert MacStep(open, sent, open);
    assert Reaches(open, Flat(t), ms[2]);
  }

  lemma UnlostRun(h: seq<Step>, s: Step, p: seq<Event>)
    requires EngineRun(h) && WellFormedStep(s) && Enabled(h, s) && !Owes(h) && s.Main? && s.phases == p
    requires |p| == 2 && !EventLoses(p[0]) && !EventLoses(p[1])
    ensures EngineRun(h + [s]) && !Owes(h + [s])
  {
    hide WellFormedStep, Enabled;
    assert (h + [s])[..|h|] == h;
    assert !Loses(p);
  }
}
