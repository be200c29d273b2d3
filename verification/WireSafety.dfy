/** The safety of the engine's runs (src/cbi.c) as a statement about the events
    on the wire alone. */
module WireSafety {
  import opened Ufi
  import opened CbiProtocol
  import opened Composition

  /** Where the n-th step begins among the events of a run. */
  ghost function StartOf(h: seq<Step>, n: nat): nat
    requires n <= |h|
  {
    |FlatAll(h[..n])|
  }

  lemma {:induction false} StepLies(h: seq<Step>, n: nat)
    requires n < |h|
    ensures StartOf(h, n) + |Flat(h[n])| == StartOf(h, n + 1) <= |FlatAll(h)|
    ensures FlatAll(h)[StartOf(h, n)..StartOf(h, n + 1)] == Flat(h[n])
    decreases |h|
  {
    hide Flat;
    assert h[..n + 1][..n] == h[..n] && h[..n + 1][n] == h[n];
    if n == |h| - 1 {
      assert h[..n + 1] == h;
    } else {
      var g := h[..|h| - 1];
      StepLies(g, n);
      assert g[..n] == h[..n] && g[..n + 1] == h[..n + 1];
    }
  }

  lemma {:induction false} StartsGrow(h: seq<Step>, n: nat, m: nat)
    requires n <= m <= |h|
    ensures StartOf(h, n) <= StartOf(h, m)
    decreases m
  {
    hide Flat;
    if n < m {
      StepLies(h, m - 1);
      StartsGrow(h, n, m - 1);
    }
  }

  /** The step an event belongs to. */
  lemma {:induction false} StepOf(h: seq<Step>, i: nat) returns (n: nat, o: nat)
    requires i < |FlatAll(h)|
    ensures n < |h| && o < |Flat(h[n])| && i == StartOf(h, n) + o
    ensures FlatAll(h)[i] == Flat(h[n])[o]
    decreases |h|
  {
    hide Flat;
    var last := |h| - 1;
    var g := h[..last];
    assert FlatAll(h) == FlatAll(g) + Flat(h[last]);
    if i < |FlatAll(g)| {
      n, o := StepOf(g, i);
      assert g[..n] == h[..n];
    } else {
      n, o := last, i - |FlatAll(g)|;
    }
  }

  /** The six events of a complete reset. */
  const RESET_EVENTS: seq<Event> :=
    [Prepare(Ok), Adsc([0x1d, 0x04, 0xff, 0xff, 0xff, 0xff, 0xff, 0xff, 0xff, 0xff, 0xff, 0xff], Ok),
     Interrupt([0, 0], 2, Ok),
     ClearStall(DataIn, Ok), ClearStall(DataOut, Ok), Finish(true, Ok)]

  /** Strictly between i and j the events hold a successful open or a complete
      reset, starting at k. */
  ghost predicate BackInPhase(t: seq<Event>, i: nat, j: nat, k: nat) {
    && i < k < j <= |t|
    && (t[k] == Open(Ok) || (k + |RESET_EVENTS| <= j && t[k..k + |RESET_EVENTS|] == RESET_EVENTS))
  }

  /** In every run, between an operation that loses the phase and a later
      command block other than the reset block there is a complete reset or a
      successful open. */
  lemma NoBlockBeforeRecovery(h: seq<Step>, i: nat, j: nat)
    requires EngineRun(h) && i < j < |FlatAll(h)|
    requires var t := FlatAll(h);
             && EventLoses(t[i]) && !t[i].Open? && !t[i].Close?
             && t[j].Adsc? && t[j].block != RESET_BLOCK
    ensures exists k :: BackInPhase(FlatAll(h), i, j, k)
  {
    hide FlatAll, EngineRun, EventLoses;
    var n, o := StepOf(h, i);
    var m, q := StepOf(h, j);
    RunAt(h, n);
    RunAt(h, m);
    EventsOfStep(h[n], o);
    EventsOfStep(h[m], q);
    if m <= n {
      StartsGrow(h, m, n);
    }
    assert Loses(Flat(h[n]));
    hide Flat, WellFormedStep, Ordinary;
    NoCommandAfterWireLoss(h, n, m);
    var k :| n < k < m && Resynchronizes(h[k]);
    RunAt(h, k);
    BackAt(h, n, m, k);
    StepLies(h, n);
    assert BackInPhase(FlatAll(h), i, j, StartOf(h, k));
  }

  /** Which events a step can hold: a block other than the reset block only as
      the first event of a command, and a loss only in a command or a
      recovery, opens and closes aside. */
  lemma EventsOfStep(s: Step, o: nat)
    requires WellFormedStep(s) && o < |Flat(s)|
    ensures var e := Flat(s)[o];
            && (e.Adsc? && e.block != RESET_BLOCK ==> Ordinary(s) && o == 0)
            && (!e.Open? && !e.Close? ==> Ordinary(s) || s.Recovery?)
  {
    hide Exchange, Validate;
    if Ordinary(s) {
      OrdinaryShape(s);
      if o > 0 {
        assert Flat(s)[o] == Flat(s)[1..][o - 1];
      }
    } else if s.Recovery? && s.prepare == Ok {
      ExchangeShape(s.reset, RESET_BLOCK, NoData, []);
      if 1 < o <= |s.reset| {
        assert Flat(s)[o] == s.reset[1..][o - 2];
      }
    }
  }

  lemma BackAt(h: seq<Step>, n: nat, m: nat, k: nat)
    requires n < k < m < |h| && Resynchronizes(h[k]) && WellFormedStep(h[k])
    ensures var t, start := FlatAll(h), StartOf(h, k);
            && StartOf(h, n + 1) <= start < StartOf(h, m) <= |t|
            && (t[start] == Open(Ok)
                || (start + |RESET_EVENTS| <= StartOf(h, m) && t[start..start + |RESET_EVENTS|] == RESET_EVENTS))
  {
    hide FlatAll;
    StepLies(h, k);
    StartsGrow(h, n + 1, k);
    StartsGrow(h, k + 1, m);
    StepLies(h, m);
    if Recovered(h[k]) {
      RecoveredIsCompleteReset(h[k]);
    } else {
      assert Flat(h[k]) == [Open(Ok)];
      assert FlatAll(h)[StartOf(h, k)..StartOf(h, k + 1)][0] == Open(Ok);
    }
  }
}
