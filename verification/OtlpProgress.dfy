/**
 What the handshake achieves, in every run: while the exporter is up an emitter that goes on gets through to it, a
 teardown that found the counter at zero ends with the exporter freed, and a stopped tick thread flushes and exits.
 */
module OtlpProgress {
  import opened OtlpTeardown

  // ----- Emitters -----

  predicate IsOwn(ev: Event, e: nat) {
    ev.Emit? && ev.emitter == e
  }

  /** How many of the events `a` up to `b` are steps of emitter `e`. */
  function OwnSteps(events: seq<Event>, e: nat, a: nat, b: nat): nat
    requires a <= b <= |events|
    decreases b - a
  {
    if a == b then 0 else OwnSteps(events, e, a, b - 1) + if IsOwn(events[b - 1], e) then 1 else 0
  }

  /** The exporter is up: door open, thread not done, pointer set. */
  predicate IsUp(g: Shared) {
    g.doorOpen && g.running && g.exporterSet
  }

  /** How far an emitter has come. */
  function Stage(pc: Emitter): nat {
    match pc
    case Outside => 0
    case SawOpen => 1
    case Counted => 2
    case Entered => 3
    case Ensuring => 4
    case Spawning => 5
    case Emitting => 6
    case Leaving => 7
  }

  /** Event `m` is emitter `e` handing a record to the exporter. */
  ghost predicate HandsOver(states: seq<State>, events: seq<Event>, e: nat, m: nat)
    requires |states| == |events| + 1
  {
    && m < |events| && IsOwn(events[m], e)
    && e in states[m].emitters && states[m].emitters[e].Emitting?
    && states[m + 1].g.uses == states[m].g.uses + 1
  }

  lemma EmitterGoesOn(s: State, s': State, ev: Event, e: nat)
    requires Next(s, s', ev) && e in s.emitters
    ensures e in s'.emitters
    ensures !IsOwn(ev, e) ==> s'.emitters[e] == s.emitters[e]
    ensures IsOwn(ev, e) && s.emitters[e].Emitting? ==> s'.g.uses == s.g.uses + 1
    ensures IsOwn(ev, e) && IsUp(s.g) && !s.emitters[e].Emitting? && !s.emitters[e].Leaving? ==>
              Stage(s.emitters[e]) < Stage(s'.emitters[e]) && !s'.emitters[e].Leaving?
  {
  }

  lemma {:induction false} GetsFurther(states: seq<State>, events: seq<Event>, e: nat, a: nat, b: nat)
    requires IsRun(states, events) && a <= b <= |events|
    requires e in states[a].emitters && states[a].emitters[e].Outside?
    requires forall n :: a <= n < b ==> IsUp(states[n].g)
    ensures e in states[b].emitters
    ensures (exists m :: a <= m < b && HandsOver(states, events, e, m))
            || (Stage(states[b].emitters[e]) >= OwnSteps(events, e, a, b) && !states[b].emitters[e].Leaving?)
    decreases b - a
  {
    hide Stage;
    if a == b {
      OutsideIsFirst();
    } else {
      var n := b - 1;
      GetsFurther(states, events, e, a, n);
      assert Next(states[n], states[n + 1], events[n]);
      EmitterGoesOn(states[n], states[b], events[n], e);
      if IsOwn(events[n], e) && states[n].emitters[e].Emitting? {
        assert HandsOver(states, events, e, n);
      }
    }
  }

  lemma OutsideIsFirst()
    ensures Stage(Outside) == 0
  {
  }

  /** Seven steps of an emitter, whatever runs between them, hand a record over if the exporter is up meanwhile. */
  lemma EmittersGetThrough(states: seq<State>, events: seq<Event>, e: nat, a: nat, b: nat)
    requires IsRun(states, events) && a <= b <= |events|
    requires e in states[a].emitters && states[a].emitters[e].Outside?
    requires forall n :: a <= n < b ==> IsUp(states[n].g)
    requires OwnSteps(events, e, a, b) >= 7
    ensures exists m :: a <= m < b && HandsOver(states, events, e, m)
  {
    GetsFurther(states, events, e, a, b);
  }

  // ----- The teardown -----

  /** A teardown past its drain, and what it has done by now. */
  ghost predicate Finishes(s: State) {
    && Drained(s.teardown) && !s.g.doorOpen
    && (!s.teardown.Stopping? ==> s.g.stopSignal)
    && (JustFreed(s.teardown) ==> s.g.freed)
    && (s.teardown.ClearingRunning? ==> !s.g.exporterSet)
  }

  ghost predicate IsDown(g: Shared) {
    !g.doorOpen && g.stopSignal && g.freed && !g.exporterSet && !g.running
  }

  /** Emitters leave the teardown's flags alone. */
  lemma EmitLeaves(g: Shared, pc: Emitter, created: bool)
    ensures var g' := EmitStep(g, pc, created).0;
            && g'.doorOpen == g.doorOpen && g'.stopSignal == g.stopSignal && g'.freed == g.freed
            && g'.exporterSet == g.exporterSet && g'.running == g.running
  {
    match pc {
      case Outside => {}
      case SawOpen => {}
      case Counted => {}
      case Entered => {}
      case Ensuring => {}
      case Spawning => {}
      case Emitting => {}
      case Leaving => {}
    }
  }

  /** So does the tick thread, but for the running flag, which it only takes down. */
  lemma TickLeaves(g: Shared, pc: Ticker)
    ensures var g' := TickStep(g, pc).0;
            && g'.doorOpen == g.doorOpen && g'.stopSignal == g.stopSignal && g'.freed == g.freed
            && g'.exporterSet == g.exporterSet && (g'.running ==> g.running)
  {
    match pc {
      case Looping => {}
      case Ticking => {}
      case LastTick => {}
      case ShuttingDown => {}
      case Flushing => {}
      case Finishing => {}
      case Exited => {}
    }
  }

  lemma TeardownGoesOn(g: Shared, t: Teardown)
    requires Finishes(State(g, map[], [], t))
    ensures var (g', t') := TeardownStep(g, t);
            if t'.Resting? then IsDown(g') else Finishes(State(g', map[], [], t'))
  {
  }

  lemma FinishGoesOn(s: State, s': State, ev: Event)
    requires Next(s, s', ev) && Finishes(s)
    ensures if s'.teardown.Resting? then IsDown(s'.g) else Finishes(s')
  {
    hide EmitStep, TickStep, TeardownStep, AllExited;
    match ev {
      case Emit(e, created) => EmitLeaves(s.g, s.emitters[e], created);
      case Tick(i) => TickLeaves(s.g, s.tickers[i]);
      case TearDown => TeardownGoesOn(s.g, s.teardown);
    }
  }

  lemma {:induction false} FinishesInRun(states: seq<State>, events: seq<Event>, a: nat, b: nat)
    requires IsRun(states, events) && a <= b <= |events| && Finishes(states[a])
    requires forall n :: a <= n < b ==> !states[n].teardown.Resting?
    ensures if states[b].teardown.Resting? then IsDown(states[b].g) else Finishes(states[b])
    decreases b - a
  {
    if a < b {
      FinishesInRun(states, events, a, b - 1);
      assert Next(states[b - 1], states[b - 1 + 1], events[b - 1]);
      FinishGoesOn(states[b - 1], states[b], events[b - 1]);
    }
  }

  /**
   A teardown whose drain reads the counter at zero in time returns, if it returns, with the door shut, the thread
   told to stop, the exporter freed and forgotten and the running flag down.
   */
  lemma DrainedTeardownFrees(states: seq<State>, events: seq<Event>, a: nat, b: nat)
    requires IsRun(states, events) && a < b <= |events| && events[a].TearDown?
    requires states[a].teardown.Draining? && states[a].teardown.waits < 30000 && states[a].g.busy == 0
    requires states[b].teardown.Resting? && forall n :: a < n < b ==> !states[n].teardown.Resting?
    ensures IsDown(states[b].g)
  {
    RunKeeps(states, events, a);
    assert Next(states[a], states[a + 1], events[a]);
    FinishesInRun(states, events, a + 1, b);
  }

  /** A teardown waits in its drain while the counter is up, 30000 times at most, and then gives up. */
  lemma DrainWaits(states: seq<State>, events: seq<Event>, a: nat)
    requires IsRun(states, events) && a < |events| && events[a].TearDown? && states[a].teardown.Draining?
    ensures states[a + 1].g == states[a].g
    ensures states[a].teardown.waits < 30000 && states[a].g.busy != 0 ==>
              states[a + 1].teardown == Draining(states[a].teardown.waits + 1)
    ensures states[a].teardown.waits >= 30000 ==> states[a + 1].teardown.Resting?
  {
    assert Next(states[a], states[a + 1], events[a]);
  }

  /** A call that finds the exporter running shuts the door and starts to drain; otherwise it changes nothing. */
  lemma TeardownBegins(states: seq<State>, events: seq<Event>, a: nat)
    requires IsRun(states, events) && a < |events| && events[a].TearDown?
    ensures states[a].teardown.Called? ==>
              states[a + 1].g == states[a].g
              && states[a + 1].teardown == if states[a].g.running then ClosingDoor else Resting
    ensures states[a].teardown.ClosingDoor? ==>
              states[a + 1].g == states[a].g.(doorOpen := false) && states[a + 1].teardown == Draining(0)
  {
    assert Next(states[a], states[a + 1], events[a]);
  }

  // ----- The tick thread -----

  function Ticks(events: seq<Event>, i: nat, a: nat, b: nat): nat
    requires a <= b <= |events|
    decreases b - a
  {
    if a == b then 0 else Ticks(events, i, a, b - 1) + if events[b - 1] == Tick(i) then 1 else 0
  }

  /** The way out of the loop: one last tick, shut down, flush, clear the flag. */
  function WayOut(pc: Ticker): nat {
    match pc
    case Ticking => 0
    case Looping => 1
    case LastTick => 2
    case ShuttingDown => 3
    case Flushing => 4
    case Finishing => 5
    case Exited => 6
  }

  predicate UsesExporter(pc: Ticker) {
    pc.Ticking? || pc.LastTick? || pc.ShuttingDown? || pc.Flushing?
  }

  lemma OneTick(g: Shared, pc: Ticker)
    requires g.stopSignal && !pc.Exited?
    ensures var (g', pc') := TickStep(g, pc);
            && g'.stopSignal && WayOut(pc') == WayOut(pc) + 1
            && g'.uses == g.uses + (if UsesExporter(pc) then 1 else 0)
            && (pc'.Exited? ==> !g'.running)
  {
    match pc {
      case Looping => {}
      case Ticking => {}
      case LastTick => {}
      case ShuttingDown => {}
      case Flushing => {}
      case Finishing => {}
    }
  }

  /** The stop signal, once set, stays, and nobody else moves the thread. */
  lemma StopStays(s: State, s': State, ev: Event, i: nat)
    requires Next(s, s', ev) && i < |s.tickers| && s.g.stopSignal && ev != Tick(i)
    ensures i < |s'.tickers| && s'.g.stopSignal && s'.tickers[i] == s.tickers[i]
  {
    hide EmitStep, TickStep, AllExited;
    match ev {
      case Emit(e, created) => EmitLeaves(s.g, s.emitters[e], created);
      case Tick(j) => TickLeaves(s.g, s.tickers[j]);
      case TearDown =>
    }
  }

  lemma TickerGoesOn(s: State, s': State, ev: Event, i: nat)
    requires Next(s, s', ev) && i < |s.tickers| && s.g.stopSignal
    ensures i < |s'.tickers| && s'.g.stopSignal
    ensures ev != Tick(i) ==> s'.tickers[i] == s.tickers[i]
    ensures ev == Tick(i) ==>
              && WayOut(s'.tickers[i]) == WayOut(s.tickers[i]) + 1
              && s'.g.uses == s.g.uses + (if UsesExporter(s.tickers[i]) then 1 else 0)
              && (s'.tickers[i].Exited? ==> !s'.g.running)
  {
    hide EmitStep, TickStep, TeardownStep, AllExited, WayOut;
    if ev == Tick(i) {
      OneTick(s.g, s.tickers[i]);
    } else {
      StopStays(s, s', ev, i);
    }
  }

  /** Once told to stop, the tick thread takes its way out step by step and skips none of it. */
  lemma {:induction false} StoppedThreadExits(states: seq<State>, events: seq<Event>, i: nat, a: nat, b: nat)
    requires IsRun(states, events) && a <= b <= |events|
    requires i < |states[a].tickers| && states[a].g.stopSignal
    ensures i < |states[b].tickers| && states[b].g.stopSignal
    ensures WayOut(states[b].tickers[i]) == WayOut(states[a].tickers[i]) + Ticks(events, i, a, b)
    decreases b - a
  {
    hide WayOut;
    if a < b {
      StoppedThreadExits(states, events, i, a, b - 1);
      assert Next(states[b - 1], states[b - 1 + 1], events[b - 1]);
      TickerGoesOn(states[b - 1], states[b], events[b - 1], i);
    }
  }
}
