/**
 The live exporter's teardown handshake: emitters pass a door and are counted while inside, the first
 of them starts the tick thread, and the teardown closes the door, waits for the count to drain, stops
 and joins the tick thread, and only then frees the exporter. Every atomic access and every use
 of the exporter is one step; steps interleave freely and are sequentially consistent.
 */
module OtlpTeardown {

  datatype Emitter =
    | Outside
    | SawOpen            // door read open; not counted yet
    | Counted            // counter raised; door not read again yet
    | Entered            // door read open under the count
    | Ensuring           // about to compare-and-swap the spawn flag
    | Spawning           // won the flag; thread creation not answered yet
    | Emitting           // about to hand a record to the exporter
    | Leaving            // about to lower the counter

  datatype Ticker =
    | Looping            // about to read the stop signal
    | Ticking
    | LastTick
    | ShuttingDown
    | Flushing
    | Finishing          // about to clear the running flag
    | Exited

  datatype Teardown =
    | Resting            // not in a call
    | Called
    | ClosingDoor
    | Draining(waits: nat)
    | Stopping
    | CheckingThread
    | Joining
    | ReadingStats
    | Freeing
    | Forgetting         // freed; pointer not cleared yet
    | ClearingRunning

  const MAX_WAITS: nat := 30000

  /** The shared flags and counter, the exporter, whether it was used after the free, and how often it was used. */
  datatype Shared = Shared(
    doorOpen: bool,
    busy: int,
    spawned: bool,
    running: bool,
    stopSignal: bool,
    exporterSet: bool,
    freed: bool,
    fault: bool,
    uses: nat)

  datatype State = State(
    g: Shared,
    emitters: map<nat, Emitter>,
    tickers: seq<Ticker>,
    teardown: Teardown)

  /** A use of the exporter; a use after the free is a fault. */
  function Touch(g: Shared): Shared {
    g.(fault := g.fault || g.freed, uses := g.uses + 1)
  }

  // ----- Steps -----

  /** One step of an emitter; `created` is the answer of thread creation where one is asked for. */
  function EmitStep(g: Shared, pc: Emitter, created: bool): (Shared, Emitter) {
    match pc
    case Outside => (g, if g.doorOpen then SawOpen else Outside)
    case SawOpen => (g.(busy := g.busy + 1), Counted)
    case Counted => (g, if g.doorOpen then Entered else Leaving)
    case Entered => (g, if g.running && g.exporterSet then Ensuring else Leaving)
    case Ensuring => if g.spawned then (g, Emitting) else (g.(spawned := true), Spawning)
    case Spawning => (if created then g else g.(spawned := false), Emitting)
    case Emitting => (Touch(g), Leaving)
    case Leaving => (g.(busy := g.busy - 1), Outside)
  }

  function TickStep(g: Shared, pc: Ticker): (Shared, Ticker) {
    match pc
    case Looping => (g, if g.stopSignal then LastTick else Ticking)
    case Ticking => (Touch(g), Looping)
    case LastTick => (Touch(g), ShuttingDown)
    case ShuttingDown => (Touch(g), Flushing)
    case Flushing => (Touch(g), Finishing)
    case Finishing => (g.(running := false), Exited)
    case Exited => (g, Exited)
  }

  /** The teardown may be called again after it returns. */
  function TeardownStep(g: Shared, pc: Teardown): (Shared, Teardown) {
    match pc
    case Resting => (g, Called)
    case Called => (g, if g.running then ClosingDoor else Resting)
    case ClosingDoor => (g.(doorOpen := false), Draining(0))
    case Draining(waits) =>
      if waits >= MAX_WAITS then (g, Resting)         // leak, never free under a caller
      else if g.busy == 0 then (g, Stopping)
      else (g, Draining(waits + 1))
    case Stopping => (g.(stopSignal := true), CheckingThread)
    case CheckingThread => (g, if g.spawned then Joining else ReadingStats)
    case Joining => (g, ReadingStats)
    case ReadingStats => (Touch(g), Freeing)
    case Freeing => (Touch(g).(freed := true), Forgetting)
    case Forgetting => (g.(exporterSet := false), ClearingRunning)
    case ClearingRunning => (g.(running := false), Resting)
  }

  predicate AllExited(tickers: seq<Ticker>) {
    forall i :: 0 <= i < |tickers| ==> tickers[i].Exited?
  }

  datatype Event = Emit(emitter: nat, created: bool) | Tick(ticker: nat) | TearDown

  /** A join returns only when the thread has exited. */
  ghost predicate Next(s: State, s': State, ev: Event) {
    match ev
    case Emit(e, created) =>
      && e in s.emitters
      && var (g', pc') := EmitStep(s.g, s.emitters[e], created);
         s' == State(g', s.emitters[e := pc'],
                     if s.emitters[e].Spawning? && created then s.tickers + [Looping] else s.tickers,
                     s.teardown)
    case Tick(i) =>
      && i < |s.tickers| && !s.tickers[i].Exited?
      && var (g', pc') := TickStep(s.g, s.tickers[i]);
         s' == State(g', s.emitters, s.tickers[i := pc'], s.teardown)
    case TearDown =>
      && (s.teardown.Joining? ==> AllExited(s.tickers))
      && var (g', pc') := TeardownStep(s.g, s.teardown);
         s' == State(g', s.emitters, s.tickers, pc')
  }

  /** After initialisation: the door is open and no thread has been started. */
  ghost predicate Init(s: State) {
    && s.g == Shared(true, 0, false, true, false, true, false, false, 0)
    && (forall e :: e in s.emitters ==> s.emitters[e].Outside?)
    && s.tickers == [] && s.teardown.Resting?
  }

  ghost predicate IsRun(states: seq<State>, events: seq<Event>) {
    && |states| == |events| + 1
    && Init(states[0])
    && forall i :: 0 <= i < |events| ==> Next(states[i], states[i + 1], events[i])
  }

  // ----- The invariant -----

  predicate IsCounted(e: Emitter) {
    !e.Outside? && !e.SawOpen?
  }

  /** Past the second look at the door. */
  predicate IsInside(e: Emitter) {
    e.Entered? || e.Ensuring? || e.Spawning? || e.Emitting?
  }

  function CountedSet(emitters: map<nat, Emitter>): set<nat> {
    set e | e in emitters && IsCounted(emitters[e])
  }

  predicate Drained(t: Teardown) {
    !(t.Resting? || t.Called? || t.ClosingDoor? || t.Draining?)
  }

  predicate ThreadGone(t: Teardown) {
    t.ReadingStats? || t.Freeing? || t.Forgetting? || t.ClearingRunning?
  }

  ghost predicate NobodyInside(emitters: map<nat, Emitter>) {
    forall e :: e in emitters ==> !IsInside(emitters[e])
  }

  /** The spawn flag stands for one started thread or one emitter that is starting it. */
  ghost predicate OneThread(s: State) {
    && |s.tickers| <= 1
    && (s.tickers != [] ==> s.g.spawned)
    && (forall e :: e in s.emitters && s.emitters[e].Spawning? ==> s.g.spawned && s.tickers == [])
    && (forall e, f :: e in s.emitters && f in s.emitters && s.emitters[e].Spawning? && s.emitters[f].Spawning?
          ==> e == f)
  }

  predicate JustFreed(t: Teardown) {
    t.Forgetting? || t.ClearingRunning?
  }

  /** What the shared state owes to the teardown's progress. */
  predicate Progress(g: Shared, t: Teardown) {
    && (Drained(t) || t.Draining? || g.freed ==> !g.doorOpen)
    && (JustFreed(t) ==> g.freed)
    && (g.freed && !JustFreed(t) ==> !g.running && (t.Resting? || t.Called?))
    && !g.fault
  }

  ghost predicate Inv(s: State) {
    && s.g.busy == |CountedSet(s.emitters)|
    && OneThread(s)
    && Progress(s.g, s.teardown)
    && (Drained(s.teardown) || s.g.freed ==> NobodyInside(s.emitters))
    && (ThreadGone(s.teardown) || s.g.freed ==> AllExited(s.tickers))
  }

  // ----- Every step keeps it -----

  lemma CountKept(emitters: map<nat, Emitter>, e: nat, v: Emitter)
    requires e in emitters
    ensures |CountedSet(emitters[e := v])|
         == |CountedSet(emitters)| - (if IsCounted(emitters[e]) then 1 else 0) + (if IsCounted(v) then 1 else 0)
  {
    var a, b := CountedSet(emitters), CountedSet(emitters[e := v]);
    if IsCounted(v) {
      assert b == (a - {e}) + {e};
    } else {
      assert b == a - {e};
    }
  }

  /** An emitter's step, seen from outside. */
  lemma EmitEffect(g: Shared, pc: Emitter, created: bool)
    ensures var (g', pc') := EmitStep(g, pc, created);
            && g'.busy == g.busy - (if IsCounted(pc) then 1 else 0) + (if IsCounted(pc') then 1 else 0)
            && g'.doorOpen == g.doorOpen && g'.running == g.running && g'.freed == g.freed
            && g'.fault == (g.fault || (pc.Emitting? && g.freed))
            && (IsInside(pc') ==> IsInside(pc) || g.doorOpen)
            && (pc'.Spawning? <==> pc.Ensuring? && !g.spawned)
            && (if pc'.Spawning? then g'.spawned
                else if pc.Spawning? && !created then !g'.spawned
                else g'.spawned == g.spawned)
  {
    match pc {
      case Outside => {}
      case SawOpen => {}
      case Counted => {}
      case Entered => {}
      case Ensuring => {}
      case Spawning => {}
      case Emitting => {}
      case Leaving => {}
    }
  }

  lemma EmitKeeps(s: State, s': State, e: nat, created: bool)
    requires Inv(s) && Next(s, s', Emit(e, created))
    ensures Inv(s')
  {
    EmitEffect(s.g, s.emitters[e], created);
    CountKept(s.emitters, e, s'.emitters[e]);
    hide EmitStep, CountedSet;
    if Drained(s.teardown) || s.g.freed {
      assert !IsInside(s.emitters[e]);
      assert NobodyInside(s'.emitters);
    }
    assert OneThread(s');
  }

  lemma TickKeeps(s: State, s': State, i: nat)
    requires Inv(s) && Next(s, s', Tick(i))
    ensures Inv(s')
  {
    hide CountedSet;
    assert !AllExited(s.tickers);
  }

  /** When the counter reads zero with the door shut, nobody is inside and nobody can get in. */
  lemma DrainedMeansEmpty(emitters: map<nat, Emitter>)
    requires |CountedSet(emitters)| == 0
    ensures NobodyInside(emitters)
  {
    assert forall e :: e in emitters && IsCounted(emitters[e]) ==> e in CountedSet(emitters);
  }

  /** A teardown step, seen from outside. */
  lemma TeardownEffect(g: Shared, t: Teardown)
    requires Progress(g, t)
    ensures var (g', t') := TeardownStep(g, t);
            && Progress(g', t')
            && g'.busy == g.busy && g'.spawned == g.spawned
            && (Drained(t') || g'.freed ==> Drained(t) || g.freed || g.busy == 0)
            && (ThreadGone(t') || g'.freed ==>
                  ThreadGone(t) || g.freed || t.Joining? || (t.CheckingThread? && !g.spawned))
  {
  }

  lemma TeardownKeeps(s: State, s': State)
    requires Inv(s) && Next(s, s', TearDown)
    ensures Inv(s')
  {
    TeardownEffect(s.g, s.teardown);
    if s.g.busy == 0 {
      DrainedMeansEmpty(s.emitters);
    }
    hide CountedSet, TeardownStep, Progress, NobodyInside, Drained, ThreadGone;
    if s.teardown.CheckingThread? && !s.g.spawned {
      assert s.tickers == [];
    }
    assert OneThread(s');
  }

  lemma {:induction false} RunKeeps(states: seq<State>, events: seq<Event>, n: nat)
    requires IsRun(states, events) && n < |states|
    ensures Inv(states[n])
    decreases n
  {
    if n == 0 {
      assert CountedSet(states[0].emitters) == {};
    } else {
      RunKeeps(states, events, n - 1);
      assert Next(states[n - 1], states[n - 1 + 1], events[n - 1]);
      hide Inv, Next;
      match events[n - 1] {
        case Emit(e, created) => EmitKeeps(states[n - 1], states[n], e, created);
        case Tick(i) => TickKeeps(states[n - 1], states[n], i);
        case TearDown => TeardownKeeps(states[n - 1], states[n]);
      }
    }
  }

  // ----- What holds in every run -----

  /**
   No step uses the exporter after it is freed, the counter is the number of counted emitters,
   at most one tick thread is ever started, and the exporter is freed only with the door shut,
   nobody inside and the thread gone.
   */
  lemma TeardownIsSafe(states: seq<State>, events: seq<Event>, n: nat)
    requires IsRun(states, events) && n < |states|
    ensures !states[n].g.fault
    ensures states[n].g.busy == |CountedSet(states[n].emitters)|
    ensures |states[n].tickers| <= 1
    ensures states[n].g.freed ==>
              !states[n].g.doorOpen && NobodyInside(states[n].emitters) && AllExited(states[n].tickers)
  {
    RunKeeps(states, events, n);
  }

  /** The exporter is freed at most once, by a teardown that saw the counter at zero; a timed-out drain frees nothing. */
  lemma OnlyADrainedTeardownFrees(states: seq<State>, events: seq<Event>, n: nat)
    requires IsRun(states, events) && n < |events|
    ensures states[n].g.freed ==> states[n + 1].g.freed && !states[n].teardown.Freeing?
    ensures !states[n].g.freed && states[n + 1].g.freed ==>
              && events[n].TearDown? && states[n].teardown.Freeing?
              && NobodyInside(states[n].emitters) && AllExited(states[n].tickers)
    ensures states[n].teardown.Draining? && states[n].teardown.waits >= MAX_WAITS ==> !states[n + 1].g.freed
  {
    RunKeeps(states, events, n);
    assert Next(states[n], states[n + 1], events[n]);
    if events[n].Emit? {
      EmitEffect(states[n].g, states[n].emitters[events[n].emitter], events[n].created);
    }
    hide EmitStep, CountedSet, OneThread, IsRun;
  }
}
