/**
 What a push and a pass of the flusher achieve, in every run: a push is refused only by a full ring and otherwise
 appends exactly what was pushed, and a pass that no callback cuts short writes out everything accepted before it.
 */
module LogProgress {
  import opened Common
  import opened LogRing
  import opened LogFlusher

  /** Accepted and not yet handed back to the producer: one slot always stays empty. */
  ghost predicate Full(r: Ring) {
    |r.accepted| == r.released + r.Capacity() - 1
  }

  // ----- One push on its ring -----

  /** The test of head and tail is exact. */
  lemma ReserveDropsIffFull(r: Ring)
    requires Inv(r) && r.producer.Copied?
    ensures Full(r) ==> Reserve(r).producer.Quiet? && Reserve(r).dropped == r.dropped + 1
    ensures !Full(r) ==> Reserve(r).producer == Writing(r.producer.e, r.head) && Reserve(r).dropped == r.dropped
    ensures Reserve(r).accepted == r.accepted
  {
    hide HeapOk, Tape;
    var a, c := |r.accepted|, r.Capacity();
    FoldStep(a, c);
    if Full(r) {
      FullMeansEqual(r.released, c);
    } else {
      FoldApart(r.released, a + 1, c);
    }
  }

  // ----- A push in a run -----

  ghost predicate IsPush(e: Event, i: nat) {
    e.Produce? && e.ring == i
  }

  /** Between the two events thread `i` does nothing; the flusher and other threads may. */
  ghost predicate NextPush(events: seq<Event>, i: nat, a: nat, b: nat) {
    a < b < |events| && IsPush(events[b], i) && forall n :: a < n < b ==> !IsPush(events[n], i)
  }

  /** What only the owning thread changes. */
  function OwnSide(r: Ring): (Producer, nat, nat, seq<Entry>) {
    (r.producer, r.head, r.dropped, r.accepted)
  }

  lemma OthersKeepSide(s: Log, s': Log, e: Event, i: nat)
    requires Next(s, s', e) && i < |s.rings| && !IsPush(e, i)
    ensures i < |s'.rings| && OwnSide(s'.rings[i]) == OwnSide(s.rings[i])
  {
  }

  lemma {:induction false} SideStays(states: seq<Log>, events: seq<Event>, i: nat, a: nat, b: nat)
    requires IsRun(states, events) && a <= b <= |events| && i < |states[a].rings|
    requires forall n :: a <= n < b ==> !IsPush(events[n], i)
    ensures i < |states[b].rings| && OwnSide(states[b].rings[i]) == OwnSide(states[a].rings[i])
    decreases b
  {
    if a < b {
      SideStays(states, events, i, a, b - 1);
      assert Next(states[b - 1], states[b - 1 + 1], events[b - 1]);
      hide Next, IsRun;
      OthersKeepSide(states[b - 1], states[b], events[b - 1], i);
    }
  }

  lemma StepAt(states: seq<Log>, events: seq<Event>, i: nat, n: nat)
    requires IsRun(states, events) && n < |events| && IsPush(events[n], i)
    ensures i < |states[n].rings| && i < |states[n + 1].rings|
    ensures Inv(states[n].rings[i])
    ensures Enabled(states[n].rings[i], events[n].step) && IsProducerStep(events[n].step)
    ensures states[n + 1].rings[i] == Apply(states[n].rings[i], events[n].step)
  {
    assert Next(states[n], states[n + 1], events[n]);
    RunKeeps(states, events, n);
    assert RingOk(states[n], i);
  }

  /**
   Whatever runs meanwhile, the thread's next step after its copy finds the ring full and drops the push, counting
   it, or reserves the slot.
   */
  lemma PushIsDroppedIffFull(states: seq<Log>, events: seq<Event>, i: nat, a: nat, b: nat)
    requires IsRun(states, events) && a < |events| && IsPush(events[a], i) && events[a].step.DoCopy?
    requires NextPush(events, i, a, b)
    ensures i < |states[a].rings| && i < |states[b].rings| && i < |states[b + 1].rings|
    ensures var was, now, then' := states[a].rings[i], states[b].rings[i], states[b + 1].rings[i];
            && then'.accepted == was.accepted
            && (Full(now) ==> then'.producer.Quiet? && then'.dropped == was.dropped + 1)
            && (!Full(now) ==>
                  && then'.producer.Writing? && then'.dropped == was.dropped
                  && Says(then'.producer.e, events[a].step))
  {
    hide Inv;
    StepAt(states, events, i, a);
    StepAt(states, events, i, b);
    SideStays(states, events, i, a + 1, b);
    ReserveDropsIffFull(states[b].rings[i]);
  }

  /** The entry carries what the push was given. */
  predicate Says(e: Entry, step: Step) {
    step.DoCopy? && e.ts == step.ts && e.sev == step.sev && e.mod == step.mod && e.body == step.body
  }

  /** A push that found room is accepted with its next two steps, and nothing else is accepted or dropped meanwhile. */
  lemma PushGetsIn(states: seq<Log>, events: seq<Event>, i: nat, a: nat, b: nat, c: nat, d: nat) returns (e: Entry)
    requires IsRun(states, events) && a < |events| && IsPush(events[a], i) && events[a].step.DoCopy?
    requires NextPush(events, i, a, b) && NextPush(events, i, b, c) && NextPush(events, i, c, d)
    requires i < |states[b].rings| && !Full(states[b].rings[i])
    ensures i < |states[a].rings| && i < |states[d + 1].rings|
    ensures Says(e, events[a].step)
    ensures states[d + 1].rings[i].accepted == states[a].rings[i].accepted + [e]
    ensures states[d + 1].rings[i].dropped == states[a].rings[i].dropped
    ensures states[d + 1].rings[i].producer.Quiet?
  {
    hide Inv;
    PushIsDroppedIffFull(states, events, i, a, b);
    e := states[b + 1].rings[i].producer.e;
    SideStays(states, events, i, b + 1, c);
    StepAt(states, events, i, c);
    StoredIsPublishing(states[c].rings[i]);
    SideStays(states, events, i, c + 1, d);
    StepAt(states, events, i, d);
  }

  lemma StoredIsPublishing(r: Ring)
    requires Inv(r) && r.producer.Writing?
    ensures Store(r).producer == Publishing(r.producer.e, r.producer.h)
    ensures Store(r).accepted == r.accepted && Store(r).dropped == r.dropped
  {
    hide HeapOk, Tape;
  }

  // ----- A pass of the flusher -----

  /** At least `n` entries of ring `j` were written out. */
  ghost predicate Written(s: Log, j: nat, n: nat) {
    n <= |Emissions(s.out, j)|
  }

  /** A drain that goes on will write out at least the first `n` entries, unless a callback declines. */
  ghost predicate Covers(s: Log, j: nat, n: nat)
    requires j < |s.rings|
  {
    match s.rings[j].consumer
    case Off => false
    case Scanning(_, _, limit) => n <= limit && s.flusher == Draining(j, false)
    case Emitted(_, _, limit) => n <= limit && s.flusher == Draining(j, false)
    case Closing(_) => s.flusher.Draining? && s.flusher.ring == j && (s.flusher.stop || n <= |s.rings[j].consumed|)
  }

  /** Since state `s0` the pass has dealt with every ring from its place on. */
  ghost predicate Passing(s0: Log, s: Log) {
    && |s0.rings| <= |s.rings|
    && (forall j :: 0 <= j < |s0.rings| ==> s0.rings[j].accepted <= s.rings[j].accepted)
    && match s.flusher
       case Resting => false
       case Walking(left) =>
         left <= |s0.rings| && forall j :: left <= j < |s0.rings| ==> Written(s, j, |s0.rings[j].accepted|)
       case Draining(ring, stop) =>
         && ring < |s0.rings| && Covers(s, ring, |s0.rings[ring].accepted|)
         && forall j :: ring < j < |s0.rings| ==> Written(s, j, |s0.rings[j].accepted|)
  }

  /** Nothing accepted or written out is ever taken back. */
  lemma NothingIsTakenBack(s: Log, s': Log, e: Event)
    requires Next(s, s', e)
    ensures |s.rings| <= |s'.rings|
    ensures forall j :: 0 <= j < |s.rings| ==> s.rings[j].accepted <= s'.rings[j].accepted
    ensures forall j: nat :: |Emissions(s.out, j)| <= |Emissions(s'.out, j)|
  {
    if s'.out != s.out {
      forall j: nat ensures |Emissions(s.out, j)| <= |Emissions(s'.out, j)| {
        EmitOne(s.out, s.flusher.ring, s'.out[|s.out|].1, j);
      }
    }
  }

  /** Everything but the end of a drain keeps its aim. */
  lemma CoversStays(s: Log, s': Log, e: Event, j: nat, n: nat)
    requires LogInv(s) && Next(s, s', e) && !e.StoreTail?
    requires j < |s.rings| && Covers(s, j, n)
    ensures j < |s'.rings| && Covers(s', j, n)
  {
    assert RingOk(s, j);
    if e.CallBack? {
      CursorMeaning(s.rings[j]);
    } else if e.FreeText? {
      ReleaseTape(s.rings[j]);
    }
  }

  lemma PassGoesOn(s0: Log, s: Log, s': Log, e: Event)
    requires LogInv(s) && LogInv(s') && Passing(s0, s) && Next(s, s', e)
    requires !s'.flusher.Resting?
    ensures Passing(s0, s')
  {
    hide Inv, Covers, Delivered;
    NothingIsTakenBack(s, s', e);
    if s.flusher.Draining? {
      var r := s.flusher.ring;
      if e.StoreTail? {
        DrainEnds(s, s', |s0.rings[r].accepted|);
      } else {
        CoversStays(s, s', e, r, |s0.rings[r].accepted|);
        SameDrain(s, s', e);
      }
    } else if e.EnterRing? {
      DrainBegins(s, s', |s0.rings[s.flusher.left - 1].accepted|);
    }
  }

  lemma SameDrain(s: Log, s': Log, e: Event)
    requires Next(s, s', e) && s.flusher.Draining? && !e.StoreTail?
    ensures s'.flusher.Draining? && s'.flusher.ring == s.flusher.ring
  {
  }

  lemma DrainBegins(s: Log, s': Log, n: nat)
    requires Next(s, s', EnterRing) && n <= |s.rings[s.flusher.left - 1].accepted|
    ensures Covers(s', s.flusher.left - 1, n)
  {
  }

  lemma DrainEnds(s: Log, s': Log, n: nat)
    requires LogInv(s) && LogInv(s') && Next(s, s', StoreTail) && !s'.flusher.Resting?
    requires Covers(s, s.flusher.ring, n)
    ensures Written(s', s.flusher.ring, n)
  {
    assert RingOk(s', s.flusher.ring);
  }

  lemma {:induction false} PassInRun(states: seq<Log>, events: seq<Event>, a: nat, n: nat)
    requires IsRun(states, events) && a < n < |states| && events[a].StartPass?
    requires forall k :: a < k <= n ==> !states[k].flusher.Resting?
    ensures Passing(states[a], states[n])
    decreases n
  {
    hide LogInv, Passing;
    assert Next(states[n - 1], states[n - 1 + 1], events[n - 1]);
    if n == a + 1 {
      PassBegins(states[a], states[n]);
    } else {
      PassInRun(states, events, a, n - 1);
      RunKeeps(states, events, n - 1);
      RunKeeps(states, events, n);
      PassGoesOn(states[a], states[n - 1], states[n], events[n - 1]);
    }
  }

  lemma PassBegins(s: Log, s': Log)
    requires Next(s, s', StartPass)
    ensures Passing(s, s')
  {
  }

  /**
   A pass that runs to its end without a callback declining has written out, of every ring registered when it
   began, everything accepted by then, in order.
   */
  lemma FullPassWritesEverything(states: seq<Log>, events: seq<Event>, a: nat, b: nat, j: nat)
    requires IsRun(states, events) && a < b < |events| && events[a].StartPass? && events[b].EndPass?
    requires forall k :: a < k <= b ==> !states[k].flusher.Resting?
    requires j < |states[a].rings|
    ensures states[a].rings[j].accepted <= Emissions(states[b].out, j)
  {
    PassInRun(states, events, a, b);
    hide IsQueue;
    assert Next(states[b], states[b + 1], events[b]);
    EveryRingIsAQueue(states, events, b, j);
    assert Written(states[b], j, |states[a].rings[j].accepted|);
    var early, now, out := states[a].rings[j].accepted, states[b].rings[j].accepted, Emissions(states[b].out, j);
    assert early == now[..|early|] && out == now[..|out|];
  }
}
