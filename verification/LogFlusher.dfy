/**
 The flusher over all rings: any number of threads push into rings of their own while one
 thread repeatedly walks the registry, newest ring first, and drains each ring it reaches. A
 callback that declines an entry ends the pass.
 */
module LogFlusher {
  import opened Common
  import opened LogRing

  datatype Flusher =
    | Resting
    | Walking(left: nat)
    | Draining(ring: nat, stop: bool)

  /** The registered rings, oldest first, the flusher, and what it emitted: ring number and entry. */
  datatype Log = Log(rings: seq<Ring>, flusher: Flusher, out: seq<(nat, Entry)>)

  datatype Event =
    | Register(capacity: nat)
    | Produce(ring: nat, step: Step)
    | StartPass
    | EnterRing
    | EndPass
    | CallBack(taken: bool)
    | FreeText
    | StoreTail

  predicate IsProducerStep(s: Step) {
    s.DoCopy? || s.DoReserve? || s.DoStore? || s.DoPublish?
  }

  ghost predicate Next(s: Log, s': Log, e: Event) {
    match e
    case Register(capacity) =>
      capacity > 0 && s' == s.(rings := s.rings + [NewRing(capacity)])
    case Produce(i, step) =>
      && i < |s.rings| && IsProducerStep(step) && Enabled(s.rings[i], step)
      && s' == s.(rings := s.rings[i := Apply(s.rings[i], step)])
    case StartPass =>
      s.flusher.Resting? && s' == s.(flusher := Walking(|s.rings|))
    case EnterRing =>
      && s.flusher.Walking? && 0 < s.flusher.left <= |s.rings|
      && var i := s.flusher.left - 1;
         && s.rings[i].consumer.Off?
         && s' == s.(flusher := Draining(i, false), rings := s.rings[i := Begin(s.rings[i])])
    case EndPass =>
      s.flusher.Walking? && s.flusher.left == 0 && s' == s.(flusher := Resting)
    case CallBack(taken) =>
      && s.flusher.Draining? && s.flusher.ring < |s.rings|
      && var i := s.flusher.ring;
         var r := s.rings[i];
         && r.consumer.Scanning?
         && var found := r.consumer.t != r.consumer.h && r.consumer.t < |r.slots| && r.slots[r.consumer.t].Some?;
            s' == s.(rings := s.rings[i := Visit(r, taken)],
                     out := if found && taken then s.out + [(i, r.slots[r.consumer.t].value)] else s.out,
                     flusher := Draining(i, found && !taken))
    case FreeText =>
      && s.flusher.Draining? && s.flusher.ring < |s.rings|
      && s.rings[s.flusher.ring].consumer.Emitted?
      && s' == s.(rings := s.rings[s.flusher.ring := Release(s.rings[s.flusher.ring])])
    case StoreTail =>
      && s.flusher.Draining? && s.flusher.ring < |s.rings|
      && s.rings[s.flusher.ring].consumer.Closing?
      && s' == s.(rings := s.rings[s.flusher.ring := Close(s.rings[s.flusher.ring])],
                  flusher := if s.flusher.stop then Resting else Walking(s.flusher.ring))
  }

  ghost predicate IsRun(states: seq<Log>, events: seq<Event>) {
    && |states| == |events| + 1
    && states[0] == Log([], Resting, [])
    && forall i :: 0 <= i < |events| ==> Next(states[i], states[i + 1], events[i])
  }

  /** What was emitted from ring `i`, in order. */
  function Emissions(out: seq<(nat, Entry)>, i: nat): seq<Entry> {
    if out == [] then []
    else Emissions(out[..|out| - 1], i) + (if out[|out| - 1].0 == i then [out[|out| - 1].1] else [])
  }

  /** Everything freed, and the entry emitted but not freed yet. */
  ghost function Delivered(r: Ring): seq<Entry>
    requires r.consumer.Emitted? ==> |r.consumed| < |r.accepted|
  {
    r.consumed + (if r.consumer.Emitted? then [r.accepted[|r.consumed|]] else [])
  }

  predicate Drains(f: Flusher, i: nat) {
    f.Draining? && f.ring == i
  }

  ghost predicate RingOk(s: Log, i: nat)
    requires i < |s.rings|
  {
    && Inv(s.rings[i])
    && (s.rings[i].consumer.Off? <==> !Drains(s.flusher, i))
    && Emissions(s.out, i) == Delivered(s.rings[i])
  }

  ghost predicate LogInv(s: Log) {
    && (forall i :: 0 <= i < |s.rings| ==> RingOk(s, i))
    && (forall i :: |s.rings| <= i ==> Emissions(s.out, i) == [])
    && match s.flusher
       case Resting => true
       case Walking(left) => left <= |s.rings|
       case Draining(ring, stop) => ring < |s.rings| && (stop ==> s.rings[ring].consumer.Closing?)
  }

  lemma EmitOne(out: seq<(nat, Entry)>, i: nat, e: Entry, j: nat)
    ensures Emissions(out + [(i, e)], j) == Emissions(out, j) + (if i == j then [e] else [])
  {
    assert (out + [(i, e)])[..|out|] == out;
  }

  /** A producer leaves the consumer's side of its ring alone. */
  lemma ProducerFrame(r: Ring, step: Step)
    requires Inv(r) && Enabled(r, step) && IsProducerStep(step)
    ensures Inv(Apply(r, step))
    ensures Apply(r, step).consumer == r.consumer && Delivered(Apply(r, step)) == Delivered(r)
  {
    StepKeeps(r, step);
  }

  lemma ProduceKeeps(s: Log, s': Log, i: nat, step: Step)
    requires LogInv(s) && Next(s, s', Produce(i, step))
    ensures LogInv(s')
  {
    assert RingOk(s, i);
    ProducerFrame(s.rings[i], step);
    hide Inv, Delivered, Apply;
    forall j | 0 <= j < |s'.rings|
      ensures RingOk(s', j)
    {
      assert RingOk(s, j);
    }
  }

  lemma RegisterKeeps(s: Log, s': Log, capacity: nat)
    requires LogInv(s) && Next(s, s', Register(capacity))
    ensures LogInv(s')
  {
    NewRingOk(capacity);
    hide Inv;
    forall j | 0 <= j < |s'.rings|
      ensures RingOk(s', j)
    {
      if j < |s.rings| {
        assert RingOk(s, j);
      }
    }
  }

  /** The flusher's steps change one ring; the others are as before. */
  lemma FlusherKeeps(s: Log, s': Log, i: nat)
    requires LogInv(s) && i < |s.rings|
    requires |s'.rings| == |s.rings| && forall j :: 0 <= j < |s.rings| && j != i ==> s'.rings[j] == s.rings[j]
    requires forall j: nat :: j != i ==> Emissions(s'.out, j) == Emissions(s.out, j)
    requires forall j: nat :: j != i ==> Drains(s'.flusher, j) == Drains(s.flusher, j)
    requires RingOk(s', i)
    requires match s'.flusher
             case Resting => true
             case Walking(left) => left <= |s.rings|
             case Draining(ring, stop) => ring < |s.rings| && (stop ==> s'.rings[ring].consumer.Closing?)
    ensures LogInv(s')
  {
    hide Inv, Delivered;
    forall j | 0 <= j < |s'.rings|
      ensures RingOk(s', j)
    {
      if j != i {
        assert RingOk(s, j);
      }
    }
  }

  lemma EnterKeeps(s: Log, s': Log)
    requires LogInv(s) && Next(s, s', EnterRing)
    ensures LogInv(s')
  {
    var i := s.flusher.left - 1;
    assert RingOk(s, i);
    BeginKeeps(s.rings[i]);
    hide Inv;
    assert RingOk(s', i);
    FlusherKeeps(s, s', i);
  }

  lemma CallBackKeeps(s: Log, s': Log, taken: bool)
    requires LogInv(s) && Next(s, s', CallBack(taken))
    ensures LogInv(s')
  {
    var i := s.flusher.ring;
    var r := s.rings[i];
    assert RingOk(s, i);
    CursorMeaning(r);
    VisitKeeps(r, taken);
    hide Inv, LogInv;
    forall j: nat | j != i ensures Emissions(s'.out, j) == Emissions(s.out, j) {
      if s'.out != s.out {
        EmitOne(s.out, i, r.slots[r.consumer.t].value, j);
      }
    }
    CallBackRing(s, s', taken);
    FlusherKeeps(s, s', i);
  }

  /** The ring that was visited, and what came out of it. */
  lemma CallBackRing(s: Log, s': Log, taken: bool)
    requires s.flusher.Draining? && s.flusher.ring < |s.rings| && RingOk(s, s.flusher.ring)
    requires Next(s, s', CallBack(taken))
    requires Inv(Visit(s.rings[s.flusher.ring], taken))
    requires var r := s.rings[s.flusher.ring];
             r.consumer.t != r.consumer.h ==>
               r.consumer.t < |r.slots| && |r.consumed| < |r.accepted|
               && r.slots[r.consumer.t] == Some(r.accepted[|r.consumed|])
    ensures RingOk(s', s.flusher.ring)
  {
    hide Inv, Emissions;
    var i := s.flusher.ring;
    if s'.out != s.out {
      EmitOne(s.out, i, s.rings[i].slots[s.rings[i].consumer.t].value, i);
    }
  }

  lemma FreeTextKeeps(s: Log, s': Log)
    requires LogInv(s) && Next(s, s', FreeText)
    ensures LogInv(s')
  {
    var i := s.flusher.ring;
    var r := s.rings[i];
    assert RingOk(s, i);
    ReleaseKeeps(r);
    ReleaseTape(r);
    assert Delivered(Release(r)) == Delivered(r);
    hide Inv;
    assert RingOk(s', i);
    FlusherKeeps(s, s', i);
  }

  lemma StoreTailKeeps(s: Log, s': Log)
    requires LogInv(s) && Next(s, s', StoreTail)
    ensures LogInv(s')
  {
    var i := s.flusher.ring;
    var r := s.rings[i];
    assert RingOk(s, i);
    CloseKeeps(r);
    assert Delivered(Close(r)) == Delivered(r);
    hide Inv;
    assert RingOk(s', i);
    FlusherKeeps(s, s', i);
  }

  lemma PassKeeps(s: Log, s': Log, e: Event)
    requires LogInv(s) && (e.StartPass? || e.EndPass?) && Next(s, s', e)
    ensures LogInv(s')
  {
    hide Inv, Delivered;
    forall j | 0 <= j < |s'.rings|
      ensures RingOk(s', j)
    {
      assert RingOk(s, j);
    }
  }

  lemma NextKeeps(s: Log, s': Log, e: Event)
    requires LogInv(s) && Next(s, s', e)
    ensures LogInv(s')
  {
    hide LogInv;
    match e {
      case Register(capacity) => RegisterKeeps(s, s', capacity);
      case Produce(i, step) => ProduceKeeps(s, s', i, step);
      case EnterRing => EnterKeeps(s, s');
      case CallBack(taken) => CallBackKeeps(s, s', taken);
      case FreeText => FreeTextKeeps(s, s');
      case StoreTail => StoreTailKeeps(s, s');
      case _ => PassKeeps(s, s', e);
    }
  }

  lemma {:induction false} RunKeeps(states: seq<Log>, events: seq<Event>, n: nat)
    requires IsRun(states, events) && n < |states|
    ensures LogInv(states[n])
    decreases n
  {
    hide LogInv;
    if n == 0 {
      EmptyLogOk();
    } else {
      RunKeeps(states, events, n - 1);
      NextKeeps(states[n - 1], states[n], events[n - 1]);
    }
  }

  lemma EmptyLogOk()
    ensures LogInv(Log([], Resting, []))
  {
  }

  // ----- What holds in every run -----

  /**
   Each ring is a bounded queue: what its thread had accepted is what the flusher consumed followed by
   what is buffered, at most one less than the capacity is in flight, the output keeps each thread's
   order and is at most one entry ahead of what was freed, and no text is misused.
   */
  lemma EveryRingIsAQueue(states: seq<Log>, events: seq<Event>, n: nat, i: nat)
    requires IsRun(states, events) && n < |states| && i < |states[n].rings|
    ensures IsQueue(states[n].rings[i]) && !states[n].rings[i].fault
    ensures states[n].rings[i].consumed <= Emissions(states[n].out, i) <= states[n].rings[i].accepted
    ensures |Emissions(states[n].out, i)| <= |states[n].rings[i].consumed| + 1
  {
    RunKeeps(states, events, n);
    var r := states[n].rings[i];
    assert RingOk(states[n], i);
    InvIsQueue(r);
    if r.consumer.Emitted? {
      assert r.accepted[..|r.consumed| + 1] == Delivered(r);
    }
  }

  /** A callback that declines leaves its entry buffered, and the pass touches no other ring. */
  lemma DecliningKeepsTheEntry(s: Log, s': Log, s'': Log)
    requires LogInv(s) && Next(s, s', CallBack(false)) && Next(s', s'', StoreTail)
    requires s.rings[s.flusher.ring].consumer.t != s.rings[s.flusher.ring].consumer.h
    ensures s''.flusher.Resting?
    ensures s''.out == s.out
    ensures var i := s.flusher.ring;
            && s''.rings[i].consumed == s.rings[i].consumed
            && s''.rings[i].accepted == s.rings[i].accepted
            && s''.rings[i].slots == s.rings[i].slots
            && s''.rings[i].tail == s.rings[i].consumer.t
            && forall j :: 0 <= j < |s.rings| && j != i ==> s''.rings[j] == s.rings[j]
  {
    assert RingOk(s, s.flusher.ring);
    CursorMeaning(s.rings[s.flusher.ring]);
  }

  /** The teardown loop: from the tail to the head, free each text and clear its slot. */
  method FreeSlots(
      slots: seq<Option<Entry>>, tail: nat, head: nat, live: set<nat>,
      ghost accepted: seq<Entry>, ghost base: nat, ghost next: nat)
    returns (left: set<nat>, fault: bool, freed: seq<nat>)
    requires |slots| > 0 && base <= |accepted| < base + |slots|
    requires tail == Fold(base, |slots|) && head == Fold(|accepted|, |slots|)
    requires forall n :: base <= n < |accepted| ==> slots[Fold(n, |slots|)] == Some(accepted[n])
    requires Owns(live, Texts(accepted[base..]), next)
    ensures freed == Texts(accepted[base..])
    ensures left == {} && !fault
  {
    hide Owns, Fold;
    ghost var texts := Texts(accepted[base..]);
    assert texts == texts[0..];
    var c := |slots|;
    var t, now := tail, slots;
    left, fault, freed := live, false, [];
    ghost var k: nat := 0;
    while t != head
      invariant k <= |texts| && t == Fold(base + k, c)
      invariant |now| == c
      invariant forall n :: base + k <= n < |accepted| ==> now[Fold(n, c)] == Some(accepted[n])
      invariant freed == texts[..k]
      invariant !fault && Owns(left, texts[k..], next)
      decreases |texts| - k
    {
      assert now[Fold(base + k, c)] == Some(accepted[base + k]);
      var e := now[t].value;
      assert texts[k..] == [e.text] + texts[k + 1..];
      OwnsDropFirst(left, texts[k + 1..], e.text, next);
      SlotsAfterClear(now, accepted, base + k, c);
      fault := fault || e.text !in left;
      left, now := left - {e.text}, now[t := None];
      freed := freed + [e.text];
      FoldStep(base + k, c);
      t := Bump(t, c);
      k := k + 1;
    }
    if k < |texts| {
      FoldApart(base + k, |accepted|, c);
    }
    assert texts[k..] == [];
    OwnsNothing(left, next);
  }

  /** Tearing a quiet ring down frees exactly the texts still buffered, in order, each once. */
  method FreeRing(r: Ring) returns (freed: seq<nat>)
    requires Inv(r) && r.producer.Quiet? && r.consumer.Off?
    ensures freed == Texts(r.Buffered())
    ensures multiset(freed) == multiset(r.live)
  {
    InvIsQueue(r);
    assert Held(r) == Texts(r.Buffered());
    var left, fault;
    left, fault, freed := FreeSlots(r.slots, r.tail, r.head, r.live, r.accepted, |r.consumed|, r.nextText);
    OwnedOnce(r.live, freed, r.nextText);
  }

  lemma {:induction false} OwnedOnce(live: set<nat>, held: seq<nat>, next: nat)
    requires Owns(live, held, next)
    ensures multiset(held) == multiset(live)
    decreases |held|
  {
    if held == [] {
      OwnsNothing(live, next);
    } else {
      var x := held[0];
      assert held == [x] + held[1..];
      OwnsDropFirst(live, held[1..], x, next);
      hide Owns;
      OwnedOnce(live - {x}, held[1..], next);
      assert multiset(live) == multiset(live - {x}) + multiset{x};
    }
  }

  lemma OwnsNothing(live: set<nat>, next: nat)
    ensures Owns(live, [], next) ==> live == {}
  {
  }

  /** Clearing the slot of position `m` leaves the later positions alone. */
  lemma SlotsAfterClear(slots: seq<Option<Entry>>, accepted: seq<Entry>, m: nat, c: nat)
    requires |slots| == c > 0 && |accepted| <= m + c
    requires forall n :: m <= n < |accepted| ==> slots[Fold(n, c)] == Some(accepted[n])
    ensures forall n :: m + 1 <= n < |accepted| ==> slots[Fold(m, c) := None][Fold(n, c)] == Some(accepted[n])
  {
    forall n | m + 1 <= n < |accepted|
      ensures slots[Fold(m, c) := None][Fold(n, c)] == Some(accepted[n])
    {
      FoldApart(m, n, c);
    }
  }
}
