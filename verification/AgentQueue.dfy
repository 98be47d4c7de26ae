/**
 The agent's evidence queue in operation: any number of producers push under the lock while the
 one agent thread peeks under the lock, sends the peeked bytes without it, and pops under the lock
 again. A failed send leaves the item queued. Losses are reported by a marker that competes for a slot
 like any other item.
 */
module AgentQueue {
  import opened Common
  import opened AgentRing

  datatype Consumer =
    | Idle
    | Peeking
    | Sending(slot: nat, peeked: string)
    | Popping
    | Counting           // about to read the drop counter
    | Marking(now: nat)  // about to push the marker for `now` drops in total

  /** Beside the ring: what was offered and accepted, what went out, and the counts in accepted markers. */
  datatype State = State(
    ring: Ring,
    consumer: Consumer,
    reported: nat,
    offered: nat,
    accepted: seq<string>,
    sent: seq<string>,
    markers: seq<int>)

  datatype Event =
    | Offer(item: string, owned: bool, allocOk: bool)
    | StartDrain
    | Peek
    | SendOk
    | SendFailed
    | PopSent
    | ReadDrops
    | PushMarker(marker: string)

  function Offered(s: State, item: string, owned: bool, allocOk: bool): State
    requires s.ring.Valid()
  {
    s.(ring := Push(s.ring, item, owned, allocOk),
       offered := s.offered + 1,
       accepted := if Admits(s.ring, item, owned, allocOk) then s.accepted + [item] else s.accepted)
  }

  ghost predicate Next(s: State, s': State, e: Event) {
    && s.ring.Valid()
    && match e
       case Offer(item, owned, allocOk) => s' == Offered(s, item, owned, allocOk)
       case StartDrain => s.consumer.Idle? && s' == s.(consumer := Peeking)
       case Peek =>
         && s.consumer.Peeking?
         && s' == s.(consumer := if s.ring.count == 0 then Counting
                                 else Sending(s.ring.head, View(s.ring.slots[s.ring.head])))
       // the bytes that go out are those in the slot when the send completes
       case SendOk =>
         && s.consumer.Sending? && s.consumer.slot < CAP
         && s' == s.(consumer := Popping, sent := s.sent + [View(s.ring.slots[s.consumer.slot])])
       case SendFailed => s.consumer.Sending? && s' == s.(consumer := Idle)
       case PopSent => s.consumer.Popping? && s' == s.(consumer := Peeking, ring := Pop(s.ring))
       case ReadDrops =>
         && s.consumer.Counting?
         && s' == s.(consumer := if s.ring.dropped == s.reported then Idle else Marking(s.ring.dropped))
       // the marker is short: it is copied into the slot
       case PushMarker(marker) =>
         && s.consumer.Marking? && |marker| < INLINE
         && var now := s.consumer.now;
            var pushed := Offered(s, marker, false, true);
            s' == if Admits(s.ring, marker, false, true)
                  then pushed.(consumer := Idle, reported := now, markers := s.markers + [now - s.reported])
                  else pushed.(consumer := Idle)
  }

  ghost predicate Init(s: State) {
    && s.ring.Valid() && s.ring.count == 0 && s.ring.dropped == 0
    && s == State(s.ring, Idle, 0, 0, [], [], [])
  }

  ghost predicate IsRun(states: seq<State>, events: seq<Event>) {
    && |states| == |events| + 1
    && Init(states[0])
    && forall i :: 0 <= i < |events| ==> Next(states[i], states[i + 1], events[i])
  }

  function Sum(xs: seq<int>): int {
    if xs == [] then 0 else Sum(xs[..|xs| - 1]) + xs[|xs| - 1]
  }

  /** The queued items not sent yet; between a send and its pop the head has already gone out. */
  ghost function Waiting(s: State): seq<string>
    requires s.ring.Valid() && (s.consumer.Popping? ==> s.ring.count > 0)
  {
    if s.consumer.Popping? then s.ring.Contents()[1..] else s.ring.Contents()
  }

  ghost predicate Inv(s: State) {
    && s.ring.Valid()
    && (s.consumer.Sending? || s.consumer.Popping? ==> s.ring.count > 0)
    && (s.consumer.Sending? ==>
          s.consumer.slot == s.ring.head && View(s.ring.slots[s.ring.head]) == s.consumer.peeked)
    && (s.consumer.Marking? ==> s.reported <= s.consumer.now <= s.ring.dropped)
    && s.accepted == s.sent + Waiting(s)
    && s.offered == |s.accepted| + s.ring.dropped
    && Sum(s.markers) == s.reported <= s.ring.dropped
  }

  lemma HeadIsFirst(r: Ring)
    requires r.Valid() && r.count > 0
    ensures View(r.slots[r.head]) == r.Contents()[0] && r.Place(0) == r.head
  {
  }

  lemma OfferKeeps(s: State, item: string, owned: bool, allocOk: bool)
    requires Inv(s)
    ensures Inv(Offered(s, item, owned, allocOk))
  {
    PushIsEnqueue(s.ring, item, owned, allocOk);
    var s' := Offered(s, item, owned, allocOk);
    if s.ring.count > 0 {
      HeadIsFirst(s.ring);
      assert s'.ring.slots[s.ring.Place(0)] == s.ring.slots[s.ring.Place(0)];
    }
    hide Push, Admits;
    if s'.ring.dropped == s.ring.dropped {
      if s.consumer.Popping? {
        assert (s.ring.Contents() + [item])[1..] == s.ring.Contents()[1..] + [item];
      }
      Assoc(s.sent, Waiting(s), [item]);
    }
  }

  lemma SumAppend(xs: seq<int>, x: int)
    ensures Sum(xs + [x]) == Sum(xs) + x
  {
    assert (xs + [x])[..|xs|] == xs;
  }

  lemma SendKeeps(s: State, s': State)
    requires Inv(s) && Next(s, s', SendOk)
    ensures Inv(s')
  {
    HeadIsFirst(s.ring);
    var items := s.ring.Contents();
    assert items == [items[0]] + items[1..];
    Assoc(s.sent, [items[0]], items[1..]);
  }

  lemma MarkerKeeps(s: State, s': State, marker: string)
    requires Inv(s) && Next(s, s', PushMarker(marker))
    ensures Inv(s')
  {
    OfferKeeps(s, marker, false, true);
    SumAppend(s.markers, s.consumer.now - s.reported);
    MarkerDrops(s, marker);
    var pushed := Offered(s, marker, false, true);
    assert pushed.reported == s.reported && pushed.markers == s.markers && pushed.consumer == s.consumer;
    hide Push, Admits, Offered, Sum;
    assert Waiting(s') == Waiting(pushed);
  }

  lemma MarkerDrops(s: State, marker: string)
    requires Inv(s)
    ensures s.ring.dropped <= Push(s.ring, marker, false, true).dropped
    ensures Admits(s.ring, marker, false, true) ==>
              Push(s.ring, marker, false, true).dropped == s.ring.dropped
  {
  }

  lemma NextKeeps(s: State, s': State, e: Event)
    requires Inv(s) && Next(s, s', e)
    ensures Inv(s')
  {
    match e {
      case Offer(item, owned, allocOk) =>
        OfferKeeps(s, item, owned, allocOk);
      case SendOk =>
        SendKeeps(s, s');
      case PopSent =>
        PopIsDequeue(s.ring);
      case PushMarker(marker) =>
        MarkerKeeps(s, s', marker);
      case _ =>
    }
  }

  lemma StepIsNext(states: seq<State>, events: seq<Event>, n: nat)
    requires IsRun(states, events) && n < |events|
    ensures Next(states[n], states[n + 1], events[n])
  {
  }

  lemma {:induction false} RunKeeps(states: seq<State>, events: seq<Event>, n: nat)
    requires IsRun(states, events) && n < |states|
    ensures Inv(states[n])
    decreases n
  {
    if n > 0 {
      hide Inv, Next;
      RunKeeps(states, events, n - 1);
      StepIsNext(states, events, n - 1);
      NextKeeps(states[n - 1], states[n], events[n - 1]);
    }
  }

  /**
   In every run, whatever sends fail: what was accepted is what was sent, once each and in order, followed
   by what is queued; at most 256 items are queued; every offer was accepted or counted; and the accepted
   markers account for exactly the reported losses.
   */
  lemma QueueConserves(states: seq<State>, events: seq<Event>, n: nat)
    requires IsRun(states, events) && n < |states|
    ensures states[n].ring.Valid() && states[n].ring.count <= CAP
    ensures states[n].consumer.Popping? ==> states[n].ring.count > 0
    ensures states[n].accepted == states[n].sent + Waiting(states[n])
    ensures states[n].offered == |states[n].accepted| + states[n].ring.dropped
    ensures Sum(states[n].markers) == states[n].reported <= states[n].ring.dropped
  {
    RunKeeps(states, events, n);
  }

  /** While a send is under way the slot holds the bytes that were peeked, whatever is pushed meanwhile. */
  lemma PeekedBytesStay(states: seq<State>, events: seq<Event>, n: nat)
    requires IsRun(states, events) && n < |states|
    ensures states[n].consumer.Sending? ==>
              && states[n].ring.Valid() && states[n].ring.count > 0
              && states[n].consumer.slot == states[n].ring.head
              && View(states[n].ring.slots[states[n].consumer.slot]) == states[n].consumer.peeked
    ensures n < |events| && events[n].SendOk? ==>
              && states[n].consumer.Sending?
              && states[n + 1].sent == states[n].sent + [states[n].consumer.peeked]
  {
    RunKeeps(states, events, n);
    if n < |events| {
      assert Next(states[n], states[n + 1], events[n]);
    }
  }

  /** When the ring is drained and nothing was lost since, every accepted item is sent and every loss reported. */
  lemma QuietMeansDelivered(states: seq<State>, events: seq<Event>, n: nat)
    requires IsRun(states, events) && n < |events|
    requires events[n].ReadDrops? && states[n + 1].consumer.Idle? && states[n].ring.count == 0
    ensures states[n + 1].sent == states[n + 1].accepted
    ensures Sum(states[n + 1].markers) == states[n + 1].ring.dropped
  {
    RunKeeps(states, events, n);
    assert Next(states[n], states[n + 1], events[n]);
    assert states[n].ring.Contents() == [];
  }

  // ----- Getting things done -----

  /** The agent thread is never stuck: whatever it is doing, one of its steps is possible. */
  lemma AgentIsNeverStuck(states: seq<State>, events: seq<Event>, n: nat, marker: string) returns (e: Event, s': State)
    requires IsRun(states, events) && n < |states| && |marker| < INLINE
    ensures Next(states[n], s', e) && !e.Offer? && s'.consumer != states[n].consumer
  {
    hide Inv, Next;
    RunKeeps(states, events, n);
    e, s' := OwnStep(states[n], marker);
  }

  lemma OwnStep(s: State, marker: string) returns (e: Event, s': State)
    requires Inv(s) && |marker| < INLINE
    ensures Next(s, s', e) && !e.Offer? && s'.consumer != s.consumer
  {
    hide Push, Pop, View, Admits, Sum, Waiting;
    match s.consumer {
      case Idle => e, s' := StartDrain, s.(consumer := Peeking);
      case Peeking =>
        e, s' := Peek, s.(consumer := if s.ring.count == 0 then Counting
                                      else Sending(s.ring.head, View(s.ring.slots[s.ring.head])));
      case Sending(slot, _) =>
        e, s' := SendOk, s.(consumer := Popping, sent := s.sent + [View(s.ring.slots[slot])]);
      case Popping => e, s' := PopSent, s.(consumer := Peeking, ring := Pop(s.ring));
      case Counting =>
        e, s' := ReadDrops, s.(consumer := if s.ring.dropped == s.reported then Idle else Marking(s.ring.dropped));
      case Marking(now) =>
        var pushed := Offered(s, marker, false, true);
        e := PushMarker(marker);
        s' := if Admits(s.ring, marker, false, true)
              then pushed.(consumer := Idle, reported := now, markers := s.markers + [now - s.reported])
              else pushed.(consumer := Idle);
    }
  }

  /** An offer that finds room goes to the back of the queue, whatever the agent thread is doing. */
  lemma OfferWithRoomIsAccepted(states: seq<State>, events: seq<Event>, n: nat)
    requires IsRun(states, events) && n < |events| && events[n].Offer?
    requires states[n].ring.count < 256 && (events[n].owned || |events[n].item| < 768 || events[n].allocOk)
    ensures states[n + 1].accepted == states[n].accepted + [events[n].item]
    ensures states[n + 1].ring.dropped == states[n].ring.dropped
  {
    RunKeeps(states, events, n);
    assert Next(states[n], states[n + 1], events[n]);
  }

  /** What was accepted or sent stays so. */
  lemma {:induction false} HistoryGrows(states: seq<State>, events: seq<Event>, m: nat, n: nat)
    requires IsRun(states, events) && m <= n < |states|
    ensures states[m].accepted <= states[n].accepted && states[m].sent <= states[n].sent
    decreases n - m
  {
    if m < n {
      HistoryGrows(states, events, m, n - 1);
      assert Next(states[n - 1], states[n - 1 + 1], events[n - 1]);
    }
  }

  /** Before the drop counter is read, a peek found the ring empty. */
  lemma {:induction false} SomePeekFoundItEmpty(states: seq<State>, events: seq<Event>, n: nat) returns (p: nat)
    requires IsRun(states, events) && n < |states| && states[n].consumer.Counting?
    ensures p < n && states[p].consumer.Peeking? && states[p].ring.count == 0
    ensures forall k :: p < k <= n ==> states[k].consumer.Counting?
    decreases n
  {
    assert Next(states[n - 1], states[n - 1 + 1], events[n - 1]);
    if events[n - 1].Peek? {
      p := n - 1;
    } else {
      p := SomePeekFoundItEmpty(states, events, n - 1);
    }
  }

  /** A drain that gets as far as reading the drop counter has sent everything accepted before it started. */
  lemma DrainSendsEverything(states: seq<State>, events: seq<Event>, a: nat, b: nat)
    requires IsRun(states, events) && a < b < |events| && events[a].StartDrain? && events[b].ReadDrops?
    ensures states[a].accepted <= states[b].sent
  {
    assert Next(states[a], states[a + 1], events[a]) && Next(states[b], states[b + 1], events[b]);
    var p := SomePeekFoundItEmpty(states, events, b);
    assert states[a].consumer.Idle?;
    RunKeeps(states, events, p);
    HistoryGrows(states, events, a, p);
    HistoryGrows(states, events, p, b);
    assert states[p].ring.Contents() == [];
  }

  /** A marker that finds room reports exactly the losses since the last report. */
  lemma MarkerReportsTheLosses(states: seq<State>, events: seq<Event>, n: nat)
    requires IsRun(states, events) && n < |events| && events[n].PushMarker? && states[n].ring.count < 256
    ensures states[n].consumer.Marking?
    ensures states[n + 1].reported == states[n].consumer.now
    ensures states[n + 1].markers == states[n].markers + [states[n].consumer.now - states[n].reported]
    ensures states[n + 1].accepted == states[n].accepted + [events[n].marker]
  {
    StepIsNext(states, events, n);
    hide Push, View, IsRun;
  }

  /** Losses that are not reported yet are what the marker is about to report. */
  lemma LossesAreMarked(states: seq<State>, events: seq<Event>, n: nat)
    requires IsRun(states, events) && n < |events| && events[n].ReadDrops?
    requires states[n].ring.dropped != states[n].reported
    ensures states[n + 1].consumer == Marking(states[n].ring.dropped)
  {
    assert Next(states[n], states[n + 1], events[n]);
  }
}
