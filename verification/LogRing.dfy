/**
 The lock-free log ring: one producer, the thread that owns the ring, and one consumer, the
 flusher. Each atomic access and each slot access is one step; a step may come from either side
 at any time. The order of the atomic accesses is taken to be sequentially consistent.

 Beside the ring's own fields a state carries what happened so far (entries accepted and
 consumed, pushes offered) and the heap of text copies; `fault` records a use of a freed or absent
 text, a second free, or a slot overwritten while it still holds an entry.
 */
module LogRing {
  import opened Common

  /** A log entry: its header fields, what it says, and the heap block its text was copied into. */
  datatype Entry = Entry(ts: nat, sev: nat, mod: nat, body: string, text: nat)

  datatype Producer =
    | Quiet
    | Copied(e: Entry)
    | Writing(e: Entry, h: nat)
    | Publishing(e: Entry, h: nat)

  /** The consumer's local cursor `t`, the head `h` it loaded, and how many entries were accepted then. */
  datatype Consumer =
    | Off
    | Scanning(t: nat, h: nat, limit: nat)
    | Emitted(t: nat, h: nat, limit: nat)
    | Closing(t: nat)

  datatype Ring = Ring(
    slots: seq<Option<Entry>>,
    head: nat,
    tail: nat,
    dropped: nat,
    producer: Producer,
    consumer: Consumer,
    live: set<nat>,
    nextText: nat,
    fault: bool,
    offered: nat,
    accepted: seq<Entry>,
    consumed: seq<Entry>,
    released: nat)
  {
    function Capacity(): nat {
      |slots|
    }

    /** Accepted entries the consumer has not freed yet, oldest first. */
    function Buffered(): seq<Entry>
      requires |consumed| <= |accepted|
    {
      accepted[|consumed|..]
    }
  }

  /** The capacity is a power of two, so adding one and masking wraps at the capacity. */
  function Bump(i: nat, capacity: nat): nat {
    if i + 1 == capacity then 0 else i + 1
  }

  /** Where position `n` of the endless tape lies on a ring of `capacity` slots. */
  function Fold(n: nat, capacity: nat): (i: nat)
    requires capacity > 0
    ensures i < capacity
  {
    if n < capacity then n else Fold(n - capacity, capacity)
  }

  function NewRing(capacity: nat): Ring {
    Ring(seq(capacity, _ => None), 0, 0, 0, Quiet, Off, {}, 0, false, 0, [], [], 0)
  }

  // ----- Producer steps -----

  function Free(r: Ring, text: nat): Ring {
    r.(live := r.live - {text}, fault := r.fault || text !in r.live)
  }

  /** Copy the text before looking for room. */
  function Copy(r: Ring, ts: nat, sev: nat, mod: nat, body: string): Ring
    requires r.producer.Quiet?
  {
    r.(producer := Copied(Entry(ts, sev, mod, body, r.nextText)),
       live := r.live + {r.nextText}, nextText := r.nextText + 1, offered := r.offered + 1)
  }

  /** Load head and tail; a full ring drops the copy and counts it. */
  function Reserve(r: Ring): Ring
    requires r.producer.Copied?
  {
    if Bump(r.head, r.Capacity()) == r.tail then
      Free(r, r.producer.e.text).(producer := Quiet, dropped := r.dropped + 1)
    else
      r.(producer := Writing(r.producer.e, r.head))
  }

  function Store(r: Ring): Ring
    requires r.producer.Writing?
  {
    var Writing(e, h) := r.producer;
    if h >= |r.slots| then r.(fault := true) else
    r.(producer := Publishing(e, h), slots := r.slots[h := Some(e)], fault := r.fault || r.slots[h].Some?)
  }

  function Publish(r: Ring): Ring
    requires r.producer.Publishing?
  {
    var Publishing(e, h) := r.producer;
    r.(producer := Quiet, head := Bump(h, r.Capacity()), accepted := r.accepted + [e])
  }

  // ----- Consumer steps -----

  function Begin(r: Ring): Ring
    requires r.consumer.Off?
  {
    r.(consumer := Scanning(r.tail, r.head, |r.accepted|))
  }

  /** One turn of the drain loop up to the callback's answer; the callback reads the entry's text. */
  function Visit(r: Ring, taken: bool): Ring
    requires r.consumer.Scanning?
  {
    var Scanning(t, h, limit) := r.consumer;
    if t == h then r.(consumer := Closing(t))
    else if t >= |r.slots| || r.slots[t].None? then r.(fault := true)
    else
      r.(consumer := if taken then Emitted(t, h, limit) else Closing(t),
         fault := r.fault || r.slots[t].value.text !in r.live)
  }

  /** Free the text and clear the slot; the slot is handed back only when the tail is stored. */
  function Release(r: Ring): Ring
    requires r.consumer.Emitted?
  {
    var Emitted(t, h, limit) := r.consumer;
    if t >= |r.slots| || r.slots[t].None? then r.(fault := true) else
    Free(r, r.slots[t].value.text).(
      consumer := Scanning(Bump(t, r.Capacity()), h, limit),
      slots := r.slots[t := None],
      consumed := r.consumed + [r.slots[t].value])
  }

  function Close(r: Ring): Ring
    requires r.consumer.Closing?
  {
    r.(consumer := Off, tail := r.consumer.t, released := |r.consumed|)
  }

  datatype Step =
    | DoCopy(ts: nat, sev: nat, mod: nat, body: string)
    | DoReserve | DoStore | DoPublish
    | DoBegin | DoVisit(taken: bool) | DoRelease | DoClose

  predicate Enabled(r: Ring, s: Step) {
    match s
    case DoCopy(_, _, _, _) => r.producer.Quiet?
    case DoReserve => r.producer.Copied?
    case DoStore => r.producer.Writing?
    case DoPublish => r.producer.Publishing?
    case DoBegin => r.consumer.Off?
    case DoVisit(_) => r.consumer.Scanning?
    case DoRelease => r.consumer.Emitted?
    case DoClose => r.consumer.Closing?
  }

  function Apply(r: Ring, s: Step): Ring
    requires Enabled(r, s)
  {
    match s
    case DoCopy(ts, sev, mod, body) => Copy(r, ts, sev, mod, body)
    case DoReserve => Reserve(r)
    case DoStore => Store(r)
    case DoPublish => Publish(r)
    case DoBegin => Begin(r)
    case DoVisit(taken) => Visit(r, taken)
    case DoRelease => Release(r)
    case DoClose => Close(r)
  }

  // ----- The invariant -----

  /** What the `n`-th slot of the endless tape, folded onto the ring, holds. */
  ghost function Expected(r: Ring, n: nat): Option<Entry> {
    if n < |r.accepted| then Some(r.accepted[n])
    else if n == |r.accepted| && r.producer.Publishing? then Some(r.producer.e)
    else None
  }

  ghost predicate Shape(r: Ring) {
    && r.Capacity() > 0
    && r.released <= |r.consumed| <= |r.accepted|
    && |r.accepted| - r.released < r.Capacity()
    && r.head == Fold(|r.accepted|, r.Capacity())
    && r.tail == Fold(r.released, r.Capacity())
  }

  ghost predicate Tape(r: Ring)
    requires r.Capacity() > 0
  {
    forall n :: |r.consumed| <= n < |r.consumed| + r.Capacity() ==>
      r.slots[Fold(n, r.Capacity())] == Expected(r, n)
  }

  ghost predicate ProducerOk(r: Ring)
    requires r.Capacity() > 0
  {
    match r.producer
    case Writing(_, h) => h == r.head && |r.accepted| - r.released + 1 < r.Capacity()
    case Publishing(_, h) => h == r.head && |r.accepted| - r.released + 1 < r.Capacity()
    case _ => true
  }

  ghost predicate ConsumerOk(r: Ring)
    requires r.Capacity() > 0
  {
    match r.consumer
    case Off => r.released == |r.consumed|
    case Scanning(t, h, limit) =>
      |r.consumed| <= limit <= |r.accepted| && t == Fold(|r.consumed|, r.Capacity()) && h == Fold(limit, r.Capacity())
    case Emitted(t, h, limit) =>
      |r.consumed| < limit <= |r.accepted| && t == Fold(|r.consumed|, r.Capacity()) && h == Fold(limit, r.Capacity())
    case Closing(t) => t == Fold(|r.consumed|, r.Capacity())
  }

  /** The texts in use: those of buffered entries and the one in the producer's hands, all distinct. */
  ghost function Held(r: Ring): seq<nat>
    requires |r.consumed| <= |r.accepted|
  {
    Texts(r.Buffered()) + (if r.producer.Quiet? then [] else [r.producer.e.text])
  }

  function Texts(entries: seq<Entry>): (texts: seq<nat>)
    ensures |texts| == |entries|
    ensures forall i :: 0 <= i < |entries| ==> texts[i] == entries[i].text
  {
    seq(|entries|, i requires 0 <= i < |entries| => entries[i].text)
  }

  /** The live blocks are exactly those held, each held once, all handed out before. */
  ghost predicate Owns(live: set<nat>, held: seq<nat>, next: nat) {
    && (forall x :: x in live <==> x in held)
    && (forall i, j :: 0 <= i < j < |held| ==> held[i] != held[j])
    && (forall x :: x in live ==> x < next)
  }

  lemma OwnsPush(live: set<nat>, held: seq<nat>, next: nat)
    requires Owns(live, held, next)
    ensures Owns(live + {next}, held + [next], next + 1)
  {
  }

  lemma OwnsDropLast(live: set<nat>, held: seq<nat>, x: nat, next: nat)
    requires Owns(live, held + [x], next)
    ensures x in live && Owns(live - {x}, held, next)
  {
    var all := held + [x];
    assert all[|held|] == x;
    assert forall i :: 0 <= i < |held| ==> all[i] == held[i];
    assert x !in held;
    assert forall y :: y in held ==> y in all;
  }

  lemma OwnsDropFirst(live: set<nat>, held: seq<nat>, x: nat, next: nat)
    requires Owns(live, [x] + held, next)
    ensures x in live && Owns(live - {x}, held, next)
  {
    var all := [x] + held;
    assert all[0] == x;
    assert forall i :: 0 <= i < |held| ==> all[i + 1] == held[i];
    assert x !in held;
    assert forall y :: y in held ==> y in all;
  }

  ghost predicate HeapOk(r: Ring)
    requires |r.consumed| <= |r.accepted|
  {
    Owns(r.live, Held(r), r.nextText)
  }

  ghost predicate Inv(r: Ring) {
    && Shape(r)
    && Tape(r)
    && ProducerOk(r)
    && ConsumerOk(r)
    && HeapOk(r)
    && r.consumed == r.accepted[..|r.consumed|]
    && r.offered == |r.accepted| + r.dropped + (if r.producer.Quiet? then 0 else 1)
    && !r.fault
  }

  // ----- Counting round the ring -----

  lemma {:induction false} FoldStep(n: nat, c: nat)
    requires c > 0
    ensures Fold(n + 1, c) == Bump(Fold(n, c), c)
    decreases n
  {
    if n >= c {
      FoldStep(n - c, c);
    }
  }

  /** Positions fewer than a capacity apart never share a slot. */
  lemma {:induction false} FoldApart(a: nat, b: nat, c: nat)
    requires a < b < a + c
    ensures Fold(a, c) != Fold(b, c)
    decreases a
  {
    if a >= c {
      FoldApart(a - c, b - c, c);
    }
  }

  // ----- Every step keeps the invariant -----

  lemma NewRingOk(capacity: nat)
    requires capacity > 0
    ensures Inv(NewRing(capacity))
  {
  }

  lemma CopyKeeps(r: Ring, ts: nat, sev: nat, mod: nat, body: string)
    requires Inv(r) && r.producer.Quiet?
    ensures Inv(Copy(r, ts, sev, mod, body))
  {
    hide Owns;
    var r' := Copy(r, ts, sev, mod, body);
    assert Held(r') == Held(r) + [r.nextText];
    OwnsPush(r.live, Held(r), r.nextText);
    assert forall n: nat :: Expected(r', n) == Expected(r, n);
  }

  lemma ReserveKeeps(r: Ring)
    requires Inv(r) && r.producer.Copied?
    ensures Inv(Reserve(r))
  {
    hide Owns;
    var r' := Reserve(r);
    var c := r.Capacity();
    assert forall n: nat :: Expected(r', n) == Expected(r, n);
    FoldStep(|r.accepted|, c);
    if Bump(r.head, c) == r.tail {
      assert Held(r) == Held(r') + [r.producer.e.text];
      OwnsDropLast(r.live, Held(r'), r.producer.e.text, r.nextText);
    } else {
      assert Held(r') == Held(r);
      // the tail is as many places behind as there are entries in flight
      if |r.accepted| + 1 == r.released + c {
        FullMeansEqual(r.released, c);
      }
    }
  }

  lemma FullMeansEqual(n: nat, c: nat)
    requires c > 0
    ensures Fold(n + c, c) == Fold(n, c)
  {
  }

  lemma StoreKeeps(r: Ring)
    requires Inv(r) && r.producer.Writing?
    ensures Inv(Store(r))
  {
    hide Owns;
    var r' := Store(r);
    var c := r.Capacity();
    var a := |r.accepted|;
    assert r.slots[Fold(a, c)] == Expected(r, a);
    forall n | |r'.consumed| <= n < |r'.consumed| + c
      ensures r'.slots[Fold(n, c)] == Expected(r', n)
    {
      if n < a {
        FoldApart(n, a, c);
      } else if a < n {
        FoldApart(a, n, c);
      }
      assert r.slots[Fold(n, c)] == Expected(r, n);
    }
    assert Held(r') == Held(r);
    assert HeapOk(r');
  }

  lemma PublishKeeps(r: Ring)
    requires Inv(r) && r.producer.Publishing?
    ensures Inv(Publish(r))
  {
    PublishTape(r);
    PublishHeld(r);
    hide Owns, Tape, Held;
    FoldStep(|r.accepted|, r.Capacity());
    assert Publish(r).accepted[..|r.consumed|] == r.accepted[..|r.consumed|];
  }

  lemma PublishTape(r: Ring)
    requires Inv(r) && r.producer.Publishing?
    ensures Tape(Publish(r))
  {
    hide HeapOk;
    var r' := Publish(r);
    forall n | |r'.consumed| <= n < |r'.consumed| + r'.Capacity()
      ensures r'.slots[Fold(n, r'.Capacity())] == Expected(r', n)
    {
      assert r.slots[Fold(n, r.Capacity())] == Expected(r, n);
    }
  }

  lemma PublishHeld(r: Ring)
    requires |r.consumed| <= |r.accepted| && r.producer.Publishing?
    ensures Held(Publish(r)) == Held(r)
  {
    assert Publish(r).Buffered() == r.Buffered() + [r.producer.e];
    assert Texts(Publish(r).Buffered()) == Texts(r.Buffered()) + [r.producer.e.text];
  }

  lemma BeginKeeps(r: Ring)
    requires Inv(r) && r.consumer.Off?
    ensures Inv(Begin(r))
  {
    hide Owns;
    var r' := Begin(r);
    assert Held(r') == Held(r);
    assert forall n: nat :: Expected(r', n) == Expected(r, n);
  }

  /** The consumer's cursor is on an accepted entry exactly when it differs from the head it loaded. */
  lemma CursorMeaning(r: Ring)
    requires Inv(r) && r.consumer.Scanning?
    ensures r.consumer.t == r.consumer.h <==> |r.consumed| == r.consumer.limit
    ensures r.consumer.t != r.consumer.h ==>
              && r.slots[r.consumer.t] == Some(r.accepted[|r.consumed|])
              && r.accepted[|r.consumed|].text in r.live
  {
    var c := r.Capacity();
    if |r.consumed| < r.consumer.limit {
      FoldApart(|r.consumed|, r.consumer.limit, c);
      assert r.slots[Fold(|r.consumed|, c)] == Expected(r, |r.consumed|);
      assert Held(r)[0] == r.accepted[|r.consumed|].text;
    }
  }

  lemma VisitKeeps(r: Ring, taken: bool)
    requires Inv(r) && r.consumer.Scanning?
    ensures Inv(Visit(r, taken))
  {
    CursorMeaning(r);
    SameTape(r, Visit(r, taken));
    hide Owns, Tape, Fold;
    assert Held(Visit(r, taken)) == Held(r);
  }

  /** The tape does not depend on the consumer's place. */
  lemma SameTape(r: Ring, r': Ring)
    requires r.Capacity() > 0 && Tape(r)
    requires r'.slots == r.slots && r'.consumed == r.consumed && r'.accepted == r.accepted
    requires r'.producer == r.producer
    ensures Tape(r')
  {
    assert forall n: nat :: Expected(r', n) == Expected(r, n);
  }

  lemma ReleaseKeeps(r: Ring)
    requires Inv(r) && r.consumer.Emitted?
    ensures Inv(Release(r))
  {
    ReleaseTape(r);
    ReleaseHeap(r);
    ReleaseRest(r);
    hide HeapOk, Tape, Shape, ProducerOk, ConsumerOk, Release;
  }

  lemma ReleaseRest(r: Ring)
    requires Inv(r) && r.consumer.Emitted?
    requires r.slots[r.consumer.t] == Some(r.accepted[|r.consumed|])
    ensures var r' := Release(r);
            && Shape(r') && ProducerOk(r') && ConsumerOk(r')
            && r'.consumed == r'.accepted[..|r'.consumed|]
            && r'.offered == |r'.accepted| + r'.dropped + (if r'.producer.Quiet? then 0 else 1)
  {
    hide HeapOk, Tape, Fold;
    var k := |r.consumed|;
    FoldStep(k, r.Capacity());
    assert r.accepted[..k + 1] == r.accepted[..k] + [r.accepted[k]];
  }

  lemma ReleaseTape(r: Ring)
    requires Inv(r) && r.consumer.Emitted?
    ensures r.slots[r.consumer.t] == Some(r.accepted[|r.consumed|])
    ensures Tape(Release(r))
  {
    hide HeapOk;
    var r' := Release(r);
    var c := r.Capacity();
    var k := |r.consumed|;
    assert r.slots[Fold(k, c)] == Expected(r, k);
    FullMeansEqual(k, c);
    forall n | k + 1 <= n < k + 1 + c
      ensures r'.slots[Fold(n, c)] == Expected(r', n)
    {
      if n < k + c {
        FoldApart(k, n, c);
        assert r.slots[Fold(n, c)] == Expected(r, n);
      }
    }
  }

  lemma ReleaseHeap(r: Ring)
    requires Inv(r) && r.consumer.Emitted?
    requires r.slots[r.consumer.t] == Some(r.accepted[|r.consumed|])
    ensures HeapOk(Release(r)) && !Release(r).fault
  {
    hide Owns, Tape;
    var r' := Release(r);
    var e := r.accepted[|r.consumed|];
    assert r.Buffered() == [e] + r'.Buffered();
    assert Texts(r.Buffered()) == [e.text] + Texts(r'.Buffered());
    Assoc([e.text], Texts(r'.Buffered()), if r.producer.Quiet? then [] else [r.producer.e.text]);
    OwnsDropFirst(r.live, Held(r'), e.text, r.nextText);
  }

  lemma CloseKeeps(r: Ring)
    requires Inv(r) && r.consumer.Closing?
    ensures Inv(Close(r))
  {
    hide Owns;
    var r' := Close(r);
    assert Held(r') == Held(r);
    assert forall n: nat :: Expected(r', n) == Expected(r, n);
  }

  /** Any step of either side keeps the invariant. */
  lemma StepKeeps(r: Ring, s: Step)
    requires Inv(r) && Enabled(r, s)
    ensures Inv(Apply(r, s))
  {
    hide Inv;
    match s {
      case DoCopy(ts, sev, mod, body) => CopyKeeps(r, ts, sev, mod, body);
      case DoReserve => ReserveKeeps(r);
      case DoStore => StoreKeeps(r);
      case DoPublish => PublishKeeps(r);
      case DoBegin => BeginKeeps(r);
      case DoVisit(taken) => VisitKeeps(r, taken);
      case DoRelease => ReleaseKeeps(r);
      case DoClose => CloseKeeps(r);
    }
  }

  /** A bounded queue: accepted is consumed then buffered, and the buffered entries lie from the cursor on. */
  ghost predicate IsQueue(r: Ring) {
    && r.Capacity() > 0
    && r.released <= |r.consumed| <= |r.accepted| < r.released + r.Capacity()
    && r.accepted == r.consumed + r.Buffered()
    && (forall n :: |r.consumed| <= n < |r.accepted| ==> r.slots[Fold(n, r.Capacity())] == Some(r.accepted[n]))
    && r.offered == |r.accepted| + r.dropped + (if r.producer.Quiet? then 0 else 1)
  }

  lemma InvIsQueue(r: Ring)
    requires Inv(r)
    ensures IsQueue(r) && !r.fault
  {
    hide HeapOk;
    forall n | |r.consumed| <= n < |r.accepted|
      ensures r.slots[Fold(n, r.Capacity())] == Some(r.accepted[n])
    {
      assert r.slots[Fold(n, r.Capacity())] == Expected(r, n);
    }
    assert r.accepted == r.accepted[..|r.consumed|] + r.Buffered();
  }
}
