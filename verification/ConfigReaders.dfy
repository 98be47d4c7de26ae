/**
 Lookups that run while configurations are being replaced. The pointer load, each probe and
 each publication are single steps, taken in any order; retired snapshots stay readable.
 */
module ConfigReaders {
  import opened Common
  import opened ConfigCache

  datatype Reader =
    | Idle
    | Probing(snap: nat, name: string, k: nat)
    | Scanning(snap: nat, name: string, i: nat)
    | Answered(from: Option<nat>, name: string, answer: Option<nat>)

  /** Every snapshot ever published, oldest first; the pointer is on the last one. */
  datatype State = State(published: seq<Snapshot>, readers: map<nat, Reader>)

  ghost predicate Init(s: State) {
    s.published == [] && forall r :: r in s.readers ==> s.readers[r].Idle?
  }

  datatype Event =
    | Publish(snap: Snapshot)
    | Load(reader: nat, name: string)
    | Look(reader: nat)

  /** What a reader does next, on its own snapshot. */
  function Advance(s: Snapshot, r: Reader): Reader
    requires r.Probing? || r.Scanning?
  {
    match r
    case Probing(snap, name, k) =>
      if k >= |s.buckets| then r else
      var v := s.buckets[Around(Home(name, |s.buckets|), k, |s.buckets|)];
      if v == 0 then Answered(Some(snap), name, None)
      else if v <= |s.entries| && s.entries[v - 1].name == name then
        Answered(Some(snap), name, Some(s.entries[v - 1].script))
      else Probing(snap, name, k + 1)
    case Scanning(snap, name, i) =>
      if i >= |s.entries| then Answered(Some(snap), name, None)
      else if s.entries[i].name == name then Answered(Some(snap), name, Some(s.entries[i].script))
      else Scanning(snap, name, i + 1)
  }

  ghost predicate Next(s: State, s': State, e: Event) {
    match e
    case Publish(snap) =>
      Complete(snap) && s' == s.(published := s.published + [snap])
    case Load(reader, name) =>
      && reader in s.readers
      && s.readers[reader].Idle?
      && var last := |s.published| - 1;
         s' == s.(readers := s.readers[reader :=
                    if last < 0 then Answered(None, name, None)
                    else if |s.published[last].buckets| > 0 then Probing(last, name, 0)
                    else Scanning(last, name, 0)])
    case Look(reader) =>
      && reader in s.readers
      && (s.readers[reader].Probing? || s.readers[reader].Scanning?)
      && s.readers[reader].snap < |s.published|
      && s' == s.(readers := s.readers[reader :=
                    Advance(s.published[s.readers[reader].snap], s.readers[reader])])
  }

  /** A run: its states, and the event between each two. */
  ghost predicate IsRun(states: seq<State>, events: seq<Event>) {
    && |states| == |events| + 1
    && Init(states[0])
    && forall i :: 0 <= i < |events| ==> Next(states[i], states[i + 1], events[i])
  }

  ghost predicate ReaderOk(published: seq<Snapshot>, r: Reader) {
    match r
    case Idle => true
    case Probing(snap, name, k) =>
      && snap < |published|
      && published[snap].buckets != []
      && k < |published[snap].buckets|
      && Passed(published[snap], name, k)
    case Scanning(snap, name, i) =>
      && snap < |published|
      && i <= |published[snap].entries|
      && forall j :: 0 <= j < i ==> published[snap].entries[j].name != name
    case Answered(from, name, answer) =>
      if from.None? then answer.None?
      else from.value < |published| && answer == FirstMatch(published[from.value].entries, name)
  }

  ghost predicate Inv(s: State) {
    && (forall i :: 0 <= i < |s.published| ==> Complete(s.published[i]))
    && (forall r :: r in s.readers ==> ReaderOk(s.published, s.readers[r]))
  }

  lemma AdvanceKeeps(published: seq<Snapshot>, r: Reader)
    requires r.Probing? || r.Scanning?
    requires ReaderOk(published, r) && Complete(published[r.snap])
    ensures ReaderOk(published, Advance(published[r.snap], r))
  {
    var s := published[r.snap];
    if r.Probing? {
      hide Complete, Indexed, FirstMatch;
      ProbeDecides(s, r.name, r.k);
      if r.k + 1 == |s.buckets| {
        var free := ProbeEnds(s, r.name);
        assert free == r.k;
      }
    } else if r.i < |s.entries| && s.entries[r.i].name == r.name {
      FirstMatchAt(s.entries, r.name, r.i);
    }
  }

  lemma NextKeeps(s: State, s': State, e: Event)
    requires Inv(s) && Next(s, s', e)
    ensures Inv(s')
  {
    hide Complete, FirstMatch, Passed;
    match e {
      case Publish(snap) =>
        forall r | r in s'.readers
          ensures ReaderOk(s'.published, s'.readers[r])
        {
          assert ReaderOk(s.published, s.readers[r]);
        }
      case Load(reader, name) =>
        var last := |s.published| - 1;
        if last >= 0 && |s.published[last].buckets| > 0 {
          NothingPassed(s.published[last], name);
        }
      case Look(reader) =>
        AdvanceKeeps(s.published, s.readers[reader]);
    }
  }

  lemma NothingPassed(s: Snapshot, name: string)
    requires s.buckets != []
    ensures Passed(s, name, 0)
  {
  }

  lemma {:induction false} RunKeeps(states: seq<State>, events: seq<Event>, n: nat)
    requires IsRun(states, events) && n < |states|
    ensures Inv(states[n])
    decreases n
  {
    if n > 0 {
      RunKeeps(states, events, n - 1);
      NextKeeps(states[n - 1], states[n], events[n - 1]);
    }
  }

  /** The snapshot that a lookup is on, or was on. */
  function Source(r: Reader): Option<nat>
    requires !r.Idle?
  {
    match r
    case Probing(snap, _, _) => Some(snap)
    case Scanning(snap, _, _) => Some(snap)
    case Answered(from, _, _) => from
  }

  /** Where the published pointer stands. */
  function Current(s: State): Option<nat> {
    if s.published == [] then None else Some(|s.published| - 1)
  }

  /** Step `m` loaded the pointer for this lookup, and found it on the lookup's snapshot. */
  ghost predicate LoadedAt(states: seq<State>, events: seq<Event>, m: nat, reader: nat, r: Reader)
    requires !r.Idle? && |states| == |events| + 1
  {
    m < |events| && events[m] == Load(reader, r.name) && Source(r) == Current(states[m])
  }

  /** Every lookup under way or finished was started by such a step. */
  lemma {:induction false} SomeStepLoaded(states: seq<State>, events: seq<Event>, n: nat, reader: nat) returns (m: nat)
    requires IsRun(states, events) && n < |states|
    requires reader in states[n].readers && !states[n].readers[reader].Idle?
    ensures m < n && LoadedAt(states, events, m, reader, states[n].readers[reader])
    decreases n
  {
    var s, s', e := states[n - 1], states[n - 1 + 1], events[n - 1];
    assert Next(s, s', e);
    if e.Load? && e.reader == reader {
      m := n - 1;
    } else {
      m := SomeStepLoaded(states, events, n - 1, reader);
    }
  }

  lemma {:induction false} PublishedGrows(states: seq<State>, events: seq<Event>, m: nat, n: nat)
    requires IsRun(states, events) && m <= n < |states|
    ensures states[m].published <= states[n].published
    decreases n - m
  {
    if m < n {
      PublishedGrows(states, events, m, n - 1);
      assert Next(states[n - 1], states[n - 1 + 1], events[n - 1]);
    }
  }

  /** The answer is what a linear scan of the snapshot published in `s` gives, or none before the first. */
  ghost predicate AnswersAsOf(s: State, name: string, answer: Option<nat>) {
    if s.published == [] then answer.None?
    else
      var snap := s.published[|s.published| - 1];
      Complete(snap) && answer == FirstMatch(snap.entries, name)
  }

  /**
   Every lookup that finishes, in any run, answers from exactly one complete snapshot: the one that was published
   at the step at which the lookup loaded the pointer.
   */
  lemma AnswersComeFromOneSnapshot(states: seq<State>, events: seq<Event>, n: nat, reader: nat) returns (m: nat)
    requires IsRun(states, events) && n < |states|
    requires reader in states[n].readers && states[n].readers[reader].Answered?
    ensures m < n && events[m] == Load(reader, states[n].readers[reader].name)
    ensures AnswersAsOf(states[m], states[n].readers[reader].name, states[n].readers[reader].answer)
  {
    hide Complete, FirstMatch;
    RunKeeps(states, events, n);
    m := SomeStepLoaded(states, events, n, reader);
    RunKeeps(states, events, m);
    PublishedGrows(states, events, m, n);
    assert ReaderOk(states[n].published, states[n].readers[reader]);
  }

  // ----- Lookups end -----

  /** How many of the events `a` up to `b` are looks of this reader. */
  function Looks(events: seq<Event>, reader: nat, a: nat, b: nat): nat
    requires a <= b <= |events|
    decreases b - a
  {
    if a == b then 0 else Looks(events, reader, a, b - 1) + if events[b - 1] == Look(reader) then 1 else 0
  }

  /** The reader has answered, or is as many places on as it has looked. */
  predicate KeepsUp(r: Reader, snap: nat, looks: nat) {
    r.Answered? || (r.Probing? && r.snap == snap && r.k == looks) || (r.Scanning? && r.snap == snap && r.i == looks)
  }

  lemma OneLook(s: Snapshot, r: Reader)
    requires r.Probing? ==> r.k < |s.buckets|
    requires r.Probing? || r.Scanning?
    ensures KeepsUp(Advance(s, r), r.snap, (if r.Probing? then r.k else r.i) + 1)
  {
  }

  lemma {:induction false} LooksAdvance(states: seq<State>, events: seq<Event>, reader: nat, m: nat, n: nat)
    requires IsRun(states, events) && m < n < |states|
    requires events[m].Load? && events[m].reader == reader && states[m].published != []
    requires forall k :: m < k < n ==> !(events[k].Load? && events[k].reader == reader)
    ensures reader in states[n].readers
    ensures KeepsUp(states[n].readers[reader], |states[m].published| - 1, Looks(events, reader, m + 1, n))
    decreases n
  {
    hide Advance;
    assert Next(states[n - 1], states[n - 1 + 1], events[n - 1]);
    if n > m + 1 {
      LooksAdvance(states, events, reader, m, n - 1);
      if events[n - 1] == Look(reader) {
        RunKeeps(states, events, n - 1);
        var r := states[n - 1].readers[reader];
        assert ReaderOk(states[n - 1].published, r);
        OneLook(states[n - 1].published[r.snap], r);
      }
    }
  }

  /** A lookup has answered once it has looked at every bucket, or past every entry, of its snapshot. */
  lemma LookupsEnd(states: seq<State>, events: seq<Event>, reader: nat, m: nat, n: nat)
    requires IsRun(states, events) && m < n < |states|
    requires events[m].Load? && events[m].reader == reader && states[m].published != []
    requires forall k :: m < k < n ==> !(events[k].Load? && events[k].reader == reader)
    requires var snap := states[m].published[|states[m].published| - 1];
             Looks(events, reader, m + 1, n) >= |snap.buckets| && Looks(events, reader, m + 1, n) > |snap.entries|
    ensures reader in states[n].readers && states[n].readers[reader].Answered?
  {
    LooksAdvance(states, events, reader, m, n);
    RunKeeps(states, events, n);
    PublishedGrows(states, events, m, n);
    assert ReaderOk(states[n].published, states[n].readers[reader]);
  }
}
