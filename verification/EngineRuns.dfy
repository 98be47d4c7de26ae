/**
 What one outermost dispatch does, read off its trace: to its own frame, to the frames of the calls nested in
 it, and to the buffers its parameters hold.
 */
module EngineRuns {
  import opened Common
  import opened Engine

  // ----- Frames -----

  /** The events on frame `frame` (or, with `mine` false, on every other frame), in order. */
  function Project(t: seq<Event>, frame: nat, mine: bool): seq<Event> {
    if t == [] then []
    else (if !t[0].FreeBuffer? && (t[0].frame == frame) == mine then [t[0]] else []) + Project(t[1..], frame, mine)
  }

  lemma {:induction false} ProjectConcat(a: seq<Event>, b: seq<Event>, frame: nat, mine: bool)
    ensures Project(a + b, frame, mine) == Project(a, frame, mine) + Project(b, frame, mine)
    decreases |a|
  {
    if a == [] {
      assert a + b == b;
    } else {
      var first := if !a[0].FreeBuffer? && (a[0].frame == frame) == mine then [a[0]] else [];
      assert (a + b)[0] == a[0] && (a + b)[1..] == a[1..] + b;
      ProjectConcat(a[1..], b, frame, mine);
      Assoc(first, Project(a[1..], frame, mine), Project(b, frame, mine));
    }
  }

  predicate Elsewhere(cs: seq<Call>, frame: nat) {
    forall i :: 0 <= i < |cs| ==> cs[i].frame != frame
  }

  lemma {:induction false} ProjectBails(cs: seq<Call>, frame: nat, mine: bool)
    requires Elsewhere(cs, frame)
    ensures Project(Bails(Builtin, 0, cs), frame, mine) == if mine then [] else Bails(Builtin, 0, cs)
  {
    if cs == [] {
      assert Bails(Builtin, 0, cs) == [];
    } else {
      var t := Bails(Builtin, 0, cs);
      assert t[1..] == Bails(Builtin, 0, cs[1..]);
      ProjectBails(cs[1..], frame, mine);
      assert t == [t[0]] + t[1..];
    }
  }

  lemma {:induction false} ProjectFrees(ps: seq<Param>, frame: nat, mine: bool)
    ensures Project(Frees(ps), frame, mine) == []
  {
    if ps != [] {
      var p := ps[|ps| - 1];
      ProjectFrees(ps[..|ps| - 1], frame, mine);
      ProjectConcat(Frees(ps[..|ps| - 1]), if p.freeValue then [FreeBuffer(p.value)] else [], frame, mine);
    }
  }

  /** How many of the actions run: up to and including the first that aborts. */
  function Ran(actions: seq<Action>, i: nat): (n: nat)
    requires i <= |actions|
    ensures i <= n <= |actions|
    decreases |actions| - i
  {
    if i == |actions| then i else if actions[i].aborts then i + 1 else Ran(actions, i + 1)
  }

  /** The calls made by actions `i` up to `n`. */
  function ActionCalls(actions: seq<Action>, i: nat, n: nat): seq<Call>
    requires i <= n <= |actions|
    decreases n - i
  {
    if i == n then [] else Order(actions[i].calls) + ActionCalls(actions, i + 1, n)
  }

  function ActionRuns(frame: nat, i: nat, n: nat): (t: seq<Event>)
    requires i <= n
  {
    seq(n - i, k requires 0 <= k < n - i => RunAction(frame, i + k))
  }

  /** The nested calls that reach the engine during dispatch `c`, in order. */
  function Reached(c: Call): seq<Call> {
    if c.impl.None? then []
    else
      Order(c.onKick) + Order(c.onPrototype) +
      (if !c.prototyped then []
       else Order(c.onFilter) + (if !c.loggable then [] else ReachedScript(c)))
  }

  function ReachedScript(c: Call): seq<Call> {
    Order(c.onSetup) +
    (if c.setup.Failed? then []
     else Order(c.onResolve) +
          (if c.script.NoScript? then [] else ActionCalls(c.script.actions, 0, Ran(c.script.actions, 0))))
  }

  /** Everything that happens to the frame of dispatch `c`. */
  function OwnEvents(ops: Ops, c: Call): seq<Event> {
    if c.impl.None? then [SetReturn(ops, c.frame, -1)]
    else [ScheduleReal(ops, c.frame, c.impl.value), Enter(c.frame)] +
         (if !c.prototyped || !c.loggable then [] else OwnScript(ops, c))
  }

  function OwnScript(ops: Ops, c: Call): seq<Event> {
    [ReadParams(ops, c.frame)] +
    (if c.setup.Failed? || c.script.NoScript? then []
     else
       var done := AfterActions(c.script.actions, 0, Stored(0, 0, c.setup.values));
       [CancelReal(ops, c.frame)] + ActionRuns(c.frame, 0, Ran(c.script.actions, 0))
       + [SetReturn(ops, c.frame, Translate(ops, done.ret, done.errno))])
  }

  /** The two projections of a trace that carries own events `own` and nested calls `cs`. */
  predicate Splits(t: seq<Event>, frame: nat, own: seq<Event>, cs: seq<Call>) {
    Project(t, frame, true) == own && Project(t, frame, false) == Bails(Builtin, 0, cs)
  }

  lemma SplitsConcat(a: seq<Event>, b: seq<Event>, frame: nat, own: seq<Event>, own': seq<Event>,
                     cs: seq<Call>, cs': seq<Call>)
    requires Splits(a, frame, own, cs) && Splits(b, frame, own', cs')
    ensures Splits(a + b, frame, own + own', cs + cs')
  {
    ProjectConcat(a, b, frame, true);
    ProjectConcat(a, b, frame, false);
    BailsConcat(Builtin, 0, cs, cs');
  }

  lemma OwnSplits(e: Event, frame: nat)
    requires !e.FreeBuffer? && e.frame == frame
    ensures Splits([e], frame, [e], [])
  {
    assert [e] == [e] + [];
    assert Bails(Builtin, 0, []) == [];
  }

  lemma NestedSplits(cs: seq<Call>, frame: nat)
    requires Elsewhere(Order(cs), frame)
    ensures Splits(Nested(cs), frame, [], Order(cs))
  {
    ProjectBails(Order(cs), frame, true);
    ProjectBails(Order(cs), frame, false);
  }

  lemma FreesSplit(ps: seq<Param>, frame: nat)
    ensures Splits(Frees(ps), frame, [], [])
  {
    ProjectFrees(ps, frame, true);
    ProjectFrees(ps, frame, false);
    assert Bails(Builtin, 0, []) == [];
  }

  lemma ReleaseSplits(a: Action, s: Stored, frame: nat)
    ensures Splits(Release(a, s), frame, [], [])
  {
    assert Bails(Builtin, 0, []) == [];
  }

  lemma ActionSplits(frame: nat, a: Action, i: nat, s: Stored)
    requires Elsewhere(Order(a.calls), frame)
    ensures Splits(ActionEvents(frame, a, i, s), frame, [RunAction(frame, i)], Order(a.calls))
  {
    hide Splits, Nested, Release, Order;
    OwnSplits(RunAction(frame, i), frame);
    NestedSplits(a.calls, frame);
    ReleaseSplits(a, s, frame);
    SplitsConcat([RunAction(frame, i)], Nested(a.calls), frame, [RunAction(frame, i)], [], [], Order(a.calls));
    assert [RunAction(frame, i)] + [] == [RunAction(frame, i)] && [] + Order(a.calls) == Order(a.calls);
    SplitsConcat([RunAction(frame, i)] + Nested(a.calls), Release(a, s), frame,
                 [RunAction(frame, i)], [], Order(a.calls), []);
    assert Order(a.calls) + [] == Order(a.calls);
  }

  lemma {:induction false} ActionsSplit(frame: nat, actions: seq<Action>, i: nat, s: Stored)
    requires i <= |actions|
    requires Elsewhere(ActionCalls(actions, i, Ran(actions, i)), frame)
    ensures Splits(ActionTrace(frame, actions, i, s), frame,
                   ActionRuns(frame, i, Ran(actions, i)), ActionCalls(actions, i, Ran(actions, i)))
    decreases |actions| - i
  {
    hide Splits, ActionEvents, AfterAction, Order, Elsewhere;
    var n := Ran(actions, i);
    if i == |actions| {
      NothingSplits(frame);
      assert ActionRuns(frame, i, n) == [];
    } else {
      var rest := ActionCalls(actions, i + 1, n);
      ElsewhereParts(Order(actions[i].calls), rest, frame);
      ActionSplits(frame, actions[i], i, s);
      if actions[i].aborts {
        assert ActionRuns(frame, i, n) == [RunAction(frame, i)];
        assert Order(actions[i].calls) + rest == Order(actions[i].calls);
      } else {
        ActionsSplit(frame, actions, i + 1, AfterAction(actions[i], s));
        assert ActionRuns(frame, i, n) == [RunAction(frame, i)] + ActionRuns(frame, i + 1, n);
        JoinActions(frame, actions, i, s);
      }
    }
  }

  lemma NothingSplits(frame: nat)
    ensures Splits([], frame, [], [])
  {
    assert Bails(Builtin, 0, []) == [];
  }

  lemma JoinActions(frame: nat, actions: seq<Action>, i: nat, s: Stored)
    requires i < |actions| && !actions[i].aborts
    requires Splits(ActionEvents(frame, actions[i], i, s), frame, [RunAction(frame, i)], Order(actions[i].calls))
    requires Splits(ActionTrace(frame, actions, i + 1, AfterAction(actions[i], s)), frame,
                    ActionRuns(frame, i + 1, Ran(actions, i + 1)), ActionCalls(actions, i + 1, Ran(actions, i + 1)))
    ensures Splits(ActionTrace(frame, actions, i, s), frame,
                   [RunAction(frame, i)] + ActionRuns(frame, i + 1, Ran(actions, i + 1)),
                   ActionCalls(actions, i, Ran(actions, i)))
  {
    hide Splits, ActionEvents, AfterAction, ActionRuns;
    SplitsConcat(ActionEvents(frame, actions[i], i, s),
                 ActionTrace(frame, actions, i + 1, AfterAction(actions[i], s)), frame,
                 [RunAction(frame, i)], ActionRuns(frame, i + 1, Ran(actions, i + 1)),
                 Order(actions[i].calls), ActionCalls(actions, i + 1, Ran(actions, i + 1)));
  }

  lemma ElsewhereParts(a: seq<Call>, b: seq<Call>, frame: nat)
    requires Elsewhere(a + b, frame)
    ensures Elsewhere(a, frame) && Elsewhere(b, frame)
  {
    forall i | 0 <= i < |a| ensures a[i].frame != frame {
      assert (a + b)[i] == a[i];
    }
    forall i | 0 <= i < |b| ensures b[i].frame != frame {
      assert (a + b)[|a| + i] == b[i];
    }
  }

  lemma ScriptRunSplits(ops: Ops, frame: nat, actions: seq<Action>, s: Stored)
    requires Elsewhere(ActionCalls(actions, 0, Ran(actions, 0)), frame)
    ensures var done := AfterActions(actions, 0, s);
            Splits(ScriptRun(ops, frame, actions, s), frame,
                   [CancelReal(ops, frame)] + ActionRuns(frame, 0, Ran(actions, 0))
                   + [SetReturn(ops, frame, Translate(ops, done.ret, done.errno))],
                   ActionCalls(actions, 0, Ran(actions, 0)))
  {
    hide Splits, ActionTrace, AfterActions, ActionCalls, Ran, ActionRuns;
    var done := AfterActions(actions, 0, s);
    var last := SetReturn(ops, frame, Translate(ops, done.ret, done.errno));
    var cs := ActionCalls(actions, 0, Ran(actions, 0));
    var runs := ActionRuns(frame, 0, Ran(actions, 0));
    ActionsSplit(frame, actions, 0, s);
    OwnSplits(CancelReal(ops, frame), frame);
    OwnSplits(last, frame);
    SplitsConcat([CancelReal(ops, frame)], ActionTrace(frame, actions, 0, s), frame,
                 [CancelReal(ops, frame)], runs, [], cs);
    assert [] + cs == cs && cs + [] == cs;
    SplitsConcat([CancelReal(ops, frame)] + ActionTrace(frame, actions, 0, s), [last], frame,
                 [CancelReal(ops, frame)] + runs, [last], cs, []);
  }

  lemma ScriptWorkSplits(ops: Ops, c: Call)
    requires Elsewhere(ReachedScript(c), c.frame)
    ensures Splits(ScriptWork(ops, c), c.frame, OwnScript(ops, c), ReachedScript(c))
  {
    hide Splits, Nested, ScriptRun, Order, ActionRuns, ActionCalls, Ran;
    var head := ReadParams(ops, c.frame);
    var setup := Order(c.onSetup);
    ElsewhereParts(setup, ReachedScript(c)[|setup|..], c.frame);
    assert ReachedScript(c) == setup + ReachedScript(c)[|setup|..];
    OwnSplits(head, c.frame);
    NestedSplits(c.onSetup, c.frame);
    SplitsConcat([head], Nested(c.onSetup), c.frame, [head], [], [], setup);
    assert [head] + [] == [head] && [] + setup == setup;
    if c.setup.Failed? {
      assert ReachedScript(c) == setup;
      assert ScriptWork(ops, c) == [head] + Nested(c.onSetup);
    } else {
      TailSplits(ops, c);
    }
  }

  lemma TailSplits(ops: Ops, c: Call)
    requires c.setup.Ready? && Elsewhere(ReachedScript(c), c.frame)
    requires Splits([ReadParams(ops, c.frame)] + Nested(c.onSetup), c.frame,
                    [ReadParams(ops, c.frame)], Order(c.onSetup))
    ensures Splits(ScriptWork(ops, c), c.frame, OwnScript(ops, c), ReachedScript(c))
  {
    hide Splits, Nested, ScriptRun, Order, ActionRuns, ActionCalls, Ran, AfterActions;
    var head := ReadParams(ops, c.frame);
    var setup, resolve := Order(c.onSetup), Order(c.onResolve);
    var cs := if c.script.NoScript? then [] else ActionCalls(c.script.actions, 0, Ran(c.script.actions, 0));
    ElsewhereParts(setup, resolve + cs, c.frame);
    ElsewhereParts(resolve, cs, c.frame);
    NestedSplits(c.onResolve, c.frame);
    if c.script.NoScript? {
      assert resolve + cs == resolve;
      assert Nested(c.onResolve) + [] == Nested(c.onResolve);
      SplitsConcat([head] + Nested(c.onSetup), Nested(c.onResolve), c.frame, [head], [], setup, resolve);
      assert [head] + [] == [head];
    } else {
      var s := Stored(0, 0, c.setup.values);
      var own := OwnScript(ops, c)[1..];
      ScriptRunSplits(ops, c.frame, c.script.actions, s);
      SplitsConcat(Nested(c.onResolve), ScriptRun(ops, c.frame, c.script.actions, s), c.frame, [], own, resolve, cs);
      assert [] + own == own;
      SplitsConcat([head] + Nested(c.onSetup), Nested(c.onResolve) + ScriptRun(ops, c.frame, c.script.actions, s),
                   c.frame, [head], own, setup, resolve + cs);
      assert [head] + own == OwnScript(ops, c);
    }
  }

  lemma WorkSplits(ops: Ops, c: Call)
    requires c.impl.Some? && Elsewhere(Reached(c), c.frame)
    ensures Splits(Work(ops, c), c.frame,
                   if !c.prototyped || !c.loggable then [] else OwnScript(ops, c), Reached(c))
  {
    hide Splits, Nested, ScriptWork, Order, ReachedScript, OwnScript;
    var kick, proto, filter := Order(c.onKick), Order(c.onPrototype), Order(c.onFilter);
    var rest := if !c.prototyped then [] else filter + (if !c.loggable then [] else ReachedScript(c));
    ElsewhereParts(kick + proto, rest, c.frame);
    ElsewhereParts(kick, proto, c.frame);
    NestedSplits(c.onKick, c.frame);
    NestedSplits(c.onPrototype, c.frame);
    var start := Nested(c.onKick) + Nested(c.onPrototype);
    SplitsConcat(Nested(c.onKick), Nested(c.onPrototype), c.frame, [], [], kick, proto);
    if !c.prototyped {
      assert start + [] == start && kick + proto + [] == kick + proto;
    } else {
      var tail := if !c.loggable then [] else ReachedScript(c);
      ElsewhereParts(filter, tail, c.frame);
      NestedSplits(c.onFilter, c.frame);
      if !c.loggable {
        assert Nested(c.onFilter) + [] == Nested(c.onFilter) && filter + [] == filter;
        SplitsConcat(start, Nested(c.onFilter), c.frame, [], [], kick + proto, filter);
      } else {
        ScriptWorkSplits(ops, c);
        SplitsConcat(Nested(c.onFilter), ScriptWork(ops, c), c.frame, [], OwnScript(ops, c), filter, tail);
        assert [] + OwnScript(ops, c) == OwnScript(ops, c);
        SplitsConcat(start, Nested(c.onFilter) + ScriptWork(ops, c), c.frame,
                     [], OwnScript(ops, c), kick + proto, filter + tail);
      }
    }
  }

  /**
   An outermost dispatch touches its own frame exactly as scheduled, through the lane in force, and each frame
   sheltered in it exactly once, through the built-in table: with its real implementation, or with -1 when there
   is none.
   */
  lemma FramesGetTheirOwn(ops: Ops, c: Call)
    requires Elsewhere(Reached(c), c.frame)
    ensures Project(OwnTrace(ops, c), c.frame, true) == OwnEvents(ops, c)
    ensures Project(OwnTrace(ops, c), c.frame, false) == Bails(Builtin, 0, Reached(c))
  {
    hide Work, Frees, Flagged, OwnScript;
    if c.impl.None? {
      OwnSplits(SetReturn(ops, c.frame, -1), c.frame);
    } else {
      DispatchSplits(ops, c);
    }
  }

  lemma DispatchSplits(ops: Ops, c: Call)
    requires c.impl.Some? && Elsewhere(Reached(c), c.frame)
    ensures Splits(OwnTrace(ops, c), c.frame, OwnEvents(ops, c), Reached(c))
  {
    hide Splits, Work, Frees, Flagged, OwnScript, Reached;
    var own := if !c.prototyped || !c.loggable then [] else OwnScript(ops, c);
    var first := [ScheduleReal(ops, c.frame, c.impl.value), Enter(c.frame)];
    OpeningSplits(ops, c);
    WorkSplits(ops, c);
    FreesSplit(Flagged(c), c.frame);
    SplitsConcat(first, Work(ops, c), c.frame, first, own, [], Reached(c));
    assert [] + Reached(c) == Reached(c);
    SplitsConcat(first + Work(ops, c), Frees(Flagged(c)), c.frame, first + own, [], Reached(c), []);
    assert first + own + [] == first + own && Reached(c) + [] == Reached(c);
  }

  lemma OpeningSplits(ops: Ops, c: Call)
    requires c.impl.Some?
    ensures var first := [ScheduleReal(ops, c.frame, c.impl.value), Enter(c.frame)];
            Splits(first, c.frame, first, [])
  {
    hide Splits;
    var a, b := ScheduleReal(ops, c.frame, c.impl.value), Enter(c.frame);
    OwnSplits(a, c.frame);
    OwnSplits(b, c.frame);
    var none: seq<Call> := [];
    SplitsConcat([a], [b], c.frame, [a], [b], none, none);
    assert [a] + [b] == [a, b] && none + none == none;
  }

  // ----- Buffers -----

  /** The buffers freed in a trace. */
  function Freed(t: seq<Event>): multiset<nat> {
    if t == [] then multiset{}
    else (if t[0].FreeBuffer? then multiset{t[0].block} else multiset{}) + Freed(t[1..])
  }

  lemma FreedConcat(a: seq<Event>, b: seq<Event>)
    ensures Freed(a + b) == Freed(a) + Freed(b)
  {
    if a == [] {
      assert a + b == b;
    } else {
      assert (a + b)[1..] == a[1..] + b;
      FreedConcat(a[1..], b);
    }
  }

  lemma {:induction false} BailsFreeNothing(cs: seq<Call>)
    ensures Freed(Bails(Builtin, 0, cs)) == multiset{}
  {
    if cs == [] {
      assert Bails(Builtin, 0, cs) == [];
    } else {
      assert Bails(Builtin, 0, cs)[1..] == Bails(Builtin, 0, cs[1..]);
      BailsFreeNothing(cs[1..]);
    }
  }

  lemma NestedFreesNothing(cs: seq<Call>)
    ensures Freed(Nested(cs)) == multiset{}
  {
    BailsFreeNothing(Order(cs));
  }

  /** The buffers held by flagged parameters. */
  function Held(ps: seq<Param>): multiset<nat> {
    if ps == [] then multiset{}
    else Held(ps[..|ps| - 1]) + (if ps[|ps| - 1].freeValue then multiset{ps[|ps| - 1].value} else multiset{})
  }

  lemma {:induction false} FreesFreeTheHeld(ps: seq<Param>)
    ensures Freed(Frees(ps)) == Held(ps)
  {
    if ps != [] {
      var p := ps[|ps| - 1];
      FreesFreeTheHeld(ps[..|ps| - 1]);
      FreedConcat(Frees(ps[..|ps| - 1]), if p.freeValue then [FreeBuffer(p.value)] else []);
    }
  }

  function HeldBy(p: Param): multiset<nat> {
    if p.freeValue then multiset{p.value} else multiset{}
  }

  /** Replacing one parameter exchanges what it holds. */
  lemma {:induction false} HeldUpdate(ps: seq<Param>, k: nat, p: Param)
    requires k < |ps|
    ensures Held(ps[k := p]) + HeldBy(ps[k]) == Held(ps) + HeldBy(p)
  {
    hide Held;
    var n := |ps| - 1;
    HeldSplit(ps);
    HeldSplit(ps[k := p]);
    if k < n {
      HeldUpdate(ps[..n], k, p);
      assert ps[k := p][..n] == ps[..n][k := p];
      AddBoth(Held(ps[..n][k := p]), HeldBy(ps[k]), Held(ps[..n]), HeldBy(p), HeldBy(ps[n]));
    } else {
      assert ps[k := p][..n] == ps[..n];
    }
  }

  lemma HeldSplit(ps: seq<Param>)
    requires ps != []
    ensures Held(ps) == Held(ps[..|ps| - 1]) + HeldBy(ps[|ps| - 1])
  {
  }

  lemma AddBoth(a: multiset<nat>, b: multiset<nat>, c: multiset<nat>, d: multiset<nat>, e: multiset<nat>)
    requires a + b == c + d
    ensures a + e + b == c + e + d
  {
    assert a + e + b == (a + b) + e;
  }

  lemma Chain(held: multiset<nat>, a: multiset<nat>, f: multiset<nat>, l: multiset<nat>, held': multiset<nat>,
              a': multiset<nat>, f': multiset<nat>, l': multiset<nat>, end: multiset<nat>)
    requires held + a == f + l + held' && held' + a' == f' + l' + end
    ensures held + (a + a') == (f + f') + (l + l') + end
  {
    forall x ensures (held + (a + a'))[x] == ((f + f') + (l + l') + end)[x] {
      assert (held + a)[x] == (f + l + held')[x] && (held' + a')[x] == (f' + l' + end)[x];
    }
  }

  /** The buffer an action allocates, if it replaces a parameter. */
  function Allocates(a: Action, s: Stored): multiset<nat> {
    if Replaces(a, s) then multiset{a.param.value.buffer} else multiset{}
  }

  /** The buffer an action loses: displaced from a flagged parameter and not freed. */
  function Loses(a: Action, s: Stored): multiset<nat> {
    if Displaces(a, s) && !a.param.value.releases then multiset{s.params[a.param.value.index].value} else multiset{}
  }

  lemma ActionConserves(frame: nat, a: Action, i: nat, s: Stored)
    ensures Held(s.params) + Allocates(a, s)
         == Freed(ActionEvents(frame, a, i, s)) + Loses(a, s) + Held(AfterAction(a, s).params)
  {
    hide Nested, Held;
    FreedConcat([RunAction(frame, i)] + Nested(a.calls), Release(a, s));
    FreedConcat([RunAction(frame, i)], Nested(a.calls));
    NestedFreesNothing(a.calls);
    assert Freed([RunAction(frame, i)]) == multiset{};
    assert Freed(ActionEvents(frame, a, i, s)) == Freed(Release(a, s));
    ReplacementConserves(a, s);
  }

  lemma ReplacementConserves(a: Action, s: Stored)
    ensures Held(s.params) + Allocates(a, s) == Freed(Release(a, s)) + Loses(a, s) + Held(AfterAction(a, s).params)
  {
    hide Held;
    if Replaces(a, s) {
      var k := a.param.value.index;
      HeldUpdate(s.params, k, Param(a.param.value.buffer, true));
      assert Freed(Release(a, s)) + Loses(a, s) == HeldBy(s.params[k]);
    }
  }

  function AllocatedBy(actions: seq<Action>, i: nat, s: Stored): multiset<nat>
    requires i <= |actions|
    decreases |actions| - i
  {
    if i == |actions| then multiset{}
    else Allocates(actions[i], s)
         + (if actions[i].aborts then multiset{} else AllocatedBy(actions, i + 1, AfterAction(actions[i], s)))
  }

  function LostBy(actions: seq<Action>, i: nat, s: Stored): multiset<nat>
    requires i <= |actions|
    decreases |actions| - i
  {
    if i == |actions| then multiset{}
    else Loses(actions[i], s)
         + (if actions[i].aborts then multiset{} else LostBy(actions, i + 1, AfterAction(actions[i], s)))
  }

  lemma {:induction false} ActionsConserve(frame: nat, actions: seq<Action>, i: nat, s: Stored)
    requires i <= |actions|
    ensures Held(s.params) + AllocatedBy(actions, i, s)
         == Freed(ActionTrace(frame, actions, i, s)) + LostBy(actions, i, s)
            + Held(AfterActions(actions, i, s).params)
    decreases |actions| - i
  {
    hide ActionEvents, AfterAction, Held, Allocates, Loses;
    if i < |actions| {
      ActionConserves(frame, actions[i], i, s);
      if actions[i].aborts {
        assert AllocatedBy(actions, i, s) == Allocates(actions[i], s);
        assert LostBy(actions, i, s) == Loses(actions[i], s);
      } else {
        var s' := AfterAction(actions[i], s);
        ActionsConserve(frame, actions, i + 1, s');
        FreedConcat(ActionEvents(frame, actions[i], i, s), ActionTrace(frame, actions, i + 1, s'));
        Chain(Held(s.params), Allocates(actions[i], s), Freed(ActionEvents(frame, actions[i], i, s)),
              Loses(actions[i], s), Held(s'.params), AllocatedBy(actions, i + 1, s'),
              Freed(ActionTrace(frame, actions, i + 1, s')), LostBy(actions, i + 1, s'),
              Held(AfterActions(actions, i, s).params));
      }
    }
  }

  /** Flagged copies made when parameters are read, and buffers the actions allocate. */
  function Allocated(c: Call): multiset<nat> {
    (if c.impl.Some? && c.prototyped && c.loggable && c.setup.Ready? then Held(c.setup.values) else multiset{})
    + (if Scripted(c) then AllocatedBy(c.script.actions, 0, Stored(0, 0, c.setup.values)) else multiset{})
  }

  function Lost(c: Call): multiset<nat> {
    if Scripted(c) then LostBy(c.script.actions, 0, Stored(0, 0, c.setup.values)) else multiset{}
  }

  lemma {:induction false} ZerosHoldNothing(n: nat)
    requires n <= MAX_PARAMS
    ensures Held(Zeros()[..n]) == multiset{}
  {
    if n != 0 {
      ZerosHoldNothing(n - 1);
      assert Zeros()[..n][..n - 1] == Zeros()[..n - 1];
    }
  }

  lemma ScriptRunFrees(ops: Ops, frame: nat, actions: seq<Action>, s: Stored)
    ensures Freed(ScriptRun(ops, frame, actions, s)) == Freed(ActionTrace(frame, actions, 0, s))
  {
    hide ActionTrace, AfterActions;
    var done := AfterActions(actions, 0, s);
    var last := SetReturn(ops, frame, Translate(ops, done.ret, done.errno));
    FreedConcat([CancelReal(ops, frame)] + ActionTrace(frame, actions, 0, s), [last]);
    FreedConcat([CancelReal(ops, frame)], ActionTrace(frame, actions, 0, s));
  }

  lemma ScriptWorkFrees(ops: Ops, c: Call)
    ensures Freed(ScriptWork(ops, c)) ==
            if c.setup.Ready? && c.script.Script?
            then Freed(ActionTrace(c.frame, c.script.actions, 0, Stored(0, 0, c.setup.values))) else multiset{}
  {
    hide Nested, ScriptRun, ActionTrace;
    var head := [ReadParams(ops, c.frame)];
    FreedConcat(head, Nested(c.onSetup));
    NestedFreesNothing(c.onSetup);
    if c.setup.Failed? {
      assert ScriptWork(ops, c) == head + Nested(c.onSetup);
    } else {
      var run := if c.script.NoScript? then []
                 else ScriptRun(ops, c.frame, c.script.actions, Stored(0, 0, c.setup.values));
      FreedConcat(head + Nested(c.onSetup), Nested(c.onResolve) + run);
      FreedConcat(Nested(c.onResolve), run);
      NestedFreesNothing(c.onResolve);
      if c.script.Script? {
        ScriptRunFrees(ops, c.frame, c.script.actions, Stored(0, 0, c.setup.values));
      }
    }
  }

  lemma WorkFrees(ops: Ops, c: Call)
    ensures Freed(Work(ops, c)) == if c.prototyped && c.loggable then Freed(ScriptWork(ops, c)) else multiset{}
  {
    hide Nested, ScriptWork;
    FreedConcat(Nested(c.onKick), Nested(c.onPrototype));
    NestedFreesNothing(c.onKick);
    NestedFreesNothing(c.onPrototype);
    NestedFreesNothing(c.onFilter);
    var start := Nested(c.onKick) + Nested(c.onPrototype);
    if !c.prototyped {
      assert Work(ops, c) == start;
    } else {
      var tail := if !c.loggable then [] else ScriptWork(ops, c);
      FreedConcat(start, Nested(c.onFilter) + tail);
      FreedConcat(Nested(c.onFilter), tail);
    }
  }

  /** Every buffer a dispatch allocates is freed once or lost once, and nothing else is freed. */
  lemma BuffersAreConserved(ops: Ops, c: Call)
    ensures Allocated(c) == Freed(OwnTrace(ops, c)) + Lost(c)
  {
    hide Work, Frees, Held, ScriptWork, AllocatedBy, LostBy, ActionTrace, AfterActions;
    if c.impl.Some? {
      var first := [ScheduleReal(ops, c.frame, c.impl.value), Enter(c.frame)];
      OpeningFreesNothing(ops, c);
      FreedConcat(first + Work(ops, c), Frees(Flagged(c)));
      FreedConcat(first, Work(ops, c));
      WorkFrees(ops, c);
      ScriptWorkFrees(ops, c);
      FreesFreeTheHeld(Flagged(c));
      FlaggedHold(ops, c);
    }
  }

  lemma OpeningFreesNothing(ops: Ops, c: Call)
    requires c.impl.Some?
    ensures Freed([ScheduleReal(ops, c.frame, c.impl.value), Enter(c.frame)]) == multiset{}
  {
    var first := [ScheduleReal(ops, c.frame, c.impl.value), Enter(c.frame)];
    assert first[1..] == [Enter(c.frame)] && [Enter(c.frame)][1..] == [];
    assert Freed([Enter(c.frame)]) == multiset{};
  }

  lemma FlaggedHold(ops: Ops, c: Call)
    requires c.impl.Some?
    ensures Allocated(c) == Held(Flagged(c)) + Lost(c)
                            + (if Scripted(c)
                               then Freed(ActionTrace(c.frame, c.script.actions, 0, Stored(0, 0, c.setup.values)))
                               else multiset{})
  {
    hide AllocatedBy, LostBy, ActionTrace, AfterActions;
    if c.setup.Failed? {
      ZerosHoldNothing(c.setup.count);
    } else if Scripted(c) {
      ActionsConserve(c.frame, c.script.actions, 0, Stored(0, 0, c.setup.values));
    }
  }

  /** The context as action `k` finds it. */
  function Before(actions: seq<Action>, i: nat, k: nat, s: Stored): Stored
    requires i <= k <= |actions|
    decreases k - i
  {
    if i == k then s else Before(actions, i + 1, k, AfterAction(actions[i], s))
  }

  /** An action that runs replaces a flagged buffer and does not free it first. */
  predicate Drops(actions: seq<Action>, i: nat, k: nat, s: Stored)
    requires i <= k < |actions|
  {
    var before := Before(actions, i, k, s);
    Displaces(actions[k], before) && !actions[k].param.value.releases
  }

  lemma {:induction false} LosesIffDrops(actions: seq<Action>, i: nat, s: Stored)
    requires i <= |actions|
    ensures LostBy(actions, i, s) == multiset{} <==> forall k :: i <= k < Ran(actions, i) ==> !Drops(actions, i, k, s)
    decreases |actions| - i
  {
    hide AfterAction, Drops, Loses;
    if i < |actions| {
      DropsNow(actions, i, s);
      if actions[i].aborts {
        assert LostBy(actions, i, s) == Loses(actions[i], s);
        assert Ran(actions, i) == i + 1;
      } else {
        var s' := AfterAction(actions[i], s);
        assert Ran(actions, i) == Ran(actions, i + 1);
        assert LostBy(actions, i, s) == Loses(actions[i], s) + LostBy(actions, i + 1, s');
        LosesIffDrops(actions, i + 1, s');
        EmptySum(Loses(actions[i], s), LostBy(actions, i + 1, s'));
        if LostBy(actions, i, s) == multiset{} {
          forall k | i <= k < Ran(actions, i) ensures !Drops(actions, i, k, s) {
            if i < k {
              DropsLater(actions, i, k, s);
            }
          }
        } else if forall k :: i <= k < Ran(actions, i) ==> !Drops(actions, i, k, s) {
          var j := i + 1;
          forall k | j <= k < Ran(actions, j) ensures !Drops(actions, j, k, s') {
            DropsLater(actions, i, k, s);
          }
        }
      }
    }
  }

  lemma DropsNow(actions: seq<Action>, i: nat, s: Stored)
    requires i < |actions|
    ensures Loses(actions[i], s) == multiset{} <==> !Drops(actions, i, i, s)
  {
    assert Before(actions, i, i, s) == s;
    if Drops(actions, i, i, s) {
      assert s.params[actions[i].param.value.index].value in Loses(actions[i], s);
    }
  }

  lemma DropsLater(actions: seq<Action>, i: nat, k: nat, s: Stored)
    requires i < k < |actions|
    ensures Drops(actions, i, k, s) == Drops(actions, i + 1, k, AfterAction(actions[i], s))
  {
    assert Before(actions, i, k, s) == Before(actions, i + 1, k, AfterAction(actions[i], s));
  }

  lemma EmptySum(a: multiset<nat>, b: multiset<nat>)
    ensures a + b == multiset{} <==> a == multiset{} && b == multiset{}
  {
    if a + b == multiset{} {
      forall x ensures a[x] == 0 && b[x] == 0 {
        assert (a + b)[x] == 0;
      }
    }
  }

  /** A dispatch frees exactly what it allocates if and only if every replaced buffer is released first. */
  lemma ReleasedExactlyOnceIff(ops: Ops, c: Call)
    ensures Freed(OwnTrace(ops, c)) == Allocated(c)
       <==> (Scripted(c) ==>
             forall k :: 0 <= k < Ran(c.script.actions, 0) ==>
               !Drops(c.script.actions, 0, k, Stored(0, 0, c.setup.values)))
  {
    hide Freed, OwnTrace, Allocated, Drops, LostBy, Ran;
    BuffersAreConserved(ops, c);
    if Scripted(c) {
      LosesIffDrops(c.script.actions, 0, Stored(0, 0, c.setup.values));
      Cancels(Freed(OwnTrace(ops, c)), Lost(c));
    }
  }

  lemma Cancels(a: multiset<nat>, b: multiset<nat>)
    ensures a == a + b <==> b == multiset{}
  {
    if a == a + b {
      forall x ensures b[x] == 0 {
        assert (a + b)[x] == a[x] + b[x];
      }
    }
  }

  /** A path copied from a traced process, then replaced by a decoy that does not release it: one buffer is lost. */
  lemma DecoyLosesACopy(ops: Ops)
    ensures var decoy := Action([], None, Some(Replacement(0, 9, false)), false);
            var c := Call(1, Some(2), [], [], true, [], true, [], Ready([Param(7, true)]), [], Script([decoy]), [], []);
            Freed(OwnTrace(ops, c)) != Allocated(c)
  {
    var decoy := Action([], None, Some(Replacement(0, 9, false)), false);
    var c := Call(1, Some(2), [], [], true, [], true, [], Ready([Param(7, true)]), [], Script([decoy]), [], []);
    var s := Stored(0, 0, c.setup.values);
    assert Ran([decoy], 0) == 1;
    assert Drops([decoy], 0, 0, s);
    ReleasedExactlyOnceIff(ops, c);
  }

  // ----- Whole call trees -----

  /** A call that found the guard inactive, and the table it worked with. */
  datatype Turn = Turn(ops: Ops, call: Call)

  /** The outermost calls of a tree, in order: the rest of it is sheltered in them. */
  function Turns(lane: Option<nat>, c: Call): seq<Turn>
    decreases c
  {
    var before := OuterAll(lane, c.inLookup);
    var after := if c.impl.Some? then None else before.lane;
    TurnsAll(lane, c.inLookup) + [Turn(OpsOf(before.lane), c)]
    + (if Scheduled(c) then TurnsAll(after, c.inReal) else [])
  }

  function TurnsAll(lane: Option<nat>, cs: seq<Call>): seq<Turn>
    decreases cs
  {
    if cs == [] then [] else Turns(lane, cs[0]) + TurnsAll(Outer(lane, cs[0]).lane, cs[1..])
  }

  /** What only work past the guard does: entering it, reading parameters, withdrawing a call, running actions. */
  predicate IsDoing(e: Event) {
    e.Enter? || e.ReadParams? || e.CancelReal? || e.RunAction?
  }

  function Doings(t: seq<Event>): seq<Event> {
    if t == [] then [] else (if IsDoing(t[0]) then [t[0]] else []) + Doings(t[1..])
  }

  lemma {:induction false} DoingsConcat(a: seq<Event>, b: seq<Event>)
    ensures Doings(a + b) == Doings(a) + Doings(b)
    decreases |a|
  {
    if a == [] {
      assert a + b == b;
    } else {
      assert (a + b)[0] == a[0] && (a + b)[1..] == a[1..] + b;
      DoingsConcat(a[1..], b);
      Assoc(if IsDoing(a[0]) then [a[0]] else [], Doings(a[1..]), Doings(b));
    }
  }

  lemma {:induction false} BailsDoNothing(cs: seq<Call>)
    ensures Doings(Bails(Builtin, 0, cs)) == []
  {
    if cs == [] {
      assert Bails(Builtin, 0, cs) == [];
    } else {
      assert Bails(Builtin, 0, cs)[1..] == Bails(Builtin, 0, cs[1..]);
      BailsDoNothing(cs[1..]);
    }
  }

  lemma NestedDoesNothing(cs: seq<Call>)
    ensures Doings(Nested(cs)) == []
  {
    BailsDoNothing(Order(cs));
  }

  lemma {:induction false} FreesDoNothing(ps: seq<Param>)
    ensures Doings(Frees(ps)) == []
  {
    if ps != [] {
      var p := ps[|ps| - 1];
      FreesDoNothing(ps[..|ps| - 1]);
      DoingsConcat(Frees(ps[..|ps| - 1]), if p.freeValue then [FreeBuffer(p.value)] else []);
    }
  }

  lemma ActionDoes(frame: nat, a: Action, i: nat, s: Stored)
    ensures Doings(ActionEvents(frame, a, i, s)) == [RunAction(frame, i)]
  {
    hide Nested;
    DoingsConcat([RunAction(frame, i)] + Nested(a.calls), Release(a, s));
    DoingsConcat([RunAction(frame, i)], Nested(a.calls));
    NestedDoesNothing(a.calls);
    assert Doings(Release(a, s)) == [];
  }

  lemma {:induction false} ActionsDo(frame: nat, actions: seq<Action>, i: nat, s: Stored)
    requires i <= |actions|
    ensures Doings(ActionTrace(frame, actions, i, s)) == ActionRuns(frame, i, Ran(actions, i))
    decreases |actions| - i
  {
    hide ActionEvents, AfterAction;
    if i < |actions| {
      ActionDoes(frame, actions[i], i, s);
      if actions[i].aborts {
        assert ActionRuns(frame, i, i + 1) == [RunAction(frame, i)];
      } else {
        var s' := AfterAction(actions[i], s);
        ActionsDo(frame, actions, i + 1, s');
        DoingsConcat(ActionEvents(frame, actions[i], i, s), ActionTrace(frame, actions, i + 1, s'));
        var n := Ran(actions, i + 1);
        assert ActionRuns(frame, i, n) == [RunAction(frame, i)] + ActionRuns(frame, i + 1, n);
      }
    }
  }

  /** What an outermost call does past the guard. */
  function OwnDoings(ops: Ops, c: Call): seq<Event> {
    if c.impl.None? then []
    else [Enter(c.frame)] + (if !c.prototyped || !c.loggable then [] else ScriptDoings(ops, c))
  }

  function ScriptDoings(ops: Ops, c: Call): seq<Event> {
    [ReadParams(ops, c.frame)] +
    (if c.setup.Failed? || c.script.NoScript? then []
     else [CancelReal(ops, c.frame)] + ActionRuns(c.frame, 0, Ran(c.script.actions, 0)))
  }

  lemma ScriptRunDoes(ops: Ops, frame: nat, actions: seq<Action>, s: Stored)
    ensures Doings(ScriptRun(ops, frame, actions, s))
         == [CancelReal(ops, frame)] + ActionRuns(frame, 0, Ran(actions, 0))
  {
    hide ActionTrace, AfterActions, ActionRuns, Ran;
    var done := AfterActions(actions, 0, s);
    var last := [SetReturn(ops, frame, Translate(ops, done.ret, done.errno))];
    var head := [CancelReal(ops, frame)];
    DoingsConcat(head + ActionTrace(frame, actions, 0, s), last);
    DoingsConcat(head, ActionTrace(frame, actions, 0, s));
    ActionsDo(frame, actions, 0, s);
    assert Doings(last) == [] && Doings(head) == head;
  }

  lemma ScriptWorkDoes(ops: Ops, c: Call)
    ensures Doings(ScriptWork(ops, c)) == ScriptDoings(ops, c)
  {
    hide Nested, ScriptRun, ActionRuns, Ran;
    var head := [ReadParams(ops, c.frame)];
    var run := if c.setup.Failed? || c.script.NoScript? then []
               else ScriptRun(ops, c.frame, c.script.actions, Stored(0, 0, c.setup.values));
    var tail := if c.setup.Failed? then [] else Nested(c.onResolve) + run;
    DoingsConcat(head + Nested(c.onSetup), tail);
    DoingsConcat(head, Nested(c.onSetup));
    DoingsConcat(Nested(c.onResolve), run);
    NestedDoesNothing(c.onSetup);
    NestedDoesNothing(c.onResolve);
    assert Doings(head) == head;
    if c.setup.Ready? && c.script.Script? {
      ScriptRunDoes(ops, c.frame, c.script.actions, Stored(0, 0, c.setup.values));
    }
  }

  lemma WorkDoes(ops: Ops, c: Call)
    ensures Doings(Work(ops, c)) == if !c.prototyped || !c.loggable then [] else ScriptDoings(ops, c)
  {
    hide Nested, ScriptWork, ScriptDoings;
    var tail := if !c.loggable then [] else ScriptWork(ops, c);
    var rest := if !c.prototyped then [] else Nested(c.onFilter) + tail;
    DoingsConcat(Nested(c.onKick) + Nested(c.onPrototype), rest);
    DoingsConcat(Nested(c.onKick), Nested(c.onPrototype));
    DoingsConcat(Nested(c.onFilter), tail);
    NestedDoesNothing(c.onKick);
    NestedDoesNothing(c.onPrototype);
    NestedDoesNothing(c.onFilter);
    ScriptWorkDoes(ops, c);
  }

  lemma OwnTraceDoes(ops: Ops, c: Call)
    ensures Doings(OwnTrace(ops, c)) == OwnDoings(ops, c)
  {
    hide Work, Frees, Flagged, ScriptDoings;
    if c.impl.Some? {
      var first := [ScheduleReal(ops, c.frame, c.impl.value), Enter(c.frame)];
      DoingsConcat(first + Work(ops, c), Frees(Flagged(c)));
      DoingsConcat(first, Work(ops, c));
      WorkDoes(ops, c);
      FreesDoNothing(Flagged(c));
      assert first[1..] == [Enter(c.frame)] && Doings([Enter(c.frame)]) == [Enter(c.frame)];
    }
  }

  /** The doings of the outermost calls, one after another. */
  function TurnDoings(turns: seq<Turn>): seq<Event> {
    if turns == [] then [] else OwnDoings(turns[0].ops, turns[0].call) + TurnDoings(turns[1..])
  }

  function TurnsAllocate(turns: seq<Turn>): multiset<nat> {
    if turns == [] then multiset{} else Allocated(turns[0].call) + TurnsAllocate(turns[1..])
  }

  function TurnsLose(turns: seq<Turn>): multiset<nat> {
    if turns == [] then multiset{} else Lost(turns[0].call) + TurnsLose(turns[1..])
  }

  /** The events of the turns, one after another, are the whole trace. */
  function TurnTraces(turns: seq<Turn>): seq<Event> {
    if turns == [] then [] else OwnTrace(turns[0].ops, turns[0].call) + TurnTraces(turns[1..])
  }

  lemma {:induction false} TurnTracesConcat(a: seq<Turn>, b: seq<Turn>)
    ensures TurnTraces(a + b) == TurnTraces(a) + TurnTraces(b)
    decreases |a|
  {
    hide OwnTrace;
    if a == [] {
      assert a + b == b;
    } else {
      assert (a + b)[0] == a[0] && (a + b)[1..] == a[1..] + b;
      TurnTracesConcat(a[1..], b);
      Assoc(OwnTrace(a[0].ops, a[0].call), TurnTraces(a[1..]), TurnTraces(b));
    }
  }

  /** A tree's trace is its turns: whatever is sheltered in a turn is part of that turn. */
  lemma {:induction false} TraceIsTurns(lane: Option<nat>, c: Call)
    ensures Outer(lane, c).trace == TurnTraces(Turns(lane, c))
    decreases c
  {
    hide OwnTrace, Scheduled;
    var before := OuterAll(lane, c.inLookup);
    var after := if c.impl.Some? then None else before.lane;
    var turn := Turn(OpsOf(before.lane), c);
    TraceIsTurnsAll(lane, c.inLookup);
    assert [turn][1..] == [] && TurnTraces([turn]) == OwnTrace(turn.ops, c);
    TurnTracesConcat(TurnsAll(lane, c.inLookup), [turn]);
    if Scheduled(c) {
      TraceIsTurnsAll(after, c.inReal);
      TurnTracesConcat(TurnsAll(lane, c.inLookup) + [turn], TurnsAll(after, c.inReal));
    } else {
      assert Turns(lane, c) == TurnsAll(lane, c.inLookup) + [turn];
    }
  }

  lemma {:induction false} TraceIsTurnsAll(lane: Option<nat>, cs: seq<Call>)
    ensures OuterAll(lane, cs).trace == TurnTraces(TurnsAll(lane, cs))
    decreases cs
  {
    hide Outer, Turns;
    if cs != [] {
      TraceIsTurns(lane, cs[0]);
      TraceIsTurnsAll(Outer(lane, cs[0]).lane, cs[1..]);
      TurnTracesConcat(Turns(lane, cs[0]), TurnsAll(Outer(lane, cs[0]).lane, cs[1..]));
    }
  }

  lemma {:induction false} TurnsDo(turns: seq<Turn>)
    ensures Doings(TurnTraces(turns)) == TurnDoings(turns)
  {
    hide OwnTrace, OwnDoings;
    if turns != [] {
      OwnTraceDoes(turns[0].ops, turns[0].call);
      TurnsDo(turns[1..]);
      DoingsConcat(OwnTrace(turns[0].ops, turns[0].call), TurnTraces(turns[1..]));
    }
  }

  /**
   In a whole tree of interposed calls, each with a script and parameters of its own, the guard is entered,
   parameters are read, real calls withdrawn and actions run by the outermost calls only, each doing exactly its
   own in turn.
   */
  lemma OnlyTheOutermostCallActs(lane: Option<nat>, c: Call)
    ensures Doings(Outer(lane, c).trace) == TurnDoings(Turns(lane, c))
  {
    TraceIsTurns(lane, c);
    TurnsDo(Turns(lane, c));
  }

  lemma {:induction false} TurnsConserve(turns: seq<Turn>)
    ensures TurnsAllocate(turns) == Freed(TurnTraces(turns)) + TurnsLose(turns)
  {
    hide OwnTrace, Allocated, Lost;
    if turns != [] {
      var own := OwnTrace(turns[0].ops, turns[0].call);
      BuffersAreConserved(turns[0].ops, turns[0].call);
      TurnsConserve(turns[1..]);
      FreedConcat(own, TurnTraces(turns[1..]));
    }
  }

  /** Over a whole tree, every buffer allocated is freed once or lost once, and nothing else is freed. */
  lemma TreesConserveBuffers(lane: Option<nat>, c: Call)
    ensures TurnsAllocate(Turns(lane, c)) == Freed(Outer(lane, c).trace) + TurnsLose(Turns(lane, c))
  {
    TraceIsTurns(lane, c);
    TurnsConserve(Turns(lane, c));
  }
}
