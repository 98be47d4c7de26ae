/**
 The dispatch path of an intercepted call: the thread's context carries a reentrance guard, a
 dispatch depth and an optional lane, and whatever the tracer itself calls while it works
 comes back through the same entry. `trace` is the sequence of effects on frames and buffers.
 */
module Engine {
  import opened Common

  const MAX_PARAMS: nat := 32

  /** The tables behind the frame operations: the built-in one, or a lane's. */
  datatype Ops = Builtin | Lane(id: nat)

  datatype Impl = Function(address: nat) | Permanent

  datatype Param = Param(value: nat, freeValue: bool)

  datatype Event =
    | Enter(frame: nat)
    | ScheduleReal(ops: Ops, frame: nat, impl: nat)
    | CancelReal(ops: Ops, frame: nat)
    | SetReturn(ops: Ops, frame: nat, value: int)
    | ReadParams(ops: Ops, frame: nat)
    | RunAction(frame: nat, index: nat)
    | FreeBuffer(block: nat)

  /** A parameter's new buffer; whether the action first frees one already held there is up to the action. */
  datatype Replacement = Replacement(index: nat, buffer: nat, releases: bool)

  /** An action of a script: what it calls, what it stores in the context, and whether it ends the script. */
  datatype Action = Action(
    calls: seq<Call>,
    ret: Option<(int, int)>,
    param: Option<Replacement>,
    aborts: bool)

  datatype Script = NoScript | Script(actions: seq<Action>)

  type ParamList = s: seq<Param> | |s| <= MAX_PARAMS witness []

  type ParamCount = n: nat | n <= MAX_PARAMS witness 0

  /**
   How the parameters of a frame are read: all of them, some as flagged copies, or a failure that flags
   nothing and leaves a count behind.
   */
  datatype Setup = Ready(values: ParamList) | Failed(count: ParamCount)

  /**
   An interposed call: its frame, its real implementation if one is known, what its stages would find, and the
   interposed calls made meanwhile: while the implementation is looked up, at each later stage, and by the real
   implementation once the trampoline calls it. Which stages are reached is up to the engine.
   */
  datatype Call = Call(
    frame: nat,
    impl: Option<nat>,
    inLookup: seq<Call>,
    onKick: seq<Call>,
    prototyped: bool,
    onPrototype: seq<Call>,
    loggable: bool,
    onFilter: seq<Call>,
    setup: Setup,
    onSetup: seq<Call>,
    script: Script,
    onResolve: seq<Call>,
    inReal: seq<Call>)

  // ----- What a guarded call amounts to -----

  /** Guarded calls in the order in which they reach the guard; a real implementation runs where there is one. */
  function Order(cs: seq<Call>): seq<Call>
    decreases cs
  {
    if cs == [] then [] else OrderOne(cs[0]) + Order(cs[1..])
  }

  function OrderOne(c: Call): seq<Call>
    decreases c
  {
    Order(c.inLookup) + [c] + (if c.impl.Some? then Order(c.inReal) else [])
  }

  /** The one effect of a guarded call: its real implementation is scheduled, or the call fails with -1. */
  function Bail(ops: Ops, errno: int, c: Call): Event {
    if c.impl.Some? then ScheduleReal(ops, c.frame, c.impl.value)
    else SetReturn(ops, c.frame, Translate(ops, -1, errno))
  }

  function Bails(ops: Ops, errno: int, cs: seq<Call>): (t: seq<Event>)
    ensures |t| == |cs|
    ensures forall i :: 0 <= i < |cs| ==> t[i] == Bail(ops, errno, cs[i])
  {
    seq(|cs|, i requires 0 <= i < |cs| => Bail(ops, errno, cs[i]))
  }

  lemma BailsConcat(ops: Ops, errno: int, a: seq<Call>, b: seq<Call>)
    ensures Bails(ops, errno, a + b) == Bails(ops, errno, a) + Bails(ops, errno, b)
  {
  }

  lemma BailsOne(ops: Ops, errno: int, c: Call)
    ensures Bails(ops, errno, OrderOne(c))
         == Bails(ops, errno, Order(c.inLookup)) + [Bail(ops, errno, c)]
            + (if c.impl.Some? then Bails(ops, errno, Order(c.inReal)) else [])
  {
    var before, after := Order(c.inLookup), if c.impl.Some? then Order(c.inReal) else [];
    BailsConcat(ops, errno, before + [c], after);
    BailsConcat(ops, errno, before, [c]);
    assert Bails(ops, errno, [c]) == [Bail(ops, errno, c)];
  }

  /** A lane's errno convention: -1 becomes the negated errno on lanes only. */
  function Translate(ops: Ops, value: int, errno: int): int {
    if ops != Builtin && value == -1 && 0 < errno < 4096 then -errno else value
  }

  // ----- The context -----

  class ThreadContext {
    var realImpl: Option<Impl>
    var archCtx: Option<nat>
    var prototype: bool
    var retVal: int
    var retErrno: int
    var params: seq<Param>
    var paramsCnt: nat
    var laneOps: Option<nat>
    var depth: int
    var trace: seq<Event>

    ghost predicate Valid()
      reads this
    {
      |params| == MAX_PARAMS && paramsCnt <= MAX_PARAMS && depth >= 0
    }

    /** All members zero. */
    ghost predicate Pristine()
      reads this
    {
      && realImpl.None? && archCtx.None? && !prototype && retVal == 0 && retErrno == 0
      && params == Zeros() && paramsCnt == 0
      && laneOps.None? && depth == 0
    }

    /** Everything but the trace. */
    ghost function Members(): (Option<Impl>, Option<nat>, bool, int, int, seq<Param>, nat, Option<nat>, int)
      reads this
    {
      (realImpl, archCtx, prototype, retVal, retErrno, params, paramsCnt, laneOps, depth)
    }

    /** The table in force: the lane's for the outermost dispatch, the built-in one otherwise. */
    function OpsAt(d: int): Ops
      reads this
    {
      if laneOps.Some? && d <= 1 then Lane(laneOps.value) else Builtin
    }

    predicate GuardActive()
      reads this
    {
      realImpl.Some?
    }

    method GuardEnter(impl: nat, frame: nat)
      modifies this`realImpl, this`archCtx
      ensures realImpl == Some(Function(impl)) && archCtx == Some(frame)
    {
      archCtx := Some(frame);
      realImpl := Some(Function(impl));
    }

    method GuardEnterPermanent()
      modifies this`realImpl, this`archCtx
      ensures realImpl == Some(Permanent) && archCtx.None?
    {
      archCtx := None;
      realImpl := Some(Permanent);
    }

    method SetRetVal(frame: nat, value: int)
      modifies this`trace
      ensures trace == old(trace) + [SetReturn(OpsAt(depth), frame, Translate(OpsAt(depth), value, retErrno))]
    {
      var ops := OpsAt(depth);
      var v := value;
      if ops != Builtin && v == -1 && retErrno > 0 && retErrno < 4096 {
        v := -retErrno;
      }
      trace := trace + [SetReturn(ops, frame, v)];
    }

    /** Free the flagged parameter buffers, then zero the context. */
    method Clear()
      requires Valid()
      modifies this
      ensures Valid() && Pristine()
      ensures trace == old(trace) + Frees(old(params)[..old(paramsCnt)])
    {
      var i := 0;
      while i != paramsCnt
        invariant 0 <= i <= paramsCnt
        invariant Valid()
        invariant params == old(params) && paramsCnt == old(paramsCnt)
        invariant trace == old(trace) + Frees(params[..i])
      {
        assert params[..i + 1][..i] == params[..i];
        if params[i].freeValue {
          trace := trace + [FreeBuffer(params[i].value)];
        }
        i := i + 1;
      }
      realImpl, archCtx, prototype, retVal, retErrno := None, None, false, 0, 0;
      params := Zeros();
      paramsCnt, laneOps, depth := 0, None, 0;
    }

    /** Between dispatches: all members zero but the lane, which the caller may have installed. */
    ghost predicate Idle()
      reads this
    {
      Valid() && realImpl.None? && !prototype && retVal == 0 && retErrno == 0 && paramsCnt == 0 && depth == 0
      && params == Zeros()
    }

    /** What actions leave alone. */
    ghost function Fixed(): (Option<Impl>, Option<nat>, bool, nat, Option<nat>, int)
      reads this
    {
      (realImpl, archCtx, prototype, paramsCnt, laneOps, depth)
    }

    /** What actions may change, with the parameters in use. */
    ghost function State(): Stored
      requires Valid()
      reads this
    {
      Stored(retVal, retErrno, params[..paramsCnt])
    }

    /** An interposed call: the wrapper, then the real implementation if it is still scheduled. */
    method Arrive(c: Call)
      requires Valid() && (GuardActive() || Idle())
      modifies this
      ensures Valid()
      ensures old(GuardActive()) ==>
                Members() == old(Members())
                && trace == old(trace) + Bails(old(OpsAt(depth + 1)), old(retErrno), OrderOne(c))
      ensures !old(GuardActive()) ==>
                Idle() && trace == old(trace) + Outer(old(laneOps), c).trace && laneOps == Outer(old(laneOps), c).lane
      decreases c, 6
    {
      hide Bails, OwnTrace, Zeros, Order, OrderOne, OuterAll;
      ghost var ops := OpsAt(depth + 1);
      BailsOne(ops, retErrno, c);
      var scheduled := Wrapper(c);
      if scheduled {
        ArriveAll(c.inReal);
      }
    }

    method ArriveAll(cs: seq<Call>)
      requires Valid() && (GuardActive() || Idle())
      modifies this
      ensures Valid()
      ensures old(GuardActive()) ==>
                Members() == old(Members())
                && trace == old(trace) + Bails(old(OpsAt(depth + 1)), old(retErrno), Order(cs))
      ensures !old(GuardActive()) ==>
                Idle() && trace == old(trace) + OuterAll(old(laneOps), cs).trace
                && laneOps == OuterAll(old(laneOps), cs).lane
      decreases cs, 0
    {
      hide Bails, Outer, Zeros;
      ghost var ops := OpsAt(depth + 1);
      if cs != [] {
        Arrive(cs[0]);
        ArriveAll(cs[1..]);
        BailsConcat(ops, retErrno, OrderOne(cs[0]), Order(cs[1..]));
      }
    }

    /** A thread of the tracer's own: under the permanent guard its calls pass straight through, whatever they are. */
    method PermanentThread(cs: seq<Call>)
      requires Idle()
      modifies this
      ensures realImpl == Some(Permanent) && depth == 0 && laneOps == old(laneOps) && paramsCnt == 0
      ensures trace == old(trace) + Bails(OpsOf(laneOps), 0, Order(cs))
    {
      GuardEnterPermanent();
      ArriveAll(cs);
    }

    /**
     The wrapper: look up the implementation, schedule it, test the guard, and only past that test enter the
     guard, do the work and clear. The answer says whether the frame still calls its real implementation.
     */
    method Wrapper(c: Call) returns (scheduled: bool)
      requires Valid() && (GuardActive() || Idle())
      modifies this
      ensures Valid()
      ensures old(GuardActive()) ==>
                Members() == old(Members()) && scheduled == c.impl.Some?
                && trace == old(trace) + (Bails(old(OpsAt(depth + 1)), old(retErrno), Order(c.inLookup))
                                          + [Bail(old(OpsAt(depth + 1)), old(retErrno), c)])
      ensures !old(GuardActive()) ==>
                Idle() && scheduled == Scheduled(c)
                && trace == old(trace) + (OuterAll(old(laneOps), c.inLookup).trace
                                          + OwnTrace(OpsOf(OuterAll(old(laneOps), c.inLookup).lane), c))
                && laneOps == if c.impl.Some? then None else OuterAll(old(laneOps), c.inLookup).lane
      decreases c, 5
    {
      hide Bails, Work, Frees, Flagged, Zeros, Order, OuterAll;
      ArriveAll(c.inLookup);
      depth := depth + 1;
      if c.impl.None? {
        SetRetVal(c.frame, -1);
        depth := depth - 1;
        return false;
      }
      ghost var t0, ops := trace, OpsAt(depth);
      trace := trace + [ScheduleReal(OpsAt(depth), c.frame, c.impl.value)];
      scheduled := true;
      if GuardActive() {
        depth := depth - 1;
        return;
      }
      scheduled := Act(c);
      OwnTraceParts(t0, ops, c);
    }

    /** Past the guard's test: enter, process, clear. */
    method Act(c: Call) returns (scheduled: bool)
      requires Valid() && c.impl.Some? && depth == 1
      requires retVal == 0 && retErrno == 0 && paramsCnt == 0 && params == Zeros()
      modifies this
      ensures Valid() && Pristine() && scheduled == Scheduled(c)
      ensures trace == old(trace) + ([Enter(c.frame)] + Work(old(OpsAt(1)), c) + Frees(Flagged(c)))
      decreases c, 4
    {
      hide Work, Frees, Flagged, Zeros, Scheduled;
      trace := trace + [Enter(c.frame)];
      GuardEnter(c.impl.value, c.frame);
      scheduled := Process(c);
      Clear();
    }

    method DispatchNested(cs: seq<Call>)
      requires Valid() && GuardActive() && depth == 1
      modifies this
      ensures Valid() && Members() == old(Members())
      ensures trace == old(trace) + Nested(cs)
      decreases cs, 1
    {
      ArriveAll(cs);
      assert Bails(Builtin, retErrno, Order(cs)) == Nested(cs);
    }

    /** Run the script's actions until one aborts. */
    method RunActions(frame: nat, actions: seq<Action>)
      requires Valid() && GuardActive() && depth == 1
      modifies this
      ensures Valid() && Fixed() == old(Fixed())
      ensures trace == old(trace) + ActionTrace(frame, actions, 0, old(State()))
      ensures State() == AfterActions(actions, 0, old(State()))
      decreases actions, 0
    {
      hide Nested, AfterAction;
      var i := 0;
      ghost var start := State();
      ghost var before := trace;
      while i < |actions|
        invariant 0 <= i <= |actions|
        invariant Valid() && Fixed() == old(Fixed())
        invariant before + ActionTrace(frame, actions, 0, start) == trace + ActionTrace(frame, actions, i, State())
        invariant AfterActions(actions, 0, start) == AfterActions(actions, i, State())
      {
        ghost var t0, s0 := trace, State();
        RunOne(frame, actions[i], i);
        if actions[i].aborts {
          return;
        }
        Assoc(t0, ActionEvents(frame, actions[i], i, s0), ActionTrace(frame, actions, i + 1, State()));
        i := i + 1;
      }
    }

    method RunOne(frame: nat, a: Action, i: nat)
      requires Valid() && GuardActive() && depth == 1
      modifies this
      ensures Valid() && Fixed() == old(Fixed())
      ensures trace == old(trace) + ActionEvents(frame, a, i, old(State()))
      ensures State() == AfterAction(a, old(State()))
      decreases a
    {
      hide Nested;
      trace := trace + [RunAction(frame, i)];
      DispatchNested(a.calls);
      if a.ret.Some? {
        retVal, retErrno := a.ret.value.0, a.ret.value.1;
      }
      if a.param.Some? && a.param.value.index < paramsCnt {
        var p := a.param.value;
        if p.releases && params[p.index].freeValue {
          trace := trace + [FreeBuffer(params[p.index].value)];
        }
        params := params[p.index := Param(p.buffer, true)];
      }
    }

    /** The work between guard-enter and clean-up. */
    method Process(c: Call) returns (scheduled: bool)
      requires Valid() && GuardActive() && depth == 1 && c.impl.Some?
      requires retVal == 0 && retErrno == 0 && paramsCnt == 0 && params == Zeros()
      modifies this
      ensures Valid() && scheduled == Scheduled(c)
      ensures trace == old(trace) + Work(old(OpsAt(1)), c)
      ensures params[..paramsCnt] == Flagged(c)
      decreases c, 3
    {
      hide Nested, ScriptWork, ScriptFlags, Zeros;
      scheduled := true;
      DispatchNested(c.onKick);
      prototype := c.prototyped;
      DispatchNested(c.onPrototype);
      if !prototype {
        return;
      }
      DispatchNested(c.onFilter);
      if !c.loggable {
        return;
      }
      scheduled := Resolve(c);
    }

    /** Parameters, script, actions and the return value. */
    method Resolve(c: Call) returns (scheduled: bool)
      requires Valid() && GuardActive() && depth == 1
      requires retVal == 0 && retErrno == 0 && paramsCnt == 0 && params == Zeros()
      modifies this
      ensures Valid() && scheduled == (c.setup.Failed? || c.script.NoScript?)
      ensures trace == old(trace) + ScriptWork(old(OpsAt(1)), c)
      ensures params[..paramsCnt] == ScriptFlags(c)
      decreases c, 2
    {
      hide Nested, ScriptRun;
      scheduled := true;
      paramsCnt := MAX_PARAMS;
      trace := trace + [ReadParams(OpsAt(depth), c.frame)];
      DispatchNested(c.onSetup);
      if c.setup.Failed? {
        paramsCnt := c.setup.count;
        return;
      }
      paramsCnt := |c.setup.values|;
      params := c.setup.values + params[|c.setup.values|..];
      DispatchNested(c.onResolve);
      if c.script.NoScript? {
        return;
      }
      RunScript(c.frame, c.script.actions);
      scheduled := false;
    }

    method RunScript(frame: nat, actions: seq<Action>)
      requires Valid() && GuardActive() && depth == 1
      modifies this
      ensures Valid() && Fixed() == old(Fixed())
      ensures trace == old(trace) + ScriptRun(old(OpsAt(1)), frame, actions, old(State()))
      ensures params[..paramsCnt] == AfterActions(actions, 0, old(State())).params
      decreases actions, 1
    {
      hide ActionTrace, AfterActions;
      ghost var start := State();
      trace := trace + [CancelReal(OpsAt(depth), frame)];
      RunActions(frame, actions);
      assert State() == AfterActions(actions, 0, start);
      SetRetVal(frame, retVal);
    }
  }

  // ----- What an outermost dispatch amounts to -----

  function Zeros(): seq<Param> {
    seq(MAX_PARAMS, _ => Param(0, false))
  }

  /** The frees of the flagged parameters, in order. */
  function Frees(params: seq<Param>): seq<Event> {
    if params == [] then []
    else
      var p := params[|params| - 1];
      Frees(params[..|params| - 1]) + (if p.freeValue then [FreeBuffer(p.value)] else [])
  }

  /** What actions leave in the context. */
  datatype Stored = Stored(ret: int, errno: int, params: seq<Param>)

  /** The action replaces a parameter that is in use. */
  predicate Replaces(a: Action, s: Stored) {
    a.param.Some? && a.param.value.index < |s.params|
  }

  /** The action replaces a parameter that holds a flagged buffer. */
  predicate Displaces(a: Action, s: Stored) {
    Replaces(a, s) && s.params[a.param.value.index].freeValue
  }

  function AfterAction(a: Action, s: Stored): (s': Stored)
    ensures |s'.params| == |s.params|
  {
    Stored(if a.ret.Some? then a.ret.value.0 else s.ret,
           if a.ret.Some? then a.ret.value.1 else s.errno,
           if Replaces(a, s) then s.params[a.param.value.index := Param(a.param.value.buffer, true)] else s.params)
  }

  function AfterActions(actions: seq<Action>, i: nat, s: Stored): (s': Stored)
    requires i <= |actions|
    ensures |s'.params| == |s.params|
    decreases |actions| - i
  {
    if i == |actions| then s
    else if actions[i].aborts then AfterAction(actions[i], s)
    else AfterActions(actions, i + 1, AfterAction(actions[i], s))
  }

  function Release(a: Action, s: Stored): seq<Event> {
    if Displaces(a, s) && a.param.value.releases then [FreeBuffer(s.params[a.param.value.index].value)] else []
  }

  function ActionEvents(frame: nat, a: Action, i: nat, s: Stored): seq<Event> {
    [RunAction(frame, i)] + Nested(a.calls) + Release(a, s)
  }

  function ActionTrace(frame: nat, actions: seq<Action>, i: nat, s: Stored): seq<Event>
    requires i <= |actions|
    decreases |actions| - i
  {
    if i == |actions| then []
    else if actions[i].aborts then ActionEvents(frame, actions[i], i, s)
    else ActionEvents(frame, actions[i], i, s) + ActionTrace(frame, actions, i + 1, AfterAction(actions[i], s))
  }

  /** A script: the real call is withdrawn, the actions run, and their return value is stored. */
  function ScriptRun(ops: Ops, frame: nat, actions: seq<Action>, s: Stored): seq<Event> {
    var done := AfterActions(actions, 0, s);
    [CancelReal(ops, frame)] + ActionTrace(frame, actions, 0, s)
    + [SetReturn(ops, frame, Translate(ops, done.ret, done.errno))]
  }

  function ScriptWork(ops: Ops, c: Call): seq<Event> {
    [ReadParams(ops, c.frame)] + Nested(c.onSetup) +
    (if c.setup.Failed? then []
     else Nested(c.onResolve) +
          (if c.script.NoScript? then []
           else ScriptRun(ops, c.frame, c.script.actions, Stored(0, 0, c.setup.values))))
  }

  function Work(ops: Ops, c: Call): seq<Event> {
    Nested(c.onKick) + Nested(c.onPrototype) +
    (if !c.prototyped then []
     else Nested(c.onFilter) + (if !c.loggable then [] else ScriptWork(ops, c)))
  }

  /** The parameters in use when the context is cleared. */
  function ScriptFlags(c: Call): seq<Param> {
    match c.setup
    case Failed(count) => Zeros()[..count]
    case Ready(values) =>
      if c.script.NoScript? then values else AfterActions(c.script.actions, 0, Stored(0, 0, values)).params
  }

  function Flagged(c: Call): seq<Param> {
    if c.prototyped && c.loggable then ScriptFlags(c) else []
  }

  /** An outermost call's own dispatch, with everything sheltered in it. */
  function OwnTrace(ops: Ops, c: Call): seq<Event> {
    if c.impl.None? then [SetReturn(ops, c.frame, -1)]
    else [ScheduleReal(ops, c.frame, c.impl.value), Enter(c.frame)] + Work(ops, c) + Frees(Flagged(c))
  }

  lemma OwnTraceParts(t: seq<Event>, ops: Ops, c: Call)
    requires c.impl.Some?
    ensures t + [ScheduleReal(ops, c.frame, c.impl.value)] + ([Enter(c.frame)] + Work(ops, c) + Frees(Flagged(c)))
         == t + OwnTrace(ops, c)
  {
    hide Work, Frees, Flagged;
  }

  /** The script is reached. */
  predicate Scripted(c: Call) {
    c.impl.Some? && c.prototyped && c.loggable && c.setup.Ready? && c.script.Script?
  }

  /** The real implementation stays scheduled: there is one, and no script withdrew it. */
  predicate Scheduled(c: Call) {
    c.impl.Some? && !Scripted(c)
  }

  function OpsOf(lane: Option<nat>): Ops {
    if lane.Some? then Lane(lane.value) else Builtin
  }

  /** What happened, and the lane left installed. */
  datatype Outcome = Outcome(trace: seq<Event>, lane: Option<nat>)

  /**
   A call that finds the guard inactive. What is called while its implementation is looked up, and by the real
   implementation afterwards, finds it inactive too; clearing the context also drops the lane.
   */
  function Outer(lane: Option<nat>, c: Call): Outcome
    decreases c
  {
    var before := OuterAll(lane, c.inLookup);
    var after := if c.impl.Some? then None else before.lane;
    var t := before.trace + OwnTrace(OpsOf(before.lane), c);
    if Scheduled(c) then
      var rest := OuterAll(after, c.inReal);
      Outcome(t + rest.trace, rest.lane)
    else Outcome(t, after)
  }

  function OuterAll(lane: Option<nat>, cs: seq<Call>): Outcome
    decreases cs
  {
    if cs == [] then Outcome([], lane)
    else
      var first := Outer(lane, cs[0]);
      var rest := OuterAll(first.lane, cs[1..]);
      Outcome(first.trace + rest.trace, rest.lane)
  }

  /** What calls made below the outermost dispatch amount to. */
  function Nested(cs: seq<Call>): seq<Event> {
    Bails(Builtin, 0, Order(cs))
  }
}
