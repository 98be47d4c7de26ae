/**
 What a script leaves behind, read off its list of actions: the value the intercepted call returns, the buffers in
 its parameters when the context is cleared, and the table each outermost call works with.
 */
module EngineReturns {
  import opened Common
  import opened Engine
  import opened EngineRuns

  // ----- Which actions run, and which of them decide -----

  /** From action `i` on, those before `n` run: none but the last aborts, and the last aborts if others remain. */
  ghost predicate RunUpTo(actions: seq<Action>, i: nat, n: nat) {
    && i <= n <= |actions|
    && (forall j :: i <= j < n - 1 ==> !actions[j].aborts)
    && (n < |actions| ==> i < n && actions[n - 1].aborts)
  }

  /** Action `k` is the last of those before `n` that stores a return value. */
  ghost predicate StoresLast(actions: seq<Action>, n: nat, k: nat)
    requires n <= |actions|
  {
    k < n && actions[k].ret.Some? && forall j :: k < j < n ==> actions[j].ret.None?
  }

  ghost predicate NoneStores(actions: seq<Action>, i: nat, n: nat)
    requires n <= |actions|
  {
    forall k :: i <= k < n ==> actions[k].ret.None?
  }

  /** Action `k` is the last of those before `n` that replaces parameter `p`. */
  ghost predicate ReplacesLast(actions: seq<Action>, n: nat, p: nat, k: nat)
    requires n <= |actions|
  {
    k < n && Names(actions[k], p) && forall j :: k < j < n ==> !Names(actions[j], p)
  }

  predicate Names(a: Action, p: nat) {
    a.param.Some? && a.param.value.index == p
  }

  lemma {:induction false} LastValueStays(actions: seq<Action>, i: nat, n: nat, s: Stored)
    requires RunUpTo(actions, i, n)
    ensures forall k: nat :: i <= k && StoresLast(actions, n, k) ==>
              AfterActions(actions, i, s).ret == actions[k].ret.value.0
              && AfterActions(actions, i, s).errno == actions[k].ret.value.1
    ensures NoneStores(actions, i, n) ==>
              AfterActions(actions, i, s).ret == s.ret && AfterActions(actions, i, s).errno == s.errno
    decreases |actions| - i
  {
    if i < n {
      var s' := AfterAction(actions[i], s);
      if actions[i].aborts {
        assert n == i + 1;
      } else {
        LastValueStays(actions, i + 1, n, s');
        if actions[i].ret.Some? && NoneStores(actions, i + 1, n) {
          assert s'.ret == actions[i].ret.value.0;
        }
      }
    }
  }

  lemma {:induction false} LastBufferStays(actions: seq<Action>, i: nat, n: nat, s: Stored, p: nat)
    requires RunUpTo(actions, i, n) && p < |s.params|
    ensures forall k: nat :: i <= k && ReplacesLast(actions, n, p, k) ==>
              AfterActions(actions, i, s).params[p] == Param(actions[k].param.value.buffer, true)
    ensures (forall k :: i <= k < n ==> !Names(actions[k], p)) ==> AfterActions(actions, i, s).params[p] == s.params[p]
    decreases |actions| - i
  {
    if i < n {
      var s' := AfterAction(actions[i], s);
      if actions[i].aborts {
        assert n == i + 1;
      } else {
        LastBufferStays(actions, i + 1, n, s', p);
        if Names(actions[i], p) && forall k :: i < k < n ==> !Names(actions[k], p) {
          assert s'.params[p] == Param(actions[i].param.value.buffer, true);
        }
      }
    }
  }

  // ----- The return value -----

  /**
   The value a frame gets from the first `n` actions: what the last of them to store one stored, 0 if none did; on
   a lane, -1 with an errno below 4096 becomes the negated errno.
   */
  ghost predicate Answers(ops: Ops, actions: seq<Action>, n: nat, v: int)
    requires n <= |actions|
  {
    && (forall k: nat :: StoresLast(actions, n, k) ==>
          var (value, errno) := actions[k].ret.value;
          v == if ops.Lane? && value == -1 && 1 <= errno <= 4095 then -errno else value)
    && (NoneStores(actions, 0, n) ==> v == 0)
  }

  /** Some action decides, or none stores anything. */
  lemma {:induction false} SomeoneDecides(actions: seq<Action>, n: nat)
    requires n <= |actions|
    ensures NoneStores(actions, 0, n) || exists k: nat :: StoresLast(actions, n, k)
  {
    if n > 0 {
      var m: nat := n - 1;
      SomeoneDecides(actions, m);
      if actions[m].ret.Some? {
        assert StoresLast(actions, n, m);
      } else if k: nat :| StoresLast(actions, m, k) {
        assert StoresLast(actions, n, k);
      }
    }
  }

  /** There is just one such value. */
  lemma OneAnswer(ops: Ops, actions: seq<Action>, n: nat, v: int, w: int)
    requires n <= |actions| && Answers(ops, actions, n, v) && Answers(ops, actions, n, w)
    ensures v == w
  {
    SomeoneDecides(actions, n);
  }

  /** Cut at the return value: before it the rest of the dispatch, after it only the frees of clearing. */
  lemma ScriptAnswers(ops: Ops, c: Call, n: nat) returns (before: seq<Event>, v: int)
    requires Scripted(c) && RunUpTo(c.script.actions, 0, n)
    ensures OwnTrace(ops, c) == before + [SetReturn(ops, c.frame, v)] + Frees(Flagged(c))
    ensures Answers(ops, c.script.actions, n, v)
  {
    hide Frees, Flagged, ActionTrace, Nested, AfterActions;
    var actions, s := c.script.actions, Stored(0, 0, c.setup.values);
    var done := AfterActions(actions, 0, s);
    LastValueStays(actions, 0, n, s);
    v := Translate(ops, done.ret, done.errno);
    before := [ScheduleReal(ops, c.frame, c.impl.value), Enter(c.frame)]
              + (Nested(c.onKick) + Nested(c.onPrototype) + (Nested(c.onFilter)
              + ([ReadParams(ops, c.frame)] + Nested(c.onSetup) + (Nested(c.onResolve)
              + ([CancelReal(ops, c.frame)] + ActionTrace(c.frame, actions, 0, s))))));
  }

  /** In a whole tree every outermost call that reaches its script returns what its actions decide. */
  lemma EveryScriptAnswers(lane: Option<nat>, c: Call, i: nat, n: nat)
    returns (before: seq<Event>, v: int, after: seq<Event>)
    requires i < |Turns(lane, c)| && Scripted(Turns(lane, c)[i].call)
    requires RunUpTo(Turns(lane, c)[i].call.script.actions, 0, n)
    ensures var turn := Turns(lane, c)[i];
            Outer(lane, c).trace == before + [SetReturn(turn.ops, turn.call.frame, v)] + after
    ensures Answers(Turns(lane, c)[i].ops, Turns(lane, c)[i].call.script.actions, n, v)
  {
    hide OwnTrace, Turns, Outer;
    var turns := Turns(lane, c);
    var Turn(ops, call) := turns[i];
    var own;
    own, v := ScriptAnswers(ops, call, n);
    var head, tail := TurnTraces(turns[..i]), TurnTraces(turns[i + 1..]);
    before, after := head + own, Frees(Flagged(call)) + tail;
    TraceIsTurns(lane, c);
    assert turns == turns[..i] + ([turns[i]] + turns[i + 1..]);
    TurnTracesConcat(turns[..i], [turns[i]] + turns[i + 1..]);
    TurnTracesConcat([turns[i]], turns[i + 1..]);
    assert [turns[i]][1..] == [] && TurnTraces([turns[i]]) == OwnTrace(ops, call);
    Regroup(head, own, [SetReturn(ops, call.frame, v)], Frees(Flagged(call)), tail);
  }

  lemma Regroup(a: seq<Event>, b: seq<Event>, c: seq<Event>, d: seq<Event>, e: seq<Event>)
    ensures a + ((b + c + d) + e) == (a + b) + c + (d + e)
  {
  }

  // ----- The parameters -----

  /** When the context is cleared, a parameter holds what the last action to replace it put there, or what was read. */
  lemma LastReplacementIsHeld(c: Call, n: nat, p: nat)
    requires Scripted(c) && RunUpTo(c.script.actions, 0, n) && p < |c.setup.values|
    ensures |Flagged(c)| == |c.setup.values|
    ensures forall k: nat :: ReplacesLast(c.script.actions, n, p, k) ==>
              Flagged(c)[p] == Param(c.script.actions[k].param.value.buffer, true)
    ensures (forall k :: 0 <= k < n ==> !Names(c.script.actions[k], p)) ==> Flagged(c)[p] == c.setup.values[p]
  {
    LastBufferStays(c.script.actions, 0, n, Stored(0, 0, c.setup.values), p);
  }

  // ----- The lane -----

  /**
   A lane serves one dispatch: calls without an implementation leave it in place, the first call that has one uses
   it up, and every later call works with the built-in table.
   */
  ghost predicate ServesOne(lane: Option<nat>, turns: seq<Turn>, left: Option<nat>) {
    && UsedUpLater(turns)
    && UntouchedBefore(lane, turns)
    && left == if NoneHasOne(turns, |turns|) then lane else None
  }

  ghost predicate NoneHasOne(turns: seq<Turn>, n: nat)
    requires n <= |turns|
  {
    forall i :: 0 <= i < n ==> turns[i].call.impl.None?
  }

  ghost predicate UsedUpLater(turns: seq<Turn>) {
    forall i, j :: 0 <= i < j < |turns| && turns[i].call.impl.Some? ==> turns[j].ops == Builtin
  }

  ghost predicate UntouchedBefore(lane: Option<nat>, turns: seq<Turn>) {
    forall j :: 0 <= j < |turns| && NoneHasOne(turns, j) ==> turns[j].ops == OpsOf(lane)
  }

  lemma NoneConcat(a: seq<Turn>, b: seq<Turn>, n: nat)
    requires n <= |b|
    ensures NoneHasOne(a + b, |a| + n) <==> NoneHasOne(a, |a|) && NoneHasOne(b, n)
  {
    var all := a + b;
    assert forall i :: 0 <= i < |a| ==> a[i] == all[i];
    assert forall i :: 0 <= i < n ==> b[i] == all[|a| + i];
  }

  lemma NonePrefix(a: seq<Turn>, b: seq<Turn>, n: nat)
    requires n <= |a|
    ensures NoneHasOne(a + b, n) <==> NoneHasOne(a, n)
  {
    assert forall i :: 0 <= i < n ==> a[i] == (a + b)[i];
  }

  lemma ServesOneConcat(lane: Option<nat>, a: seq<Turn>, middle: Option<nat>, b: seq<Turn>, left: Option<nat>)
    requires ServesOne(lane, a, middle) && ServesOne(middle, b, left)
    ensures ServesOne(lane, a + b, left)
  {
    UsedUpStays(lane, a, middle, b, left);
    StillThere(lane, a, middle, b, left);
    hide UsedUpLater, UntouchedBefore, NoneHasOne;
    NoneConcat(a, b, |b|);
    assert |a + b| == |a| + |b|;
  }

  lemma StillThere(lane: Option<nat>, a: seq<Turn>, middle: Option<nat>, b: seq<Turn>, left: Option<nat>)
    requires ServesOne(lane, a, middle) && ServesOne(middle, b, left)
    ensures UntouchedBefore(lane, a + b)
  {
    hide NoneHasOne;
    var all := a + b;
    forall j | 0 <= j < |all| && NoneHasOne(all, j)
      ensures all[j].ops == OpsOf(lane)
    {
      if j < |a| {
        NonePrefix(a, b, j);
      } else {
        NoneConcat(a, b, j - |a|);
      }
    }
  }

  lemma UsedUpStays(lane: Option<nat>, a: seq<Turn>, middle: Option<nat>, b: seq<Turn>, left: Option<nat>)
    requires ServesOne(lane, a, middle) && ServesOne(middle, b, left)
    ensures UsedUpLater(a + b)
  {
    forall i, j | 0 <= i < j < |a + b| && (a + b)[i].call.impl.Some? ensures (a + b)[j].ops == Builtin {
      if i < |a| <= j {
        assert a[i].call.impl.Some? && middle.None?;
        EveryTurnBuiltin(b, left, j - |a|);
      }
    }
  }

  lemma EveryTurnBuiltin(turns: seq<Turn>, left: Option<nat>, j: nat)
    requires ServesOne(None, turns, left) && j < |turns|
    ensures turns[j].ops == Builtin
  {
    if i :| 0 <= i < j && turns[i].call.impl.Some? {
    }
  }

  lemma {:induction false} LaneServesOneDispatch(lane: Option<nat>, c: Call)
    ensures ServesOne(lane, Turns(lane, c), Outer(lane, c).lane)
    decreases c
  {
    hide ServesOne, OwnTrace, Scheduled;
    var before := OuterAll(lane, c.inLookup);
    var after := if c.impl.Some? then None else before.lane;
    var turn := Turn(OpsOf(before.lane), c);
    LaneServesOneList(lane, c.inLookup);
    OneTurn(before.lane, c);
    ServesOneConcat(lane, TurnsAll(lane, c.inLookup), before.lane, [turn], after);
    if Scheduled(c) {
      LaneServesOneList(after, c.inReal);
      ServesOneConcat(lane, TurnsAll(lane, c.inLookup) + [turn], after, TurnsAll(after, c.inReal), Outer(lane, c).lane);
    } else {
      assert Turns(lane, c) == TurnsAll(lane, c.inLookup) + [turn];
    }
  }

  lemma OneTurn(lane: Option<nat>, c: Call)
    ensures ServesOne(lane, [Turn(OpsOf(lane), c)], if c.impl.Some? then None else lane)
  {
    assert [Turn(OpsOf(lane), c)][0].call == c;
  }

  lemma {:induction false} LaneServesOneList(lane: Option<nat>, cs: seq<Call>)
    ensures ServesOne(lane, TurnsAll(lane, cs), OuterAll(lane, cs).lane)
    decreases cs
  {
    if cs != [] {
      hide ServesOne, Turns, Outer;
      var first := Outer(lane, cs[0]);
      LaneServesOneDispatch(lane, cs[0]);
      LaneServesOneList(first.lane, cs[1..]);
      ServesOneConcat(lane, Turns(lane, cs[0]), first.lane, TurnsAll(first.lane, cs[1..]), OuterAll(lane, cs).lane);
    }
  }

  // ----- Which calls come by -----

  /** One step down a tree: which call of the list, and whether to go on in its real implementation or its lookup. */
  datatype Turning = Turning(index: nat, inside: bool)

  /**
   The path leads from the list to the call. A lookup always happens; a real implementation runs when there is one
   and, past the guard, when no script withdrew it.
   */
  ghost predicate Leads(cs: seq<Call>, guarded: bool, path: seq<Turning>, c: Call)
    decreases |path|
  {
    && path != [] && path[0].index < |cs|
    && var d := cs[path[0].index];
       if |path| == 1 then c == d
       else if !path[0].inside then Leads(d.inLookup, guarded, path[1..], c)
       else d.impl.Some? && (guarded || !Scripted(d)) && Leads(d.inReal, guarded, path[1..], c)
  }

  ghost predicate ComesBy(cs: seq<Call>, guarded: bool, c: Call) {
    exists path: seq<Turning> :: Leads(cs, guarded, path, c)
  }

  /** The first call of the list: itself, or something below it. */
  ghost predicate ComesByOne(d: Call, guarded: bool, c: Call) {
    || c == d
    || ComesBy(d.inLookup, guarded, c)
    || (d.impl.Some? && (guarded || !Scripted(d)) && ComesBy(d.inReal, guarded, c))
  }

  lemma ComesByCons(cs: seq<Call>, guarded: bool, c: Call)
    requires cs != []
    ensures ComesBy(cs, guarded, c) <==> ComesByOne(cs[0], guarded, c) || ComesBy(cs[1..], guarded, c)
  {
    if path: seq<Turning> :| Leads(cs, guarded, path, c) {
      if path[0].index == 0 {
        assert |path| > 1 ==> Leads(if path[0].inside then cs[0].inReal else cs[0].inLookup, guarded, path[1..], c);
      } else {
        var shifted := [Turning(path[0].index - 1, path[0].inside)] + path[1..];
        assert shifted[1..] == path[1..];
        assert Leads(cs[1..], guarded, shifted, c);
      }
    }
    if ComesBy(cs[1..], guarded, c) {
      var path: seq<Turning> :| Leads(cs[1..], guarded, path, c);
      var shifted := [Turning(path[0].index + 1, path[0].inside)] + path[1..];
      assert shifted[1..] == path[1..];
      assert Leads(cs, guarded, shifted, c);
    }
    if ComesByOne(cs[0], guarded, c) {
      ComesByFirst(cs, guarded, c);
    }
  }

  lemma ComesByFirst(cs: seq<Call>, guarded: bool, c: Call)
    requires cs != [] && ComesByOne(cs[0], guarded, c)
    ensures ComesBy(cs, guarded, c)
  {
    var d := cs[0];
    if c == d {
      assert Leads(cs, guarded, [Turning(0, false)], c);
    } else if ComesBy(d.inLookup, guarded, c) {
      var path: seq<Turning> :| Leads(d.inLookup, guarded, path, c);
      assert ([Turning(0, false)] + path)[1..] == path;
      assert Leads(cs, guarded, [Turning(0, false)] + path, c);
    } else {
      var path: seq<Turning> :| Leads(d.inReal, guarded, path, c);
      assert ([Turning(0, true)] + path)[1..] == path;
      assert Leads(cs, guarded, [Turning(0, true)] + path, c);
    }
  }

  /** Under the guard exactly the calls some path leads to come by. */
  lemma {:induction false} OrderIsReach(cs: seq<Call>, c: Call)
    ensures c in Order(cs) <==> ComesBy(cs, true, c)
    decreases cs
  {
    hide ComesBy;
    if cs == [] {
      NoneComesBy(true, c);
    } else {
      ComesByCons(cs, true, c);
      OrderIsReach(cs[0].inLookup, c);
      OrderIsReach(cs[0].inReal, c);
      OrderIsReach(cs[1..], c);
    }
  }

  lemma NoneComesBy(guarded: bool, c: Call)
    ensures !ComesBy([], guarded, c)
  {
  }

  /** Past the guard, too: exactly those calls take a turn of their own. */
  lemma {:induction false} TurnsAreReach(lane: Option<nat>, cs: seq<Call>, c: Call)
    ensures Taken(TurnsAll(lane, cs), c) <==> ComesBy(cs, false, c)
    decreases cs
  {
    hide ComesBy, OuterAll, Outer, Scripted;
    if cs == [] {
      NoneComesBy(false, c);
    } else {
      var d := cs[0];
      var before := OuterAll(lane, d.inLookup);
      var after := if d.impl.Some? then None else before.lane;
      ComesByCons(cs, false, c);
      TurnsAreReach(lane, d.inLookup, c);
      TurnsAreReach(after, d.inReal, c);
      TurnsAreReach(Outer(lane, d).lane, cs[1..], c);
      var own := [Turn(OpsOf(before.lane), d)];
      var rest := if Scheduled(d) then TurnsAll(after, d.inReal) else [];
      InConcat(TurnsAll(lane, d.inLookup), own, c);
      InConcat(TurnsAll(lane, d.inLookup) + own, rest, c);
      InConcat(Turns(lane, d), TurnsAll(Outer(lane, d).lane, cs[1..]), c);
      assert own[0].call == d;
      assert Taken(own, c) <==> c == d;
    }
  }

  ghost predicate Taken(turns: seq<Turn>, c: Call) {
    exists i :: 0 <= i < |turns| && turns[i].call == c
  }

  lemma InConcat(a: seq<Turn>, b: seq<Turn>, c: Call)
    ensures Taken(a + b, c) <==> Taken(a, c) || Taken(b, c)
  {
    if Taken(a, c) {
      var i :| 0 <= i < |a| && a[i].call == c;
      assert (a + b)[i].call == c;
    }
    if Taken(b, c) {
      var i :| 0 <= i < |b| && b[i].call == c;
      assert (a + b)[|a| + i].call == c;
    }
  }
}
