/**
 Choosing the script for a call: a cached answer for the common case, otherwise a walk over
 the configured scripts that looks at the call site.
 */
module ScriptResolver {
  import opened Common
  import opened ConfigCache

  /** What one caller rule says about a call site; an unresolvable address says nothing. */
  datatype Verdict = Hit | Miss | Unknown

  /** The symbol and module lookups behind the rules, as a function of the return address. */
  type Judge = (nat, CallerRule) -> Verdict

  function RuleVerdict(judge: Judge, ra: nat, rule: Option<CallerRule>): Verdict {
    if rule.None? || rule.value.Other? then Unknown else judge(ra, rule.value)
  }

  /** Any rule that hits wins; a script without rules, or with none that could be judged, is undecided. */
  ghost predicate SaysOf(judge: Judge, ra: nat, script: Script, v: Verdict) {
    if script.callers.None? then v.Unknown? else
    var hit := exists rule :: Some(rule) in script.callers.value && !rule.Other? && judge(ra, rule).Hit?;
    var miss := exists rule :: Some(rule) in script.callers.value && !rule.Other? && judge(ra, rule).Miss?;
    match v
    case Hit => hit
    case Miss => miss && !hit
    case Unknown => !miss && !hit
  }

  lemma VerdictsSay(judge: Judge, ra: nat, rules: seq<Option<CallerRule>>, v: Verdict)
    requires !v.Unknown?
    ensures (exists i :: 0 <= i < |rules| && RuleVerdict(judge, ra, rules[i]) == v)
       <==> exists rule :: Some(rule) in rules && !rule.Other? && judge(ra, rule) == v
  {
    if i :| 0 <= i < |rules| && RuleVerdict(judge, ra, rules[i]) == v {
      assert rules[i] == Some(rules[i].value) && rules[i] in rules;
    }
    if rule :| Some(rule) in rules && !rule.Other? && judge(ra, rule) == v {
      var i :| 0 <= i < |rules| && rules[i] == Some(rule);
      assert RuleVerdict(judge, ra, rules[i]) == v;
    }
  }

  method EvalCallers(judge: Judge, ra: nat, script: Script) returns (v: Verdict)
    ensures SaysOf(judge, ra, script, v)
  {
    if script.callers.None? {
      return Unknown;
    }
    var rules := script.callers.value;
    VerdictsSay(judge, ra, rules, Hit);
    VerdictsSay(judge, ra, rules, Miss);
    var anyEvaluated := false;
    var i := 0;
    while i < |rules|
      invariant 0 <= i <= |rules|
      invariant forall j :: 0 <= j < i ==> !RuleVerdict(judge, ra, rules[j]).Hit?
      invariant anyEvaluated <==> exists j :: 0 <= j < i && RuleVerdict(judge, ra, rules[j]).Miss?
    {
      var rc := RuleVerdict(judge, ra, rules[i]);
      if rc.Hit? {
        return Hit;
      }
      if !rc.Unknown? {
        anyEvaluated := true;
      }
      i := i + 1;
    }
    v := if anyEvaluated then Miss else Unknown;
  }

  // ----- What the walk is after -----

  /** The script names this return address as its own. */
  ghost predicate Claims(judge: Judge, script: Script, ra: nat) {
    || SaysOf(judge, ra, script, Hit)
    || (SaysOf(judge, ra, script, Unknown) && script.returnAddr != 0 && script.returnAddr == ra)
  }

  /** The script at `i` settles the walk when it is reached. */
  ghost predicate Settles(judge: Judge, conf: Config, i: nat, func: string, ra: nat) {
    || NamedAt(conf, i, "*")
    || (NamedAt(conf, i, func) &&
        (Claims(judge, conf[i].value, ra) || (ra == 0 && SaysOf(judge, ra, conf[i].value, Unknown))))
  }

  /** The script at `i` is for this function at any call site. */
  ghost predicate Fallback(judge: Judge, conf: Config, i: nat, func: string, ra: nat) {
    && NamedAt(conf, i, func)
    && ra != 0
    && SaysOf(judge, ra, conf[i].value, Unknown)
    && conf[i].value.returnAddr == 0
  }

  /** `r` is the first script that settles the call, else the first fallback. */
  ghost predicate IsChoice(judge: Judge, conf: Config, func: string, ra: nat, r: Option<nat>) {
    match r
    case Some(i) =>
      || (Settles(judge, conf, i, func, ra) && forall j: nat :: j < i ==> !Settles(judge, conf, j, func, ra))
      || (&& (forall j: nat :: j < |conf| ==> !Settles(judge, conf, j, func, ra))
          && Fallback(judge, conf, i, func, ra)
          && forall j: nat :: j < i ==> !Fallback(judge, conf, j, func, ra))
    case None =>
      forall j: nat :: j < |conf| ==>
        !Settles(judge, conf, j, func, ra) && !Fallback(judge, conf, j, func, ra)
  }

  method Walk(judge: Judge, conf: Config, func: string, ra: nat) returns (r: Option<nat>)
    ensures IsChoice(judge, conf, func, ra, r)
  {
    r := None;
    var i := 0;
    while i < |conf|
      invariant 0 <= i <= |conf|
      invariant forall j: nat :: j < i ==> !Settles(judge, conf, j, func, ra)
      invariant r.None? ==> forall j: nat :: j < i ==> !Fallback(judge, conf, j, func, ra)
      invariant r.Some? ==>
                  && r.value < i
                  && Fallback(judge, conf, r.value, func, ra)
                  && forall j: nat :: j < r.value ==> !Fallback(judge, conf, j, func, ra)
    {
      var script := conf[i];
      if script.Some? && script.value.name.Some? {
        var name := script.value.name.value;
        if name == "*" {
          assert Settles(judge, conf, i, func, ra);
          return Some(i);
        }
        if name == func {
          var v := EvalCallers(judge, ra, script.value);
          OnlyVerdict(judge, ra, script.value, v);
          if v.Hit? {
            assert Settles(judge, conf, i, func, ra);
            return Some(i);
          }
          if v.Unknown? {
            if ra == 0 || (script.value.returnAddr != 0 && ra == script.value.returnAddr) {
              assert Settles(judge, conf, i, func, ra);
              return Some(i);
            }
            if script.value.returnAddr == 0 && r.None? {
              r := Some(i);
            }
          }
        }
      }
      i := i + 1;
    }
  }

  lemma OnlyVerdict(judge: Judge, ra: nat, script: Script, v: Verdict)
    requires SaysOf(judge, ra, script, v)
    ensures SaysOf(judge, ra, script, Hit) <==> v.Hit?
    ensures SaysOf(judge, ra, script, Unknown) <==> v.Unknown?
  {
  }

  // ----- What the choice means -----

  /** A rule of the script hits this return address. */
  ghost predicate AnyHit(judge: Judge, script: Script, ra: nat) {
    script.callers.Some? && exists rule :: Some(rule) in script.callers.value && !rule.Other? && judge(ra, rule).Hit?
  }

  ghost predicate AnyMiss(judge: Judge, script: Script, ra: nat) {
    script.callers.Some? && exists rule :: Some(rule) in script.callers.value && !rule.Other? && judge(ra, rule).Miss?
  }

  /**
   A script may be used for a call: it is the wildcard, or it has the function's name and either a rule hits, or no
   rule could be judged and the script's return address is not another one.
   */
  ghost predicate MayServe(judge: Judge, conf: Config, i: nat, func: string, ra: nat) {
    || NamedAt(conf, i, "*")
    || (NamedAt(conf, i, func) &&
        var script := conf[i].value;
        || AnyHit(judge, script, ra)
        || (!AnyMiss(judge, script, ra) && (ra == 0 || script.returnAddr == 0 || script.returnAddr == ra)))
  }

  /** It is meant for exactly this call site. */
  ghost predicate MeansThisSite(judge: Judge, conf: Config, i: nat, func: string, ra: nat) {
    NamedAt(conf, i, func) &&
    var script := conf[i].value;
    || AnyHit(judge, script, ra)
    || (!AnyMiss(judge, script, ra) && script.returnAddr == ra)
  }

  /** A script is found if and only if one may serve, and the one found may. */
  lemma ChoiceMayServe(judge: Judge, conf: Config, func: string, ra: nat, r: Option<nat>)
    requires IsChoice(judge, conf, func, ra, r)
    ensures r.Some? ==> r.value < |conf| && MayServe(judge, conf, r.value, func, ra)
    ensures r.None? ==> forall j: nat :: !MayServe(judge, conf, j, func, ra)
  {
    if r.None? {
      forall j: nat ensures !MayServe(judge, conf, j, func, ra) {
        if j < |conf| {
          assert !Settles(judge, conf, j, func, ra) && !Fallback(judge, conf, j, func, ra);
        }
      }
    }
  }

  /** Without wildcards, a script for exactly this call site goes before one for any, and the first of its kind wins. */
  lemma CallSiteGoesFirst(judge: Judge, conf: Config, func: string, ra: nat, r: Option<nat>, j: nat)
    requires IsChoice(judge, conf, func, ra, r) && ra != 0
    requires forall k: nat :: !NamedAt(conf, k, "*")
    requires MeansThisSite(judge, conf, j, func, ra)
    ensures r.Some? && r.value <= j && MeansThisSite(judge, conf, r.value, func, ra)
    ensures forall k: nat :: k < r.value ==> !MeansThisSite(judge, conf, k, func, ra)
  {
    hide SaysOf;
    forall k: nat ensures Settles(judge, conf, k, func, ra) <==> MeansThisSite(judge, conf, k, func, ra) {
      SettlesIsSite(judge, conf, k, func, ra);
    }
    hide Settles, MeansThisSite;
  }

  lemma SettlesIsSite(judge: Judge, conf: Config, k: nat, func: string, ra: nat)
    requires ra != 0 && !NamedAt(conf, k, "*")
    ensures Settles(judge, conf, k, func, ra) <==> MeansThisSite(judge, conf, k, func, ra)
  {
  }

  // ----- The fast path -----

  predicate Unconstrained(s: Script) {
    s.callers.None? && s.returnAddr == 0
  }

  /** The script the cache answers with, when it applies at every call site. */
  function FastAnswer(conf: Config, func: string): (r: Option<nat>) {
    var cached := FirstMatch(Collect(conf, 0, MAX_ENTRIES), func);
    if cached.Some? && cached.value < |conf| && conf[cached.value].Some? && Unconstrained(conf[cached.value].value)
    then cached
    else None
  }

  /** Resolution with a cache built from the same configuration. */
  method Find(judge: Judge, conf: Config, snap: Snapshot, func: string, ra: nat) returns (r: Option<nat>)
    requires Complete(snap) && snap.entries == Collect(conf, 0, MAX_ENTRIES)
    ensures if FastAnswer(conf, func).Some? then r == FastAnswer(conf, func)
            else IsChoice(judge, conf, func, ra, r)
  {
    var cached := Lookup(snap, func);
    if cached.Some? {
      CachedIsFirst(conf, 0, MAX_ENTRIES, func);
      if Unconstrained(conf[cached.value].value) {
        return cached;
      }
    }
    r := Walk(judge, conf, func, ra);
  }

  /** A cached answer is the first script of that name in the whole configuration. */
  lemma {:induction false} CachedIsFirst(conf: Config, i: nat, room: nat, func: string)
    requires i <= |conf|
    ensures FirstMatch(Collect(conf, i, room), func).Some? ==>
              var k := FirstMatch(Collect(conf, i, room), func).value;
              && i <= k && NamedAt(conf, k, func)
              && func != "*"
              && forall j: nat :: i <= j < k ==> !NamedAt(conf, j, func)
    decreases |conf| - i
  {
    if i < |conf| && room > 0 {
      if Cacheable(conf[i]) {
        var e := Entry(conf[i].value.name.value, i);
        assert ([e] + Collect(conf, i + 1, room - 1))[1..] == Collect(conf, i + 1, room - 1);
        CachedIsFirst(conf, i + 1, room - 1, func);
      } else {
        CachedIsFirst(conf, i + 1, room, func);
        if NamedAt(conf, i, func) && FirstMatch(Collect(conf, i, room), func).Some? {
          CachedIsNamed(conf, i + 1, room, func);
        }
      }
    }
  }

  /** Empty names and the wildcard are never cached. */
  lemma {:induction false} CachedIsNamed(conf: Config, i: nat, room: nat, func: string)
    requires i <= |conf|
    ensures FirstMatch(Collect(conf, i, room), func).Some? ==> func != "" && func != "*"
    decreases |conf| - i
  {
    if i < |conf| && room > 0 {
      if Cacheable(conf[i]) {
        var e := Entry(conf[i].value.name.value, i);
        assert ([e] + Collect(conf, i + 1, room - 1))[1..] == Collect(conf, i + 1, room - 1);
        CachedIsNamed(conf, i + 1, room - 1, func);
      } else {
        CachedIsNamed(conf, i + 1, room, func);
      }
    }
  }

  /** A wildcard, or a script of that name for exactly this call site. */
  ghost predicate Seizes(judge: Judge, conf: Config, j: nat, func: string, ra: nat) {
    NamedAt(conf, j, "*") || (NamedAt(conf, j, func) && Claims(judge, conf[j].value, ra))
  }

  /** Another script would settle the call ahead of the unconstrained one at `k`. */
  ghost predicate Overtaken(judge: Judge, conf: Config, func: string, ra: nat, k: nat) {
    || (exists j: nat :: j < k && NamedAt(conf, j, "*"))
    || (ra != 0 && exists j: nat :: k < j < |conf| && Seizes(judge, conf, j, func, ra))
  }

  /** The fast path changes the answer exactly when another script would have settled the call first. */
  lemma FastPathIsExact(judge: Judge, conf: Config, func: string, ra: nat, r: Option<nat>)
    requires FastAnswer(conf, func).Some?
    requires IsChoice(judge, conf, func, ra, r)
    ensures FastAnswer(conf, func) == r <==> !Overtaken(judge, conf, func, ra, FastAnswer(conf, func).value)
  {
    var k := FastAnswer(conf, func).value;
    CachedIsFirst(conf, 0, MAX_ENTRIES, func);
    if Overtaken(judge, conf, func, ra, k) {
      OvertakenLoses(judge, conf, func, ra, k, r);
    } else {
      OtherwiseWins(judge, conf, func, ra, k, r);
    }
  }

  lemma OtherwiseWins(judge: Judge, conf: Config, func: string, ra: nat, k: nat, r: Option<nat>)
    requires k < |conf| && NamedAt(conf, k, func) && func != "*" && Unconstrained(conf[k].value)
    requires forall j: nat :: j < k ==> !NamedAt(conf, j, func)
    requires IsChoice(judge, conf, func, ra, r)
    requires !Overtaken(judge, conf, func, ra, k)
    ensures r == Some(k)
  {
    assert SaysOf(judge, ra, conf[k].value, Unknown);
    forall j: nat | j < k
      ensures !Settles(judge, conf, j, func, ra) && !Fallback(judge, conf, j, func, ra)
    {
    }
    if ra == 0 {
      assert Settles(judge, conf, k, func, ra);
    } else {
      assert Fallback(judge, conf, k, func, ra) && !Settles(judge, conf, k, func, ra);
      forall j: nat | k < j < |conf|
        ensures !Settles(judge, conf, j, func, ra)
      {
        assert !Seizes(judge, conf, j, func, ra);
      }
    }
  }

  lemma OvertakenLoses(judge: Judge, conf: Config, func: string, ra: nat, k: nat, r: Option<nat>)
    requires k < |conf| && NamedAt(conf, k, func) && func != "*" && Unconstrained(conf[k].value)
    requires IsChoice(judge, conf, func, ra, r)
    requires Overtaken(judge, conf, func, ra, k)
    ensures r != Some(k)
  {
    if j: nat :| j < k && NamedAt(conf, j, "*") {
      assert Settles(judge, conf, j, func, ra);
    } else {
      var j: nat :| k < j < |conf| && Seizes(judge, conf, j, func, ra);
      assert Settles(judge, conf, j, func, ra);
      assert !Settles(judge, conf, k, func, ra);
    }
  }

  ghost predicate NoWildcard(conf: Config) {
    forall j: nat :: j < |conf| ==> !NamedAt(conf, j, "*")
  }

  ghost predicate OneScriptPerName(conf: Config) {
    forall i: nat, j: nat, name: string :: NamedAt(conf, i, name) && NamedAt(conf, j, name) ==> i == j
  }

  /** Without wildcards and duplicate names the fast path is invisible, whatever the size of the configuration. */
  lemma FastPathIsTransparent(judge: Judge, conf: Config, func: string, ra: nat, r: Option<nat>)
    requires NoWildcard(conf) && OneScriptPerName(conf)
    requires IsChoice(judge, conf, func, ra, r)
    ensures FastAnswer(conf, func).Some? ==> FastAnswer(conf, func) == r
  {
    if FastAnswer(conf, func).Some? {
      FastPathIsExact(judge, conf, func, ra, r);
      CachedIsFirst(conf, 0, MAX_ENTRIES, func);
    }
  }

  function Plain(name: string): Option<Script> {
    Some(Script(Some(name), None, 0))
  }

  /** Both hypotheses are needed: a wildcard, or a second script that names the call site, goes unseen. */
  lemma BothHypothesesMatter(judge: Judge)
    ensures var conf := [Plain("read"), Plain("*")];
            && OneScriptPerName(conf)
            && FastAnswer(conf, "read") == Some(0)
            && IsChoice(judge, conf, "read", 4096, Some(1))
    ensures var conf := [Plain("read"), Some(Script(Some("read"), None, 4096))];
            && NoWildcard(conf)
            && FastAnswer(conf, "read") == Some(0)
            && IsChoice(judge, conf, "read", 4096, Some(1))
  {
    var wild := [Plain("read"), Plain("*")];
    var twice := [Plain("read"), Some(Script(Some("read"), None, 4096))];
    assert Collect(wild, 2, 255) == [] && Collect(wild, 1, 255) == [];
    assert FirstMatch([Entry("read", 0)], "read") == Some(0);
    assert Collect(wild, 0, 256) == [Entry("read", 0)];
    FirstMatchAt(Collect(twice, 0, 256), "read", 0);
    assert SaysOf(judge, 4096, wild[0].value, Unknown);
    assert Settles(judge, wild, 1, "read", 4096);
    assert SaysOf(judge, 4096, twice[0].value, Unknown) && SaysOf(judge, 4096, twice[1].value, Unknown);
    assert Settles(judge, twice, 1, "read", 4096);
    assert !Settles(judge, twice, 0, "read", 4096) && !Settles(judge, wild, 0, "read", 4096);
  }
}
