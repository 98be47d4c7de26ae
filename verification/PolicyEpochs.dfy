/**
 Supervisor policies: a delivered policy passes a ladder of checks and either replaces the
 active configuration, is recognised as the one already held, or is refused. The signature
 primitive and the JSON parser are parameters.
 */
module PolicyEpochs {
  import opened Common
  import opened ConfigCache

  // ----- Documents -----

  datatype Signature = Signature(alg: string, value: string)

  /** The policy header; a missing number reads as zero. */
  datatype Header = Header(epoch: real, expires: real)

  /** The members of a parsed document that are looked at; anything absent or of another type is none. */
  datatype Document = Document(
    sig: Option<Signature>,
    blob: Option<string>,
    policy: Option<Header>,
    scripts: Option<Config>)

  /** The build, the pinned keys, and the two foreign functions. */
  datatype Env = Env(
    openssl: bool,
    pinned: bool,
    keys: seq<string>,
    parse: string -> Option<Document>,
    verify: (string, string, string) -> bool)

  const BLOB_CAP: nat := 8192

  /** A bounded string copy. */
  function Clip(s: string): string {
    if |s| < BLOB_CAP then s else s[..BLOB_CAP - 1]
  }

  datatype SigOutcome = Refuse(reason: string) | Proceed(text: string)

  ghost predicate SignedByPinned(env: Env, sig: string, blob: string) {
    exists k :: 0 <= k < |env.keys| && env.verify(env.keys[k], sig, blob)
  }

  /** The signature rung: a bare policy passes as it is, a wrapped one yields its blob. */
  ghost function SigCheck(env: Env, payload: string): SigOutcome {
    var doc := env.parse(payload);
    if doc.None? then Refuse("malformed json")
    else if doc.value.sig.None? && doc.value.blob.None? then Proceed(Clip(payload))
    else if doc.value.sig.None? || doc.value.blob.None? then Refuse("partial signature wrapper")
    else if !env.openssl then Refuse("build cannot verify signatures")
    else
      var sig, blob := doc.value.sig.value, doc.value.blob.value;
      if sig.alg != "ed25519" || sig.value == "" then Refuse("unsupported signature")
      else if env.pinned && !SignedByPinned(env, sig.value, blob) then Refuse("signature invalid")
      else Proceed(Clip(blob))
  }

  datatype Outcome =
    | Refused(reason: string)
    | Held
    | Install(doc: Document, epoch: nat)

  /** The ladder, given the held epoch and the clock. */
  ghost function Validate(env: Env, payload: Option<string>, have: nat, now: int): (r: Outcome)
    ensures r.Install? ==> r.epoch > have && r.doc.scripts.Some?
    ensures r.Refused? ==> r.reason != ""
  {
    if payload.None? then Refused("null payload") else
    var sig := SigCheck(env, payload.value);
    if sig.Refuse? then Refused(sig.reason) else
    var doc := env.parse(sig.text);
    if doc.None? then Refused("malformed json")
    else if doc.value.policy.None? then Refused("no policy header")
    else
      var Header(epoch, expires) := doc.value.policy.value;
      if epoch < 1.0 then Refused("policy.epoch missing")
      else if epoch.Floor == have then Held
      else if epoch.Floor < have then Refused("epoch regression refused")
      else if expires > 0.0 && expires.Floor <= now then Refused("policy expired")
      else if doc.value.scripts.None? then Refused("no intercept_scripts")
      else Install(doc.value, epoch.Floor)
  }

  method CheckSignature(env: Env, payload: string) returns (r: SigOutcome)
    ensures r == SigCheck(env, payload)
  {
    var doc := env.parse(payload);
    if doc.None? {
      return Refuse("malformed json");
    }
    var sig, blob := doc.value.sig, doc.value.blob;
    if sig.None? && blob.None? {
      return Proceed(Clip(payload));
    }
    if sig.None? || blob.None? {
      return Refuse("partial signature wrapper");
    }
    if !env.openssl {
      return Refuse("build cannot verify signatures");
    }
    if sig.value.alg != "ed25519" || sig.value.value == "" {
      return Refuse("unsupported signature");
    }
    if !env.pinned {
      return Proceed(Clip(blob.value));
    }
    var ok := false;
    var k := 0;
    while k < |env.keys| && !ok
      invariant 0 <= k <= |env.keys|
      invariant ok ==> SignedByPinned(env, sig.value.value, blob.value)
      invariant !ok ==> forall j :: 0 <= j < k ==> !env.verify(env.keys[j], sig.value.value, blob.value)
    {
      ok := env.verify(env.keys[k], sig.value.value, blob.value);
      k := k + 1;
    }
    if !ok {
      return Refuse("signature invalid");
    }
    return Proceed(Clip(blob.value));
  }

  // ----- The agent -----

  /** What is in force: the held epoch, the active scripts, and the scripts the lookup cache was built from. */
  datatype Policy = Policy(epoch: nat, conf: Config, cached: Config)

  /** A delivery: the payload, the clock, and whether the new cache could be built. */
  datatype Delivery = Delivery(payload: string, now: int, cacheOk: bool)

  datatype Ack = Ack(epoch: nat, applied: bool, reason: string)

  ghost function Applied(env: Env, p: Policy, d: Delivery): (Policy, bool, string) {
    match Validate(env, Some(d.payload), p.epoch, d.now)
    case Refused(reason) => (p, false, reason)
    case Held => (p, true, "")
    case Install(doc, epoch) =>
      if d.cacheOk then (Policy(epoch, doc.scripts.value, doc.scripts.value), true, "")
      else (p, false, "cache rebuild failed")
  }

  class Agent {
    var epoch: nat
    var conf: Config
    var snap: Snapshot
    ghost var cached: Config

    ghost predicate Valid()
      reads this
    {
      Complete(snap) && snap.entries == Collect(cached, 0, MAX_ENTRIES)
    }

    ghost function Current(): Policy
      reads this
    {
      Policy(epoch, conf, cached)
    }

    /** Apply a policy; true when it is in force afterwards. */
    method PolicyApply(env: Env, d: Delivery, indexed: bool) returns (ok: bool, reason: string)
      requires Valid()
      modifies this
      ensures Valid()
      ensures (Current(), ok, reason) == Applied(env, old(Current()), d)
    {
      var sig := CheckSignature(env, d.payload);
      if sig.Refuse? {
        return false, sig.reason;
      }
      var doc := env.parse(sig.text);
      if doc.None? {
        return false, "malformed json";
      }
      if doc.value.policy.None? {
        return false, "no policy header";
      }
      var Header(e, expires) := doc.value.policy.value;
      if e < 1.0 {
        return false, "policy.epoch missing";
      }
      if e.Floor == epoch {
        return true, "";
      }
      if e.Floor < epoch {
        return false, "epoch regression refused";
      }
      if expires > 0.0 && expires.Floor <= d.now {
        return false, "policy expired";
      }
      if doc.value.scripts.None? {
        return false, "no intercept_scripts";
      }
      if !d.cacheOk {
        return false, "cache rebuild failed";
      }
      snap := Build(doc.value.scripts.value, indexed);
      cached := doc.value.scripts.value;
      conf := doc.value.scripts.value;
      epoch := e.Floor;
      return true, "";
    }

    /** The POLICY_SET branch: apply, then acknowledge by whether a reason was left. */
    method PolicySet(env: Env, d: Delivery, indexed: bool) returns (ack: Ack)
      requires Valid()
      modifies this
      ensures Valid()
      ensures Current() == Applied(env, old(Current()), d).0
      ensures ack.applied == Applied(env, old(Current()), d).1
      ensures ack.epoch == epoch
      ensures !ack.applied ==> ack.reason != ""
    {
      var ok, reason := PolicyApply(env, d, indexed);
      var applied := reason == "";
      ack := Ack(epoch, applied, if applied then "" else reason);
    }
  }

  // ----- Whole runs -----

  ghost function Deliver(env: Env, p: Policy, d: Delivery): Policy {
    Applied(env, p, d).0
  }

  ghost function Final(env: Env, p: Policy, ds: seq<Delivery>): Policy
    decreases |ds|
  {
    if ds == [] then p else Final(env, Deliver(env, p, ds[0]), ds[1..])
  }

  /** One delivery: the epoch grows exactly when a configuration is installed, and otherwise nothing changes. */
  lemma DeliveryIsAtomic(env: Env, p: Policy, d: Delivery)
    ensures var p' := Deliver(env, p, d);
            && p'.epoch >= p.epoch
            && (p'.epoch == p.epoch <==> p' == p)
            && (p' != p ==>
                  && Applied(env, p, d).1
                  && Validate(env, Some(d.payload), p.epoch, d.now).Install?
                  && p'.conf == p'.cached == Validate(env, Some(d.payload), p.epoch, d.now).doc.scripts.value)
  {
  }

  /** What the policy in force owes to the deliveries: it is the starting one, or one of theirs, wholly. */
  ghost predicate ComesFrom(env: Env, start: Policy, ds: seq<Delivery>, p: Policy) {
    || p == start
    || exists i, have :: 0 <= i < |ds| && start.epoch <= have < p.epoch && InstalledBy(env, ds[i], have, p)
  }

  ghost predicate InstalledBy(env: Env, d: Delivery, have: nat, p: Policy) {
    && d.cacheOk
    && var r := Validate(env, Some(d.payload), have, d.now);
       r.Install? && p == Policy(r.epoch, r.doc.scripts.value, r.doc.scripts.value)
  }

  /** Over any deliveries the epoch never decreases, and the active scripts, the cache and the epoch are one policy's. */
  lemma {:induction false} RunIsMonotone(env: Env, p: Policy, ds: seq<Delivery>)
    ensures Final(env, p, ds).epoch >= p.epoch
    ensures ComesFrom(env, p, ds, Final(env, p, ds))
    ensures Final(env, p, ds).epoch == p.epoch <==> Final(env, p, ds) == p
    decreases |ds|
  {
    if ds != [] {
      hide Validate;
      var p1 := Deliver(env, p, ds[0]);
      DeliveryIsAtomic(env, p, ds[0]);
      RunIsMonotone(env, p1, ds[1..]);
      var q := Final(env, p1, ds[1..]);
      if q != p1 {
        var i, have :| 0 <= i < |ds[1..]| && p1.epoch <= have < q.epoch && InstalledBy(env, ds[1..][i], have, q);
        assert InstalledBy(env, ds[i + 1], have, q);
      } else if q != p {
        assert InstalledBy(env, ds[0], p.epoch, q);
      }
    }
  }

  // ----- Delivery order -----

  /** A policy that no rung but the epoch's can stop: its document passes whenever its epoch is new. */
  ghost predicate Sound(env: Env, d: Delivery) {
    && d.cacheOk
    && Validate(env, Some(d.payload), 0, d.now).Install?
  }

  ghost function EpochOf(env: Env, d: Delivery): nat
    requires Sound(env, d)
  {
    Validate(env, Some(d.payload), 0, d.now).epoch
  }

  ghost function ScriptsOf(env: Env, d: Delivery): Config
    requires Sound(env, d)
  {
    Validate(env, Some(d.payload), 0, d.now).doc.scripts.value
  }

  ghost function Installed(env: Env, d: Delivery): Policy
    requires Sound(env, d)
  {
    Policy(EpochOf(env, d), ScriptsOf(env, d), ScriptsOf(env, d))
  }

  lemma SoundDelivery(env: Env, p: Policy, d: Delivery)
    requires Sound(env, d)
    ensures Deliver(env, p, d) == if EpochOf(env, d) > p.epoch then Installed(env, d) else p
  {
  }

  ghost predicate AllSound(env: Env, ds: seq<Delivery>) {
    forall i :: 0 <= i < |ds| ==> Sound(env, ds[i])
  }

  /** `i` is the first delivery of the highest epoch, and that epoch is new. */
  ghost predicate FirstHighest(env: Env, p: Policy, ds: seq<Delivery>, i: nat)
    requires AllSound(env, ds) && i < |ds|
  {
    && EpochOf(env, ds[i]) > p.epoch
    && (forall j :: 0 <= j < |ds| ==> EpochOf(env, ds[j]) <= EpochOf(env, ds[i]))
    && (forall j :: 0 <= j < i ==> EpochOf(env, ds[j]) < EpochOf(env, ds[i]))
  }

  lemma {:induction false} FinalIsHighest(env: Env, p: Policy, ds: seq<Delivery>, i: nat)
    requires AllSound(env, ds) && i < |ds| && FirstHighest(env, p, ds, i)
    ensures Final(env, p, ds) == Installed(env, ds[i])
    decreases |ds|
  {
    hide Sound, EpochOf, ScriptsOf;
    SoundDelivery(env, p, ds[0]);
    var p1 := Deliver(env, p, ds[0]);
    if i == 0 {
      NothingNew(env, p1, ds[1..]);
    } else {
      assert FirstHighest(env, p1, ds[1..], i - 1);
      FinalIsHighest(env, p1, ds[1..], i - 1);
    }
  }

  lemma {:induction false} NothingNew(env: Env, p: Policy, ds: seq<Delivery>)
    requires AllSound(env, ds)
    requires forall j :: 0 <= j < |ds| ==> EpochOf(env, ds[j]) <= p.epoch
    ensures Final(env, p, ds) == p
    decreases |ds|
  {
    if ds != [] {
      hide Sound, EpochOf, ScriptsOf;
      SoundDelivery(env, p, ds[0]);
      NothingNew(env, p, ds[1..]);
    }
  }

  /** Deliveries of the highest new epoch all carry the same scripts. */
  ghost predicate HighestAgree(env: Env, p: Policy, ds: seq<Delivery>)
    requires AllSound(env, ds)
  {
    forall i, j :: 0 <= i < |ds| && 0 <= j < |ds| && IsHighest(env, p, ds, i) && IsHighest(env, p, ds, j) ==>
      ScriptsOf(env, ds[i]) == ScriptsOf(env, ds[j])
  }

  ghost predicate IsHighest(env: Env, p: Policy, ds: seq<Delivery>, i: nat)
    requires AllSound(env, ds) && i < |ds|
  {
    && EpochOf(env, ds[i]) > p.epoch
    && (forall j :: 0 <= j < |ds| ==> EpochOf(env, ds[j]) <= EpochOf(env, ds[i]))
  }

  lemma {:induction false} FindHighest(env: Env, p: Policy, ds: seq<Delivery>, i: nat) returns (k: nat)
    requires AllSound(env, ds) && i < |ds| && IsHighest(env, p, ds, i)
    ensures k <= i && FirstHighest(env, p, ds, k)
    decreases i
  {
    hide Sound, EpochOf;
    if j :| 0 <= j < i && EpochOf(env, ds[j]) == EpochOf(env, ds[i]) {
      k := FindHighest(env, p, ds, j);
    } else {
      k := i;
    }
  }

  lemma {:induction false} HasHighest(env: Env, p: Policy, ds: seq<Delivery>, n: nat) returns (k: nat)
    requires AllSound(env, ds) && 0 < n <= |ds|
    ensures k < n && forall j :: 0 <= j < n ==> EpochOf(env, ds[j]) <= EpochOf(env, ds[k])
    decreases n
  {
    hide Sound, EpochOf;
    if n == 1 {
      k := 0;
    } else {
      k := HasHighest(env, p, ds, n - 1);
      if EpochOf(env, ds[n - 1]) > EpochOf(env, ds[k]) {
        k := n - 1;
      }
    }
  }

  ghost predicate IsPermutation(ds: seq<Delivery>, es: seq<Delivery>) {
    multiset(ds) == multiset(es)
  }

  lemma PermutationIndex(ds: seq<Delivery>, es: seq<Delivery>, i: nat) returns (j: nat)
    requires IsPermutation(ds, es) && i < |ds|
    ensures j < |es| && es[j] == ds[i]
  {
    assert ds[i] in multiset(ds);
    assert ds[i] in multiset(es);
    j :| 0 <= j < |es| && es[j] == ds[i];
  }

  lemma PermutationSound(env: Env, ds: seq<Delivery>, es: seq<Delivery>)
    requires AllSound(env, ds) && IsPermutation(ds, es)
    ensures AllSound(env, es)
  {
    forall i | 0 <= i < |es|
      ensures Sound(env, es[i])
    {
      var j := PermutationIndex(es, ds, i);
    }
  }

  /** The highest new policy wins, whatever the order. */
  lemma SomeHighestWins(env: Env, p: Policy, ds: seq<Delivery>)
    requires AllSound(env, ds)
    ensures (forall j :: 0 <= j < |ds| ==> EpochOf(env, ds[j]) <= p.epoch) ==> Final(env, p, ds) == p
    ensures forall i :: 0 <= i < |ds| && IsHighest(env, p, ds, i) && HighestAgree(env, p, ds) ==>
              Final(env, p, ds) == Installed(env, ds[i])
  {
    hide Sound, EpochOf, ScriptsOf;
    if forall j :: 0 <= j < |ds| ==> EpochOf(env, ds[j]) <= p.epoch {
      NothingNew(env, p, ds);
    }
    forall i | 0 <= i < |ds| && IsHighest(env, p, ds, i) && HighestAgree(env, p, ds)
      ensures Final(env, p, ds) == Installed(env, ds[i])
    {
      var k := FindHighest(env, p, ds, i);
      FinalIsHighest(env, p, ds, k);
      assert IsHighest(env, p, ds, k);
    }
  }

  lemma AgreementIsSymmetric(env: Env, p: Policy, ds: seq<Delivery>, es: seq<Delivery>)
    requires AllSound(env, ds) && AllSound(env, es) && IsPermutation(ds, es)
    requires HighestAgree(env, p, ds)
    ensures HighestAgree(env, p, es)
  {
    hide Sound, EpochOf, ScriptsOf;
    forall i, j | 0 <= i < |es| && 0 <= j < |es| && IsHighest(env, p, es, i) && IsHighest(env, p, es, j)
      ensures ScriptsOf(env, es[i]) == ScriptsOf(env, es[j])
    {
      var a := PermutationIndex(es, ds, i);
      var b := PermutationIndex(es, ds, j);
      HighestMoves(env, p, es, ds, i, a);
      HighestMoves(env, p, es, ds, j, b);
    }
  }

  lemma HighestMoves(env: Env, p: Policy, ds: seq<Delivery>, es: seq<Delivery>, i: nat, a: nat)
    requires AllSound(env, ds) && AllSound(env, es) && IsPermutation(ds, es)
    requires i < |ds| && a < |es| && es[a] == ds[i] && IsHighest(env, p, ds, i)
    ensures IsHighest(env, p, es, a)
  {
    hide Sound, EpochOf;
    forall j | 0 <= j < |es|
      ensures EpochOf(env, es[j]) <= EpochOf(env, es[a])
    {
      var b := PermutationIndex(es, ds, j);
    }
  }

  lemma AgreementGivesOrderFreedom(env: Env, p: Policy, ds: seq<Delivery>, es: seq<Delivery>)
    requires AllSound(env, ds) && IsPermutation(ds, es) && AllSound(env, es)
    requires HighestAgree(env, p, ds)
    ensures Final(env, p, ds) == Final(env, p, es)
  {
    hide Sound, EpochOf, ScriptsOf;
    AgreementIsSymmetric(env, p, ds, es);
    SomeHighestWins(env, p, ds);
    SomeHighestWins(env, p, es);
    if i :| 0 <= i < |ds| && EpochOf(env, ds[i]) > p.epoch {
      var k := HasHighest(env, p, ds, |ds|);
      assert IsHighest(env, p, ds, k);
      var a := PermutationIndex(ds, es, k);
      HighestMoves(env, p, ds, es, k, a);
    } else {
      forall j | 0 <= j < |es|
        ensures EpochOf(env, es[j]) <= p.epoch
      {
        var b := PermutationIndex(es, ds, j);
      }
    }
  }

  function ToFront(ds: seq<Delivery>, i: nat): seq<Delivery>
    requires i < |ds|
  {
    [ds[i]] + ds[..i] + ds[i + 1..]
  }

  lemma ToFrontIsPermutation(ds: seq<Delivery>, i: nat)
    requires i < |ds|
    ensures IsPermutation(ds, ToFront(ds, i))
  {
    assert ds == ds[..i] + [ds[i]] + ds[i + 1..];
  }

  lemma FrontWins(env: Env, p: Policy, ds: seq<Delivery>, i: nat)
    requires AllSound(env, ds) && i < |ds| && IsHighest(env, p, ds, i)
    ensures Final(env, p, ToFront(ds, i)) == Installed(env, ds[i])
  {
    hide Sound, EpochOf, ScriptsOf;
    var es := ToFront(ds, i);
    ToFrontIsPermutation(ds, i);
    PermutationSound(env, ds, es);
    HighestMoves(env, p, ds, es, i, 0);
    FinalIsHighest(env, p, es, 0);
  }

  /**
   For policies that pass every check but the epoch's, the outcome is the same in every delivery order exactly
   when the deliveries of the highest new epoch agree on their scripts; then it is that policy.
   */
  lemma OrderDoesNotMatterIff(env: Env, p: Policy, ds: seq<Delivery>)
    requires AllSound(env, ds)
    ensures (forall es :: IsPermutation(ds, es) ==> Final(env, p, es) == Final(env, p, ds))
       <==> HighestAgree(env, p, ds)
  {
    hide Sound, EpochOf, ScriptsOf;
    if HighestAgree(env, p, ds) {
      forall es | IsPermutation(ds, es)
        ensures Final(env, p, es) == Final(env, p, ds)
      {
        PermutationSound(env, ds, es);
        AgreementGivesOrderFreedom(env, p, ds, es);
      }
    } else {
      var i, j :| 0 <= i < |ds| && 0 <= j < |ds| && IsHighest(env, p, ds, i) && IsHighest(env, p, ds, j) &&
                  ScriptsOf(env, ds[i]) != ScriptsOf(env, ds[j]);
      FrontWins(env, p, ds, i);
      FrontWins(env, p, ds, j);
      ToFrontIsPermutation(ds, i);
      ToFrontIsPermutation(ds, j);
    }
  }
}
