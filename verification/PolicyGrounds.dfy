/**
 On what grounds a policy takes force, stated on the documents themselves: what a delivery must carry, who must have
 signed it and when it may still be applied, for single deliveries and for whole runs.
 */
module PolicyGrounds {
  import opened Common
  import opened ConfigCache
  import opened PolicyEpochs

  /** What fits the 8192-byte buffer with its terminator. */
  ghost predicate IsCopyOf(text: string, source: string) {
    text <= source && |text| == if |source| <= 8191 then |source| else 8191
  }

  /** A bare policy carries itself. */
  ghost predicate IsBare(env: Env, payload: string) {
    && env.parse(payload).Some?
    && env.parse(payload).value.sig.None? && env.parse(payload).value.blob.None?
  }

  /** Half a wrapper: a signature without a blob, or a blob without a signature. */
  ghost predicate IsHalfWrapped(env: Env, payload: string) {
    && env.parse(payload).Some?
    && env.parse(payload).value.sig.Some? != env.parse(payload).value.blob.Some?
  }

  ghost predicate IsWrapped(env: Env, payload: string) {
    && env.parse(payload).Some?
    && env.parse(payload).value.sig.Some? && env.parse(payload).value.blob.Some?
  }

  /** The wrapper's signature stands: the build can check it and, when keys are pinned, one of them signed the blob. */
  ghost predicate Stands(env: Env, payload: string)
    requires IsWrapped(env, payload)
  {
    var Signature(alg, sig) := env.parse(payload).value.sig.value;
    && env.openssl && alg == "ed25519" && sig != ""
    && (env.pinned ==> exists key :: key in env.keys && env.verify(key, sig, env.parse(payload).value.blob.value))
  }

  /** The text of the policy that a payload brings. */
  ghost predicate Brings(env: Env, payload: string, text: string) {
    || (IsBare(env, payload) && IsCopyOf(text, payload))
    || (IsWrapped(env, payload) && Stands(env, payload) && IsCopyOf(text, env.parse(payload).value.blob.value))
  }

  /** A document with a header, scripts, an epoch above the one held, and not expired. */
  ghost predicate IsCurrent(doc: Document, have: nat, now: int) {
    && doc.policy.Some? && doc.scripts.Some?
    && doc.policy.value.epoch >= 1.0
    && doc.policy.value.epoch.Floor > have
    && (doc.policy.value.expires > 0.0 ==> now < doc.policy.value.expires.Floor)
  }

  ghost predicate TakesForce(env: Env, p: Policy, d: Delivery, text: string, q: Policy) {
    && d.cacheOk
    && Brings(env, d.payload, text)
    && env.parse(text).Some? && IsCurrent(env.parse(text).value, p.epoch, d.now)
    && q.epoch == env.parse(text).value.policy.value.epoch.Floor
    && q.conf == q.cached == env.parse(text).value.scripts.value
  }

  lemma SignedMeansSomeKey(env: Env, sig: string, blob: string)
    ensures SignedByPinned(env, sig, blob) <==> exists key :: key in env.keys && env.verify(key, sig, blob)
  {
    if SignedByPinned(env, sig, blob) {
      var k :| 0 <= k < |env.keys| && env.verify(env.keys[k], sig, blob);
      assert env.keys[k] in env.keys;
    }
  }

  lemma CopiesAgree(a: string, b: string, source: string)
    requires IsCopyOf(a, source) && IsCopyOf(b, source)
    ensures a == b
  {
    assert a == source[..|a|] && b == source[..|b|];
  }

  lemma ClipIsCopy(source: string)
    ensures IsCopyOf(Clip(source), source)
  {
  }

  /** The signature rung lets a payload through exactly when it brings a policy, and then with its text. */
  lemma RungIsBrings(env: Env, payload: string, text: string)
    ensures SigCheck(env, payload) == Proceed(text) <==> Brings(env, payload, text)
  {
    hide Clip, IsCopyOf;
    if env.parse(payload).Some? {
      var doc := env.parse(payload).value;
      ClipIsCopy(payload);
      if IsCopyOf(text, payload) {
        CopiesAgree(text, Clip(payload), payload);
      }
      if doc.sig.Some? && doc.blob.Some? {
        SignedMeansSomeKey(env, doc.sig.value.value, doc.blob.value);
        ClipIsCopy(doc.blob.value);
        if IsCopyOf(text, doc.blob.value) {
          CopiesAgree(text, Clip(doc.blob.value), doc.blob.value);
        }
      }
    }
  }

  /** A delivery changes what is in force to `q` exactly when it brings, soundly, the policy `q`. */
  lemma TakesForceIff(env: Env, p: Policy, d: Delivery, q: Policy)
    requires q != p
    ensures Deliver(env, p, d) == q <==> exists text :: TakesForce(env, p, d, text, q)
  {
    hide SigCheck, Brings;
    if SigCheck(env, d.payload).Proceed? {
      RungIsBrings(env, d.payload, SigCheck(env, d.payload).text);
    }
    if Deliver(env, p, d) == q {
      assert TakesForce(env, p, d, SigCheck(env, d.payload).text, q);
    }
    if text :| TakesForce(env, p, d, text, q) {
      RungIsBrings(env, d.payload, text);
    }
  }

  // ----- Whole runs -----

  /** Of every run: what is in force at the end is the start, or was brought soundly by one of the deliveries. */
  ghost predicate Grounded(env: Env, start: Policy, ds: seq<Delivery>, q: Policy) {
    || q == start
    || exists i, held: Policy, text ::
         0 <= i < |ds| && start.epoch <= held.epoch && TakesForce(env, held, ds[i], text, q)
  }

  lemma {:induction false} RunIsGrounded(env: Env, p: Policy, ds: seq<Delivery>)
    ensures Grounded(env, p, ds, Final(env, p, ds))
    decreases |ds|
  {
    if ds != [] {
      hide TakesForce, Deliver, Validate;
      var p1 := Deliver(env, p, ds[0]);
      DeliveryIsAtomic(env, p, ds[0]);
      RunIsGrounded(env, p1, ds[1..]);
      var q := Final(env, p1, ds[1..]);
      if q != p1 {
        var i, held: Policy, text :|
          0 <= i < |ds[1..]| && p1.epoch <= held.epoch && TakesForce(env, held, ds[1..][i], text, q);
        assert TakesForce(env, held, ds[i + 1], text, q);
      } else if q != p {
        TakesForceIff(env, p, ds[0], q);
        var text :| TakesForce(env, p, ds[0], text, q);
        assert TakesForce(env, p, ds[0], text, q);
      }
    }
  }

  lemma {:induction false} FinalSnoc(env: Env, p: Policy, ds: seq<Delivery>, d: Delivery)
    ensures Final(env, p, ds + [d]) == Deliver(env, Final(env, p, ds), d)
    decreases |ds|
  {
    hide Deliver;
    if ds == [] {
      assert ([] + [d])[1..] == [];
      assert Final(env, Deliver(env, p, d), []) == Deliver(env, p, d);
      assert ds + [d] == [d];
    } else {
      assert (ds + [d])[0] == ds[0] && (ds + [d])[1..] == ds[1..] + [d];
      FinalSnoc(env, Deliver(env, p, ds[0]), ds[1..], d);
    }
  }

  /**
   At every delivery of every run: if a wrapped document changes what is in force while keys are pinned, a pinned key
   signed its blob, and what runs from then on are the blob's scripts.
   */
  lemma PinnedKeysSignWhatRuns(env: Env, p: Policy, ds: seq<Delivery>, n: nat) returns (key: string, text: string)
    requires n < |ds| && env.pinned && IsWrapped(env, ds[n].payload)
    requires Final(env, p, ds[..n + 1]) != Final(env, p, ds[..n])
    ensures key in env.keys
    ensures var doc, q := env.parse(ds[n].payload).value, Final(env, p, ds[..n + 1]);
            && env.verify(key, doc.sig.value.value, doc.blob.value)
            && IsCopyOf(text, doc.blob.value) && env.parse(text).Some?
            && env.parse(text).value.scripts == Some(q.conf) && q.cached == q.conf
  {
    hide IsCopyOf, Final, Deliver;
    var held, q, doc := Final(env, p, ds[..n]), Final(env, p, ds[..n + 1]), env.parse(ds[n].payload).value;
    assert ds[..n + 1] == ds[..n] + [ds[n]];
    FinalSnoc(env, p, ds[..n], ds[n]);
    TakesForceIff(env, held, ds[n], q);
    text :| TakesForce(env, held, ds[n], text, q);
    key :| key in env.keys && env.verify(key, doc.sig.value.value, doc.blob.value);
  }

  /** Half a wrapper changes nothing, whatever is in force. */
  lemma HalfWrappersAreRefused(env: Env, p: Policy, d: Delivery)
    requires IsHalfWrapped(env, d.payload)
    ensures Applied(env, p, d) == (p, false, "partial signature wrapper")
  {
    hide Clip;
  }

  /** At every point of a run the policy in force was not expired when it was delivered. */
  lemma {:induction false} ExpiredNeverRuns(env: Env, p: Policy, ds: seq<Delivery>)
    returns (i: nat, text: string)
    requires Final(env, p, ds) != p
    ensures i < |ds| && Brings(env, ds[i].payload, text) && env.parse(text).Some?
    ensures var doc := env.parse(text).value;
            && doc.policy.Some?
            && (doc.policy.value.expires > 0.0 ==> ds[i].now < doc.policy.value.expires.Floor)
            && doc.policy.value.epoch.Floor == Final(env, p, ds).epoch
            && doc.scripts == Some(Final(env, p, ds).conf)
  {
    hide Brings, Final;
    RunIsGrounded(env, p, ds);
    var q := Final(env, p, ds);
    var held: Policy;
    i, held, text :| 0 <= i < |ds| && p.epoch <= held.epoch && TakesForce(env, held, ds[i], text, q);
  }

  // ----- The reasons given -----

  /** The text is a sound policy that is new, or the one already held. */
  ghost predicate IsWelcome(env: Env, p: Policy, d: Delivery, text: string) {
    && Brings(env, d.payload, text)
    && env.parse(text).Some? && env.parse(text).value.policy.Some?
    && env.parse(text).value.policy.value.epoch >= 1.0
    && (|| env.parse(text).value.policy.value.epoch.Floor == p.epoch
        || (d.cacheOk && IsCurrent(env.parse(text).value, p.epoch, d.now)))
  }

  /** A delivery is acknowledged as applied exactly when it takes force or brings the policy already held. */
  lemma AppliedIff(env: Env, p: Policy, d: Delivery)
    ensures Applied(env, p, d).1 <==> exists text :: IsWelcome(env, p, d, text)
  {
    hide SigCheck, Brings;
    if Applied(env, p, d).1 {
      var text := SigCheck(env, d.payload).text;
      RungIsBrings(env, d.payload, text);
      assert IsWelcome(env, p, d, text);
    }
    if text :| IsWelcome(env, p, d, text) {
      RungIsBrings(env, d.payload, text);
    }
  }

  /** Each reason names what was wrong. */
  lemma ReasonsAreTrue(env: Env, p: Policy, d: Delivery)
    ensures var reason := Applied(env, p, d).2;
            && (reason == "cache rebuild failed" ==> !d.cacheOk)
            && (reason == "partial signature wrapper" ==> IsHalfWrapped(env, d.payload))
            && (reason == "build cannot verify signatures" ==> IsWrapped(env, d.payload) && !env.openssl)
            && (reason == "unsupported signature" ==> IsWrapped(env, d.payload) && IsUnsupported(env, d.payload))
            && (reason == "signature invalid" ==> IsWrapped(env, d.payload) && env.pinned && IsUnsigned(env, d.payload))
  {
    hide Clip;
    var sig := SigCheck(env, d.payload);
    SignatureReasons(env, d.payload);
    hide SigCheck, IsUnsupported, IsUnsigned;
    if sig.Proceed? {
      LaterReasons(env, p, d);
    }
  }

  ghost predicate IsUnsupported(env: Env, payload: string)
    requires IsWrapped(env, payload)
  {
    var Signature(alg, sig) := env.parse(payload).value.sig.value;
    alg != "ed25519" || sig == ""
  }

  /** No pinned key signed the blob. */
  ghost predicate IsUnsigned(env: Env, payload: string)
    requires IsWrapped(env, payload)
  {
    var doc := env.parse(payload).value;
    forall key :: key in env.keys ==> !env.verify(key, doc.sig.value.value, doc.blob.value)
  }

  lemma SignatureReasons(env: Env, payload: string)
    ensures var r := SigCheck(env, payload);
            r.Refuse? ==>
              && r.reason != "cache rebuild failed"
              && (r.reason == "partial signature wrapper" ==> IsHalfWrapped(env, payload))
              && (r.reason == "build cannot verify signatures" ==> IsWrapped(env, payload) && !env.openssl)
              && (r.reason == "unsupported signature" ==> IsWrapped(env, payload) && IsUnsupported(env, payload))
              && (r.reason == "signature invalid" ==>
                    IsWrapped(env, payload) && env.pinned && IsUnsigned(env, payload))
  {
    hide Clip;
    if IsWrapped(env, payload) {
      SignedMeansSomeKey(env, env.parse(payload).value.sig.value.value, env.parse(payload).value.blob.value);
    }
    ReasonsDiffer();
  }

  /** Past the signature, other reasons are given. */
  lemma LaterReasons(env: Env, p: Policy, d: Delivery)
    requires SigCheck(env, d.payload).Proceed?
    ensures var reason := Applied(env, p, d).2;
            && reason != "partial signature wrapper" && reason != "build cannot verify signatures"
            && reason != "unsupported signature" && reason != "signature invalid"
            && (reason == "cache rebuild failed" ==> !d.cacheOk)
  {
    hide SigCheck;
    ReasonsDiffer();
  }

  /** The lengths of the reasons tell most of them apart. */
  lemma ReasonsDiffer()
    ensures |"malformed json"| == 14 && |"partial signature wrapper"| == 25 && |"build cannot verify signatures"| == 30
    ensures |"unsupported signature"| == 21 && |"signature invalid"| == 17 && |"no policy header"| == 16
    ensures |"policy.epoch missing"| == 20 && |"epoch regression refused"| == 24 && |"policy expired"| == 14
    ensures |"no intercept_scripts"| == 20 && |"cache rebuild failed"| == 20 && |""| == 0
  {
  }

  /** The reasons about the policy itself. */
  lemma PolicyReasonsAreTrue(env: Env, p: Policy, d: Delivery, text: string)
    requires Brings(env, d.payload, text)
    ensures var reason := Applied(env, p, d).2;
            var doc := env.parse(text);
            && (reason == "malformed json" <==> doc.None?)
            && (reason == "no policy header" <==> doc.Some? && doc.value.policy.None?)
            && (reason == "policy.epoch missing" <==>
                  doc.Some? && doc.value.policy.Some? && doc.value.policy.value.epoch < 1.0)
            && (reason == "epoch regression refused" <==>
                  doc.Some? && doc.value.policy.Some? && 1 <= doc.value.policy.value.epoch.Floor < p.epoch)
            && (reason == "policy expired" ==>
                  doc.Some? && doc.value.policy.Some? && 0.0 < doc.value.policy.value.expires
                  && doc.value.policy.value.expires.Floor <= d.now && p.epoch < doc.value.policy.value.epoch.Floor)
            && (reason == "no intercept_scripts" ==> doc.Some? && doc.value.scripts.None?)
  {
    hide SigCheck, Brings;
    RungIsBrings(env, d.payload, text);
  }
}
