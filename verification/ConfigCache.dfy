/**
 The configuration cache: the named scripts of a configuration in a snapshot with an
 open-addressing index, rebuilt as a whole and published by one pointer store.
 */
module ConfigCache {
  import opened Common

  // ----- Configurations -----

  datatype CallerRule =
    | Address(at: nat)
    | Symbol(symbol: string)
    | ModuleOffset(mod: string, offset: nat)
    | Other

  /** An interception script: the members the resolver reads. A missing return address reads as zero. */
  datatype Script = Script(
    name: Option<string>,
    callers: Option<seq<Option<CallerRule>>>,
    returnAddr: int)

  /** The `intercept_scripts` array; an element that is not an object reads as none. */
  type Config = seq<Option<Script>>

  predicate NamedAt(conf: Config, i: nat, name: string) {
    i < |conf| && conf[i].Some? && conf[i].value.name == Some(name)
  }

  const MAX_ENTRIES: nat := 256

  // ----- Snapshots -----

  /** A cached script, by its name and its place in the configuration. */
  datatype Entry = Entry(name: string, script: nat)

  /** `buckets` holds entry indices plus one, zero when free; it is empty when it could not be allocated. */
  datatype Snapshot = Snapshot(entries: seq<Entry>, buckets: seq<nat>)

  predicate Cacheable(s: Option<Script>) {
    s.Some? && s.value.name.Some? && s.value.name.value != "" && s.value.name.value != "*"
  }

  /** The entries a configuration contributes from `i` on, in order, at most `room` of them. */
  function Collect(conf: Config, i: nat, room: nat): (entries: seq<Entry>)
    requires i <= |conf|
    ensures |entries| <= room
    decreases |conf| - i
  {
    if i == |conf| || room == 0 then []
    else if Cacheable(conf[i]) then [Entry(conf[i].value.name.value, i)] + Collect(conf, i + 1, room - 1)
    else Collect(conf, i + 1, room)
  }

  /** The simple lookup: the first entry of that name. */
  function FirstMatch(entries: seq<Entry>, name: string): (r: Option<nat>)
    ensures r.None? <==> forall i :: 0 <= i < |entries| ==> entries[i].name != name
  {
    if entries == [] then None
    else if entries[0].name == name then Some(entries[0].script)
    else FirstMatch(entries[1..], name)
  }

  lemma {:induction false} FirstMatchAt(entries: seq<Entry>, name: string, i: nat)
    requires i < |entries| && entries[i].name == name
    requires forall j :: 0 <= j < i ==> entries[j].name != name
    ensures FirstMatch(entries, name) == Some(entries[i].script)
    decreases i
  {
    if i > 0 {
      assert entries[0].name != name;
      FirstMatchAt(entries[1..], name, i - 1);
    }
  }

  // ----- The index -----

  /** FNV-1a, 32 bits, over the bytes of the name. */
  function NameHash(s: string): bv32 {
    if s == [] then 2166136261
    else (NameHash(s[..|s| - 1]) ^ ((s[|s| - 1] as int % 256) as bv32)) * 16777619
  }

  /** The bucket a name starts at; the table size is a power of two, so masking is taking the remainder. */
  function Home(name: string, size: nat): (b: nat)
    requires size > 0
    ensures b < size
  {
    NameHash(name) as nat % size
  }

  /** The bucket `k` places further round the table. */
  function Around(home: nat, k: nat, size: nat): (b: nat)
    requires home < size && k < size
    ensures b < size
  {
    if home + k < size then home + k else home + k - size
  }

  /** Entry `i` sits `k` places from its home, and only earlier entries lie in between. */
  ghost predicate Placed(entries: seq<Entry>, buckets: seq<nat>, i: nat, k: nat)
    requires i < |entries| && k < |buckets|
  {
    && buckets[Around(Home(entries[i].name, |buckets|), k, |buckets|)] == i + 1
    && forall j: nat :: j < k ==> 0 < buckets[Around(Home(entries[i].name, |buckets|), j, |buckets|)] <= i
  }

  ghost predicate Findable(entries: seq<Entry>, buckets: seq<nat>, i: nat)
    requires i < |entries|
  {
    exists k: nat :: k < |buckets| && Placed(entries, buckets, i, k)
  }

  ghost function Taken(buckets: seq<nat>): set<nat> {
    set b: nat | b < |buckets| && buckets[b] != 0
  }

  /** The first `n` entries are indexed, each in its own bucket. */
  ghost predicate Indexed(entries: seq<Entry>, buckets: seq<nat>, n: nat) {
    && n <= |entries|
    && n < |buckets|
    && |Taken(buckets)| == n
    && (forall b: nat :: b < |buckets| ==> buckets[b] <= n)
    && (forall i: nat :: i < n ==> Findable(entries, buckets, i))
  }

  ghost function Below(n: nat): (s: set<nat>)
    ensures |s| == n
    ensures forall b: nat :: b in s <==> b < n
  {
    if n == 0 then {} else Below(n - 1) + {n - 1}
  }

  /** A table with fewer entries than buckets has a free one, some way round from anywhere. */
  lemma FreeBucket(buckets: seq<nat>, home: nat) returns (k: nat)
    requires home < |buckets| && |Taken(buckets)| < |buckets|
    ensures k < |buckets| && buckets[Around(home, k, |buckets|)] == 0
  {
    var all := Below(|buckets|);
    assert Taken(buckets) <= all;
    assert all - Taken(buckets) != {} by {
      assert |all - Taken(buckets)| == |all| - |Taken(buckets)|;
    }
    var free :| free in all - Taken(buckets);
    k := if home <= free then free - home else free - home + |buckets|;
  }

  lemma InsertKeepsPlaced(entries: seq<Entry>, buckets: seq<nat>, b: nat, v: nat, i: nat, k: nat)
    requires b < |buckets| && buckets[b] == 0
    requires i < |entries| && k < |buckets| && Placed(entries, buckets, i, k)
    ensures Placed(entries, buckets[b := v], i, k)
  {
  }

  lemma InsertKeepsIndexed(entries: seq<Entry>, buckets: seq<nat>, n: nat, k: nat)
    requires Indexed(entries, buckets, n) && n < |entries| && n + 1 < |buckets| && k < |buckets|
    requires var home := Home(entries[n].name, |buckets|);
             && buckets[Around(home, k, |buckets|)] == 0
             && forall j: nat :: j < k ==> 0 < buckets[Around(home, j, |buckets|)]
    ensures Indexed(entries, buckets[Around(Home(entries[n].name, |buckets|), k, |buckets|) := n + 1], n + 1)
  {
    var home := Home(entries[n].name, |buckets|);
    var b := Around(home, k, |buckets|);
    var buckets' := buckets[b := n + 1];
    assert Taken(buckets') == Taken(buckets) + {b};
    assert Placed(entries, buckets', n, k) by {
      forall j: nat | j < k
        ensures 0 < buckets'[Around(home, j, |buckets'|)] <= n
      {
        assert Around(home, j, |buckets|) != b;
      }
    }
    forall i: nat | i < n + 1
      ensures Findable(entries, buckets', i)
    {
      if i < n {
        assert Findable(entries, buckets, i);
        var m: nat :| m < |buckets| && Placed(entries, buckets, i, m);
        InsertKeepsPlaced(entries, buckets, b, n + 1, i, m);
      }
    }
  }

  /** A snapshot is complete: either all its entries are indexed, or there is no index. */
  ghost predicate Complete(s: Snapshot) {
    s.buckets == [] || Indexed(s.entries, s.buckets, |s.entries|)
  }

  // ----- Building -----

  method CollectEntries(conf: Config) returns (entries: seq<Entry>)
    ensures entries == Collect(conf, 0, MAX_ENTRIES)
  {
    entries := [];
    var i := 0;
    while i < |conf| && |entries| < MAX_ENTRIES
      invariant 0 <= i <= |conf| && |entries| <= MAX_ENTRIES
      invariant entries + Collect(conf, i, MAX_ENTRIES - |entries|) == Collect(conf, 0, MAX_ENTRIES)
    {
      var script := conf[i];
      if script.Some? && script.value.name.Some? && script.value.name.value != "" && script.value.name.value != "*" {
        ghost var e := Entry(script.value.name.value, i);
        Assoc(entries, [e], Collect(conf, i + 1, MAX_ENTRIES - |entries| - 1));
        entries := entries + [Entry(script.value.name.value, i)];
      }
      i := i + 1;
    }
    assert entries + [] == entries;
  }

  predicate IsPowerOfTwo(n: nat) {
    n == 1 || (n > 1 && n % 2 == 0 && IsPowerOfTwo(n / 2))
  }

  /** The number of buckets: the least power of two from 8 that keeps the load at a quarter or below. */
  method TableSize(count: nat) returns (nb: nat)
    ensures IsPowerOfTwo(nb) && nb >= 8 && nb >= 4 * count
    ensures nb == 8 || nb < 8 * count
  {
    nb := 8;
    assert IsPowerOfTwo(2) && IsPowerOfTwo(4);
    while nb < count * 4
      invariant nb >= 8 && IsPowerOfTwo(nb)
      invariant nb == 8 || nb < 8 * count
      decreases count * 4 - nb
    {
      nb := nb * 2;
    }
  }

  /** Probe from the entry's home to the first free bucket. */
  method Insert(entries: seq<Entry>, buckets: array<nat>, i: nat)
    requires i < |entries| && i + 1 < buckets.Length
    requires Indexed(entries, buckets[..], i)
    modifies buckets
    ensures Indexed(entries, buckets[..], i + 1)
  {
    hide Placed;
    var nb := buckets.Length;
    var home := Home(entries[i].name, nb);
    var b := home;
    ghost var k: nat := 0;
    ghost var free := FreeBucket(buckets[..], home);
    while buckets[b] != 0
      invariant k <= free && b == Around(home, k, nb)
      invariant forall j: nat :: j < k ==> 0 < buckets[..][Around(home, j, nb)]
      decreases free - k
    {
      b := if b + 1 == nb then 0 else b + 1;
      k := k + 1;
    }
    InsertKeepsIndexed(entries, buckets[..], i, k);
    ghost var before: seq<nat> := buckets[..];
    buckets[b] := i + 1;
    assert buckets[..] == before[b := (i + 1) as nat];
  }

  method BuildIndex(entries: seq<Entry>) returns (buckets: seq<nat>)
    ensures Indexed(entries, buckets, |entries|)
    ensures 4 * |entries| <= |buckets|
  {
    var nb := TableSize(|entries|);
    var table := new nat[nb](_ => 0);
    assert Taken(table[..]) == {};
    var i := 0;
    while i < |entries|
      invariant 0 <= i <= |entries|
      invariant Indexed(entries, table[..], i)
    {
      Insert(entries, table, i);
      i := i + 1;
    }
    buckets := table[..];
  }

  /** A fresh snapshot of a configuration; `indexed` says whether the index could be allocated. */
  method Build(conf: Config, indexed: bool) returns (snap: Snapshot)
    ensures snap.entries == Collect(conf, 0, MAX_ENTRIES)
    ensures Complete(snap)
    ensures indexed ==> 4 * |snap.entries| <= |snap.buckets|
  {
    var entries := CollectEntries(conf);
    var buckets: seq<nat> := [];
    if indexed {
      buckets := BuildIndex(entries);
    }
    snap := Snapshot(entries, buckets);
  }

  // ----- What is cached -----

  /** The script at `i` has a name of its own: not empty, not the wildcard. */
  ghost predicate HasOwnName(conf: Config, i: nat) {
    exists name :: NamedAt(conf, i, name) && name != "" && name != "*"
  }

  ghost function OwnNames(conf: Config, a: nat, b: nat): set<nat> {
    set i: nat | a <= i < b && HasOwnName(conf, i)
  }

  lemma CacheableIsNamed(conf: Config, i: nat)
    requires i < |conf|
    ensures Cacheable(conf[i]) <==> HasOwnName(conf, i)
  {
    if Cacheable(conf[i]) {
      assert NamedAt(conf, i, conf[i].value.name.value);
    }
  }

  lemma OwnNamesStep(conf: Config, a: nat, b: nat)
    requires a < b
    ensures |OwnNames(conf, a, b)| == |OwnNames(conf, a + 1, b)| + (if HasOwnName(conf, a) then 1 else 0)
  {
    hide HasOwnName;
    if HasOwnName(conf, a) {
      assert OwnNames(conf, a, b) == OwnNames(conf, a + 1, b) + {a};
    } else {
      assert OwnNames(conf, a, b) == OwnNames(conf, a + 1, b);
    }
  }

  ghost predicate Caches(entries: seq<Entry>, i: nat) {
    exists k :: 0 <= k < |entries| && entries[k].script == i
  }

  lemma CachesCons(e: Entry, entries: seq<Entry>, i: nat)
    ensures Caches([e] + entries, i) <==> e.script == i || Caches(entries, i)
  {
    var all := [e] + entries;
    if e.script == i {
      assert all[0].script == i;
    }
    if k :| 0 <= k < |entries| && entries[k].script == i {
      assert all[k + 1].script == i;
    }
  }

  lemma {:induction false} CollectedExactly(conf: Config, a: nat, room: nat, i: nat)
    requires a <= i < |conf|
    ensures Caches(Collect(conf, a, room), i) <==> HasOwnName(conf, i) && |OwnNames(conf, a, i)| < room
    decreases |conf| - a
  {
    hide HasOwnName, OwnNames;
    CacheableIsNamed(conf, a);
    hide Cacheable;
    var rest := Collect(conf, a + 1, if HasOwnName(conf, a) && room > 0 then room - 1 else room);
    if room == 0 {
      assert Collect(conf, a, room) == [];
    } else {
      if HasOwnName(conf, a) {
        CachesCons(Entry(conf[a].value.name.value, a), rest, i);
      }
      if a == i {
        NoneBefore(conf, a);
        LaterOnly(conf, a + 1, if HasOwnName(conf, a) then room - 1 else room);
        assert !Caches(rest, a);
      } else {
        OwnNamesStep(conf, a, i);
        CollectedExactly(conf, a + 1, if HasOwnName(conf, a) then room - 1 else room, i);
      }
    }
  }

  lemma NoneBefore(conf: Config, a: nat)
    ensures OwnNames(conf, a, a) == {}
  {
  }

  /** Entries are in the order of the configuration, each under its own script's name. */
  lemma {:induction false} LaterOnly(conf: Config, a: nat, room: nat)
    requires a <= |conf|
    ensures InOrder(conf, a, Collect(conf, a, room))
    decreases |conf| - a
  {
    if a < |conf| && room > 0 {
      if Cacheable(conf[a]) {
        LaterOnly(conf, a + 1, room - 1);
        InOrderCons(conf, a, Collect(conf, a + 1, room - 1));
      } else {
        LaterOnly(conf, a + 1, room);
      }
    }
  }

  ghost predicate InOrder(conf: Config, a: nat, entries: seq<Entry>) {
    && (forall k :: 0 <= k < |entries| ==>
          a <= entries[k].script && NamedAt(conf, entries[k].script, entries[k].name))
    && (forall j, k :: 0 <= j < k < |entries| ==> entries[j].script < entries[k].script)
  }

  lemma InOrderCons(conf: Config, a: nat, entries: seq<Entry>)
    requires a < |conf| && Cacheable(conf[a]) && InOrder(conf, a + 1, entries)
    ensures InOrder(conf, a, [Entry(conf[a].value.name.value, a)] + entries)
  {
    var all := [Entry(conf[a].value.name.value, a)] + entries;
    assert forall k :: 0 < k < |all| ==> all[k] == entries[k - 1];
  }

  /** Exactly the first 256 scripts with a name of their own are cached, in order and under their names. */
  lemma FirstNamedAreCached(conf: Config, i: nat)
    requires i < |conf|
    ensures var entries := Collect(conf, 0, MAX_ENTRIES);
            && (Caches(entries, i) <==> HasOwnName(conf, i) && |OwnNames(conf, 0, i)| < 256)
            && InOrder(conf, 0, entries)
  {
    CollectedExactly(conf, 0, MAX_ENTRIES, i);
    LaterOnly(conf, 0, MAX_ENTRIES);
  }

  // ----- Lookup -----

  /** All buckets from a name's home up to `k` places on are taken, by other names. */
  ghost predicate Passed(s: Snapshot, name: string, k: nat)
    requires s.buckets != [] && k <= |s.buckets|
  {
    forall j: nat :: j < k ==>
      var v := s.buckets[Around(Home(name, |s.buckets|), j, |s.buckets|)];
      0 < v && (v <= |s.entries| ==> s.entries[v - 1].name != name)
  }

  ghost predicate IsFirst(entries: seq<Entry>, name: string, m: nat) {
    m < |entries| && entries[m].name == name && forall i :: 0 <= i < m ==> entries[i].name != name
  }

  lemma {:induction false} SomeFirst(entries: seq<Entry>, name: string, i: nat) returns (m: nat)
    requires i < |entries| && entries[i].name == name
    ensures m <= i && IsFirst(entries, name, m)
    decreases i
  {
    if j :| 0 <= j < i && entries[j].name == name {
      m := SomeFirst(entries, name, j);
    } else {
      m := i;
    }
  }

  /** The first entry of a name is the first one of that name on the probe path. */
  lemma ProbeDecides(s: Snapshot, name: string, k: nat)
    requires s.buckets != [] && Complete(s) && k < |s.buckets|
    requires Passed(s, name, k)
    ensures var v := s.buckets[Around(Home(name, |s.buckets|), k, |s.buckets|)];
            && (v == 0 ==> FirstMatch(s.entries, name).None?)
            && (v != 0 && s.entries[v - 1].name == name ==>
                  FirstMatch(s.entries, name) == Some(s.entries[v - 1].script))
  {
    var n := |s.buckets|;
    var v := s.buckets[Around(Home(name, n), k, n)];
    if i :| 0 <= i < |s.entries| && s.entries[i].name == name {
      var m := SomeFirst(s.entries, name, i);
      assert Findable(s.entries, s.buckets, m);
      var km: nat :| km < n && Placed(s.entries, s.buckets, m, km);
      assert km >= k;
      if km == k {
        FirstMatchAt(s.entries, name, m);
      } else {
        assert 0 < v <= m;
      }
    } else if v != 0 {
      assert s.entries[v - 1].name != name;
    }
  }

  lemma ProbeEnds(s: Snapshot, name: string) returns (k: nat)
    requires s.buckets != [] && Complete(s)
    ensures k < |s.buckets| && s.buckets[Around(Home(name, |s.buckets|), k, |s.buckets|)] == 0
  {
    k := FreeBucket(s.buckets, Home(name, |s.buckets|));
  }

  /** The hashed lookup terminates and answers as the linear scan does, duplicates included. */
  method Lookup(s: Snapshot, name: string) returns (r: Option<nat>)
    requires Complete(s)
    ensures r == FirstMatch(s.entries, name)
  {
    if |s.buckets| > 0 {
      var nb := |s.buckets|;
      var b := Home(name, nb);
      ghost var k: nat := 0;
      ghost var free := ProbeEnds(s, name);
      while true
        invariant k <= free && b == Around(Home(name, nb), k, nb)
        invariant Passed(s, name, k)
        decreases free - k
      {
        var idx := s.buckets[b];
        ProbeDecides(s, name, k);
        if idx == 0 {
          return None;
        }
        if s.entries[idx - 1].name == name {
          return Some(s.entries[idx - 1].script);
        }
        b := if b + 1 == nb then 0 else b + 1;
        k := k + 1;
      }
    }
    var i := 0;
    while i < |s.entries|
      invariant 0 <= i <= |s.entries|
      invariant forall j :: 0 <= j < i ==> s.entries[j].name != name
    {
      if s.entries[i].name == name {
        FirstMatchAt(s.entries, name, i);
        return Some(s.entries[i].script);
      }
      i := i + 1;
    }
    return None;
  }
}
