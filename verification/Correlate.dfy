/**
 Matching outside events against the paths the inside stream saw: an order on normalised paths, a sorted set of
 paths, an index of records sorted by path and time, and the decision whether an event is covered.
 */
module Correlate {
  import opened Common

  // ----- The order -----

  /** Byte order on strings, as the C library's comparison: only the sign matters. */
  function Compare(a: string, b: string): int {
    if a == [] && b == [] then 0
    else if a == [] then -1
    else if b == [] then 1
    else if a[0] != b[0] then a[0] as int - b[0] as int
    else Compare(a[1..], b[1..])
  }

  predicate IsLetter(c: char) {
    'A' <= c <= 'Z' || 'a' <= c <= 'z'
  }

  function Upper(c: char): char {
    if 'a' <= c <= 'z' then (c as int - 32) as char else c
  }

  /** The path starts with a drive letter and a colon. */
  predicate OnDrive(p: string) {
    |p| >= 2 && IsLetter(p[0]) && p[1] == ':'
  }

  /** Two paths on drives ignore the case of the drive letter; all others are compared byte by byte. */
  function PathCompare(a: string, b: string): int {
    if OnDrive(a) && OnDrive(b) then
      var r := Upper(a[0]) as int - Upper(b[0]) as int;
      if r != 0 then r else Compare(a[2..], b[2..])
    else Compare(a, b)
  }

  lemma {:induction false} CompareEqual(a: string, b: string)
    ensures Compare(a, b) == 0 <==> a == b
  {
    if a != [] && b != [] && a[0] == b[0] {
      CompareEqual(a[1..], b[1..]);
      assert a == [a[0]] + a[1..] && b == [b[0]] + b[1..];
    }
  }

  lemma {:induction false} CompareFlip(a: string, b: string)
    ensures Compare(a, b) == -Compare(b, a)
  {
    if a != [] && b != [] && a[0] == b[0] {
      CompareFlip(a[1..], b[1..]);
    }
  }

  lemma {:induction false} CompareTransitive(a: string, b: string, c: string)
    requires Compare(a, b) <= 0 && Compare(b, c) <= 0
    ensures Compare(a, c) <= 0
  {
    if a != [] && b != [] && c != [] && a[0] == b[0] == c[0] {
      CompareTransitive(a[1..], b[1..], c[1..]);
    }
  }

  /** The spelling with the drive letter in upper case. */
  function Key(p: string): string {
    if OnDrive(p) then [Upper(p[0])] + p[1..] else p
  }

  predicate SameSign(x: int, y: int) {
    (x < 0 <==> y < 0) && (x == 0 <==> y == 0)
  }

  /**
   A path off the drives that falls on the same side of a drive's two spellings: it starts outside 'A'..'z', or
   it is the one borderline case at either end.
   */
  predicate Placed(p: string) {
    || OnDrive(p)
    || p == []
    || p[0] < 'A' || p[0] > 'z'
    || (p[0] == 'A' && (|p| == 1 || p[1] < ':'))
    || (p[0] == 'z' && |p| > 1 && p[1] > ':')
  }

  /** The first difference decides. */
  lemma CompareHeads(a: string, b: string)
    requires a != [] && b != []
    ensures Compare(a, b) == if a[0] != b[0] then a[0] as int - b[0] as int else Compare(a[1..], b[1..])
  {
  }

  /** Against a placed path off the drives, both spellings of a drive compare alike. */
  lemma SpellingsCompareAlike(q: string, p: string)
    requires OnDrive(q) && !OnDrive(p) && Placed(p)
    ensures SameSign(Compare(q, p), Compare(Key(q), p))
  {
    var k := Key(q);
    assert k != [] && k[0] == Upper(q[0]) && k[1..] == q[1..] && q[1..][0] == ':';
    if p != [] {
      CompareHeads(q, p);
      CompareHeads(k, p);
      if p[0] == 'A' || p[0] == 'z' {
        if |p| > 1 {
          assert p[1..][0] == p[1];
          CompareHeads(q[1..], p[1..]);
        } else {
          assert p[1..] == [];
        }
      }
    }
  }

  /** On placed paths the comparison is byte order on keys. */
  lemma ComparesKeys(a: string, b: string)
    requires Placed(a) && Placed(b)
    ensures SameSign(PathCompare(a, b), Compare(Key(a), Key(b)))
  {
    if OnDrive(a) && OnDrive(b) {
      CompareHeads(Key(a), Key(b));
      assert Key(a)[1..] == a[1..] && Key(b)[1..] == b[1..];
      CompareHeads(a[1..], b[1..]);
      assert a[1..][1..] == a[2..] && b[1..][1..] == b[2..];
    } else if OnDrive(a) {
      SpellingsCompareAlike(a, b);
    } else if OnDrive(b) {
      SpellingsCompareAlike(b, a);
      CompareFlip(a, b);
      CompareFlip(Key(a), Key(b));
    }
  }

  /** On placed paths, hence on all that start with a slash or a drive, the comparison is a total preorder. */
  lemma TotalPreorder(a: string, b: string, c: string)
    requires Placed(a) && Placed(b) && Placed(c)
    ensures PathCompare(a, a) == 0
    ensures SameSign(PathCompare(a, b), -PathCompare(b, a))
    ensures PathCompare(a, b) <= 0 && PathCompare(b, c) <= 0 ==> PathCompare(a, c) <= 0
    ensures PathCompare(a, b) == 0 <==> Key(a) == Key(b)
  {
    hide PathCompare, Compare, Key;
    ComparesKeys(a, a);
    ComparesKeys(a, b);
    ComparesKeys(b, a);
    ComparesKeys(b, c);
    ComparesKeys(a, c);
    CompareEqual(Key(a), Key(a));
    CompareEqual(Key(a), Key(b));
    CompareFlip(Key(a), Key(b));
    if Compare(Key(a), Key(b)) <= 0 && Compare(Key(b), Key(c)) <= 0 {
      CompareTransitive(Key(a), Key(b), Key(c));
    }
  }

  /** Equality means equal keys, for all paths. */
  lemma EqualIsKeys(a: string, b: string)
    ensures PathCompare(a, b) == 0 <==> Key(a) == Key(b)
  {
    hide Compare;
    if OnDrive(a) && OnDrive(b) {
      CompareEqual(a[2..], b[2..]);
      KeyOnDrive(a);
      KeyOnDrive(b);
    } else {
      CompareEqual(a, b);
      if OnDrive(a) {
        KeyOnDrive(a);
      }
      if OnDrive(b) {
        KeyOnDrive(b);
      }
    }
  }

  lemma KeyOnDrive(p: string)
    requires OnDrive(p)
    ensures Key(p) == [Upper(p[0]), ':'] + p[2..] && OnDrive(Key(p))
    ensures Key(p)[0] == Upper(p[0]) && Key(p)[2..] == p[2..]
  {
  }

  /** `p` does not tell equal drive paths apart. */
  ghost predicate Consistent(p: string) {
    forall q, q' | OnDrive(q) && OnDrive(q') && PathCompare(q, q') == 0 ::
      SameSign(PathCompare(q, p), PathCompare(q', p))
  }

  /** Two equal drive paths on either side of `p`. */
  function Low(p: string): string
    requires !Placed(p)
  {
    if p[0] == 'z' then "Z:" else if p[0] == 'A' then "A:" else if p[0] < 'a' then "A:" else "Z:"
  }

  function High(p: string): string
    requires !Placed(p)
  {
    if p[0] == 'z' then "z:" else if p[0] == 'A' then "a:" else if p[0] < 'a' then "a:" else "z:"
  }

  lemma UnplacedSeparates(p: string)
    requires !Placed(p)
    ensures OnDrive(Low(p)) && OnDrive(High(p)) && PathCompare(Low(p), High(p)) == 0
    ensures PathCompare(Low(p), p) < 0 < PathCompare(High(p), p)
  {
    var low, high := Low(p), High(p);
    CompareHeads(low, p);
    CompareHeads(high, p);
    assert low[1..] == ":" && high[1..] == ":";
    if |p| > 1 {
      assert p[1..][0] == p[1];
      CompareHeads(":", p[1..]);
      assert ":"[1..] == [];
    }
    CompareEqual(low[2..], high[2..]);
  }

  /** A path sits consistently among all drive paths if and only if it is placed. */
  lemma ConsistentIffPlaced(p: string)
    ensures Consistent(p) <==> Placed(p)
  {
    if Placed(p) {
      forall q, q' | OnDrive(q) && OnDrive(q') && PathCompare(q, q') == 0
        ensures SameSign(PathCompare(q, p), PathCompare(q', p))
      {
        TotalPreorder(q, q', p);
        ComparesKeys(q, p);
        ComparesKeys(q', p);
      }
    } else {
      UnplacedSeparates(p);
    }
  }

  // ----- When the comparison orders a set of paths -----

  /** Reversing the arguments negates the answer, for all paths. */
  lemma PathCompareFlip(a: string, b: string)
    ensures PathCompare(a, b) == -PathCompare(b, a)
  {
    hide Compare;
    CompareFlip(a, b);
    if OnDrive(a) && OnDrive(b) {
      CompareFlip(a[2..], b[2..]);
    }
  }

  /** `p` lies between two drive paths byte by byte, though `q` does not come after `q'`. */
  predicate Crosses(p: string, q: string, q': string) {
    && !OnDrive(p) && OnDrive(q) && OnDrive(q')
    && Compare(q', p) < 0 < Compare(q, p)
    && PathCompare(q, q') <= 0
  }

  /** No path off the drives lies between two drive paths that the case of their letters puts the other way. */
  ghost predicate Coherent(paths: set<string>) {
    forall p, q, q' :: p in paths && q in paths && q' in paths ==> !Crosses(p, q, q')
  }

  ghost predicate Transitive(paths: set<string>) {
    forall a, b, c :: a in paths && b in paths && c in paths && PathCompare(a, b) <= 0 && PathCompare(b, c) <= 0 ==>
      PathCompare(a, c) <= 0
  }

  lemma CoherentIsTransitive(paths: set<string>, a: string, b: string, c: string)
    requires Coherent(paths) && a in paths && b in paths && c in paths
    requires PathCompare(a, b) <= 0 && PathCompare(b, c) <= 0
    ensures PathCompare(a, c) <= 0
  {
    hide Compare, Coherent;
    if OnDrive(a) && OnDrive(b) && OnDrive(c) {
      TotalPreorder(a, b, c);
    } else if OnDrive(b) && OnDrive(c) {
      NotCrossed(paths, a, b, c);
    } else if OnDrive(a) && OnDrive(c) {
      NotCrossed(paths, b, c, a);
    } else if OnDrive(a) && OnDrive(b) {
      NotCrossed(paths, c, a, b);
    } else {
      CompareTransitive(a, b, c);
    }
  }

  /** What coherence says of one path off the drives and two on them. */
  lemma NotCrossed(paths: set<string>, p: string, q: string, q': string)
    requires Coherent(paths) && p in paths && q in paths && q' in paths
    requires !OnDrive(p) && OnDrive(q) && OnDrive(q')
    ensures PathCompare(p, q) <= 0 && PathCompare(q, q') <= 0 ==> PathCompare(p, q') <= 0
    ensures PathCompare(q', p) <= 0 && PathCompare(p, q) <= 0 ==> PathCompare(q', q) <= 0
    ensures PathCompare(q, q') <= 0 && PathCompare(q', p) <= 0 ==> PathCompare(q, p) <= 0
  {
    hide Compare;
    assert !Crosses(p, q, q');
    CompareFlip(p, q);
    CompareFlip(p, q');
    PathCompareFlip(q, q');
    CompareEqual(p, q);
    CompareEqual(p, q');
  }

  /**
   The comparison is a total preorder on a set of paths if and only if the set is coherent: it is reflexive and
   total on all paths, so only transitivity is in question.
   */
  lemma PreorderIffCoherent(paths: set<string>)
    ensures Transitive(paths) <==> Coherent(paths)
  {
    hide PathCompare, Compare;
    if Coherent(paths) {
      forall a, b, c | a in paths && b in paths && c in paths && PathCompare(a, b) <= 0 && PathCompare(b, c) <= 0
        ensures PathCompare(a, c) <= 0
      {
        CoherentIsTransitive(paths, a, b, c);
      }
    } else {
      var p, q, q' :| p in paths && q in paths && q' in paths && Crosses(p, q, q');
      CrossingBreaks(p, q, q');
    }
  }

  lemma CrossingBreaks(p: string, q: string, q': string)
    requires Crosses(p, q, q')
    ensures PathCompare(q, q') <= 0 && PathCompare(q', p) <= 0 && PathCompare(q, p) > 0
  {
    hide Compare;
  }

  /** Placed paths cross nothing. */
  lemma PlacedIsCoherent(paths: set<string>)
    requires forall p :: p in paths ==> Placed(p)
    ensures Coherent(paths)
  {
    hide PathCompare, Compare;
    forall p, q, q' | p in paths && q in paths && q' in paths ensures !Crosses(p, q, q') {
      if Crosses(p, q, q') {
        CrossingBreaks(p, q, q');
        TotalPreorder(q, q', p);
      }
    }
  }

  /** Paths that start with a slash or a drive. */
  predicate Rooted(p: string) {
    (p != [] && p[0] == '/') || OnDrive(p)
  }

  lemma RootedIsCoherent(paths: set<string>)
    requires forall p :: p in paths ==> Rooted(p)
    ensures Coherent(paths)
  {
    PlacedIsCoherent(paths);
  }

  /** Without drive paths, as on POSIX systems, relative paths do no harm. */
  lemma DrivelessIsCoherent(paths: set<string>)
    requires forall p :: p in paths ==> !OnDrive(p)
    ensures Coherent(paths)
  {
  }

  /** A relative path closes a cycle between two drive paths. */
  lemma RelativePathsBreakTheOrder()
    ensures PathCompare("c:/a", "C:/b") < 0
    ensures PathCompare("C:/b", "Zoo/x") < 0
    ensures PathCompare("Zoo/x", "c:/a") < 0
    ensures !Coherent({"c:/a", "C:/b", "Zoo/x"})
  {
    assert "c:/a"[2..] == "/a" && "C:/b"[2..] == "/b";
    assert "/a"[1..] == "a" && "/b"[1..] == "b";
    CompareHeads("/a", "/b");
    assert Crosses("Zoo/x", "c:/a", "C:/b");
  }

  // ----- The set of paths -----

  function SetOf(items: seq<string>): set<string> {
    set x | x in items
  }

  /**
   A search for `path` among `paths` can rely on their order: they are coherent, and stay so with a drive path
   looked for in another spelling.
   */
  ghost predicate Searchable(paths: set<string>, path: string) {
    Coherent(paths) && (OnDrive(path) ==> Coherent(paths + {path}))
  }

  lemma SubsetIsCoherent(paths: set<string>, more: set<string>)
    requires paths <= more && Coherent(more)
    ensures Coherent(paths)
  {
  }

  /** A path off the drives that is not coherent with the others is not among them. */
  lemma SearchableOrAbsent(items: seq<string>, path: string)
    requires Searchable(SetOf(items), path)
    ensures Coherent(SetOf(items) + {path}) || !Present(items, path)
  {
    hide PathCompare, Coherent;
    if !OnDrive(path) && Present(items, path) {
      var i :| 0 <= i < |items| && PathCompare(items[i], path) == 0;
      EqualIsKeys(items[i], path);
      OffDriveKey(items[i], path);
      assert SetOf(items) + {path} == SetOf(items);
    }
  }

  lemma OffDriveKey(a: string, p: string)
    requires !OnDrive(p) && Key(a) == Key(p)
    ensures a == p
  {
    if OnDrive(a) {
      KeyOnDrive(a);
    }
  }

  /** The halving search between two positions. */
  predicate Search(items: seq<string>, path: string, lo: nat, hi: nat)
    requires lo <= hi <= |items|
    decreases hi - lo
  {
    if lo == hi then
      false
    else
      var mid := lo + (hi - lo) / 2;
      var c := PathCompare(items[mid], path);
      c == 0 || (if c < 0 then Search(items, path, mid + 1, hi) else Search(items, path, lo, mid))
  }

  /** Only an equal path is found. */
  lemma {:induction false} SearchIsSound(items: seq<string>, path: string, lo: nat, hi: nat)
    requires lo <= hi <= |items|
    ensures Search(items, path, lo, hi) ==> Present(items, path)
    decreases hi - lo
  {
    hide PathCompare;
    if lo < hi {
      var mid := lo + (hi - lo) / 2;
      SearchIsSound(items, path, mid + 1, hi);
      SearchIsSound(items, path, lo, mid);
    }
  }

  /** Where the comparison orders the items and the path, an equal path between the positions is found. */
  lemma {:induction false} SearchIsComplete(items: seq<string>, path: string, lo: nat, hi: nat, k: nat)
    requires Sorted(items) && Coherent(SetOf(items) + {path})
    requires lo <= k < hi <= |items| && PathCompare(items[k], path) == 0
    ensures Search(items, path, lo, hi)
    decreases hi - lo
  {
    hide PathCompare, Coherent, Sorted;
    var mid := lo + (hi - lo) / 2;
    SortedSides(items, mid, path);
    if PathCompare(items[mid], path) < 0 {
      SearchIsComplete(items, path, mid + 1, hi, k);
    } else if PathCompare(items[mid], path) > 0 {
      SearchIsComplete(items, path, lo, mid, k);
    }
  }

  lemma SearchDecides(items: seq<string>, path: string)
    requires Sorted(items) && Searchable(SetOf(items), path)
    ensures Search(items, path, 0, |items|) == Present(items, path)
  {
    hide PathCompare, Coherent, Sorted, Searchable;
    SearchIsSound(items, path, 0, |items|);
    if Present(items, path) {
      SearchableOrAbsent(items, path);
      var k :| 0 <= k < |items| && PathCompare(items[k], path) == 0;
      SearchIsComplete(items, path, 0, |items|, k);
    }
  }

  /** A sorted, coherent set in which the search misses an equal path: the other spelling is not coherent with it. */
  lemma OtherSpellingIsMissed()
    ensures var items := ["X/", "Y/", "c:/"];
            && Sorted(items) && Coherent(SetOf(items)) && Present(items, "C:/")
            && !Search(items, "C:/", 0, 3)
            && !Searchable(SetOf(items), "C:/")
  {
    var items := ["X/", "Y/", "c:/"];
    assert PathCompare(items[0], items[1]) < 0 && PathCompare(items[1], items[2]) < 0;
    assert "c:/"[2..] == "C:/"[2..];
    CompareEqual("c:/"[2..], "C:/"[2..]);
    assert PathCompare(items[2], "C:/") == 0;
    assert Crosses("X/", "c:/", "C:/");
    assert PathCompare(items[1], "C:/") > 0 && PathCompare(items[0], "C:/") > 0;
    assert !Search(items, "C:/", 0, 0);
    assert !Search(items, "C:/", 0, 1);
    OneDriveIsCoherent(SetOf(items), "c:/");
  }

  /** A single drive path is crossed by nothing. */
  lemma OneDriveIsCoherent(paths: set<string>, drive: string)
    requires forall p :: p in paths && OnDrive(p) ==> p == drive
    ensures Coherent(paths)
  {
    hide PathCompare, Compare;
  }

  /** Neighbours are in order, which is what a sort by the comparison leaves. */
  ghost predicate Sorted(items: seq<string>) {
    forall i :: 0 < i < |items| ==> PathCompare(items[i - 1], items[i]) <= 0
  }

  /** Some item equals the path. */
  predicate Present(items: seq<string>, path: string) {
    exists i :: 0 <= i < |items| && PathCompare(items[i], path) == 0
  }

  lemma {:induction false} SortedPairs(items: seq<string>, i: nat, j: nat)
    requires Coherent(SetOf(items)) && Sorted(items) && i <= j < |items|
    ensures PathCompare(items[i], items[j]) <= 0
    decreases j - i
  {
    hide PathCompare, Coherent;
    if i == j {
      EqualIsKeys(items[i], items[i]);
    } else {
      SortedPairs(items, i, j - 1);
      assert PathCompare(items[j - 1], items[j]) <= 0;
      CoherentIsTransitive(SetOf(items), items[i], items[j - 1], items[j]);
    }
  }

  /** Everything up to an item below the path is below it; everything from an item above it on is above it. */
  lemma SortedSides(items: seq<string>, mid: nat, path: string)
    requires Coherent(SetOf(items) + {path}) && Sorted(items) && mid < |items|
    ensures PathCompare(items[mid], path) < 0 ==>
              forall i :: 0 <= i <= mid ==> PathCompare(items[i], path) < 0
    ensures PathCompare(items[mid], path) > 0 ==>
              forall i :: mid <= i < |items| ==> PathCompare(items[i], path) > 0
    ensures PathCompare(items[mid], path) >= 0 ==>
              forall i :: mid <= i < |items| ==> PathCompare(items[i], path) >= 0
  {
    hide PathCompare, Coherent;
    var all := SetOf(items) + {path};
    SubsetIsCoherent(SetOf(items), all);
    forall i | 0 <= i <= mid
      ensures PathCompare(items[mid], path) < 0 ==> PathCompare(items[i], path) < 0
    {
      SortedPairs(items, i, mid);
      Below(all, items[i], items[mid], path);
    }
    forall i | mid <= i < |items|
      ensures PathCompare(items[mid], path) > 0 ==> PathCompare(items[i], path) > 0
      ensures PathCompare(items[mid], path) >= 0 ==> PathCompare(items[i], path) >= 0
    {
      SortedPairs(items, mid, i);
      Below(all, items[mid], items[i], path);
    }
  }

  lemma Below(paths: set<string>, a: string, b: string, path: string)
    requires Coherent(paths) && a in paths && b in paths && path in paths && PathCompare(a, b) <= 0
    ensures PathCompare(b, path) < 0 ==> PathCompare(a, path) < 0
    ensures PathCompare(b, path) <= 0 ==> PathCompare(a, path) <= 0
  {
    hide PathCompare, Coherent;
    PathCompareFlip(a, path);
    PathCompareFlip(b, path);
    if PathCompare(b, path) <= 0 {
      CoherentIsTransitive(paths, a, b, path);
    }
    if PathCompare(path, a) <= 0 {
      CoherentIsTransitive(paths, path, a, b);
    }
  }

  class PathSet {
    var items: seq<string>

    constructor ()
      ensures items == []
    {
      items := [];
    }

    /** Append the path unless an equal one is there. */
    method Add(path: string)
      modifies this
      ensures items == if Present(old(items), path) then old(items) else old(items) + [path]
    {
      var i := 0;
      while i < |items|
        invariant 0 <= i <= |items| && items == old(items)
        invariant forall k :: 0 <= k < i ==> PathCompare(items[k], path) != 0
      {
        if PathCompare(items[i], path) == 0 {
          return;
        }
        i := i + 1;
      }
      items := items + [path];
    }

    /** Take the order that the library sort produced. */
    method Finish(order: seq<string>)
      requires multiset(order) == multiset(items)
      requires Coherent(SetOf(items)) ==> Sorted(order)
      modifies this
      ensures items == order && (Coherent(SetOf(old(items))) ==> Sorted(items))
    {
      items := order;
    }

    /** Binary search: never a false yes, and exact whenever the comparison orders the items and the path. */
    method Contains(path: string) returns (r: bool)
      ensures r == Search(items, path, 0, |items|)
      ensures r ==> Present(items, path)
      ensures Sorted(items) && Searchable(SetOf(items), path) ==> r == Present(items, path)
    {
      hide PathCompare, Coherent, Searchable, Sorted;
      var lo, hi := 0, |items|;
      while lo < hi
        invariant 0 <= lo <= hi <= |items|
        invariant Search(items, path, lo, hi) == Search(items, path, 0, |items|)
      {
        var mid := lo + (hi - lo) / 2;
        var c := PathCompare(items[mid], path);
        if c == 0 {
          break;
        }
        if c < 0 {
          lo := mid + 1;
        } else {
          hi := mid;
        }
      }
      r := lo < hi;
      SearchIsSound(items, path, 0, |items|);
      if Sorted(items) && Searchable(SetOf(items), path) {
        SearchDecides(items, path);
      }
    }
  }

  // ----- The index -----

  datatype Record = Record(path: string, pid: int, time: real)

  /** Path first, then time. */
  function RecordCompare(a: Record, b: Record): int {
    var r := PathCompare(a.path, b.path);
    if r != 0 then r else if a.time < b.time then -1 else if a.time > b.time then 1 else 0
  }

  function Paths(records: seq<Record>): (paths: seq<string>)
    ensures |paths| == |records|
    ensures forall i :: 0 <= i < |records| ==> paths[i] == records[i].path
  {
    seq(|records|, i requires 0 <= i < |records| => records[i].path)
  }

  ghost predicate SortedRecords(records: seq<Record>) {
    forall i :: 0 < i < |records| ==> RecordCompare(records[i - 1], records[i]) <= 0
  }

  lemma SortedByPath(records: seq<Record>)
    requires SortedRecords(records)
    ensures Sorted(Paths(records))
  {
    forall i | 0 < i < |records|
      ensures PathCompare(Paths(records)[i - 1], Paths(records)[i]) <= 0
    {
      assert RecordCompare(records[i - 1], records[i]) <= 0;
    }
  }

  /** The set holds exactly the paths of the records, up to equality, each once. */
  ghost predicate Agree(items: seq<string>, records: seq<Record>) {
    && (forall i :: 0 <= i < |records| ==> Present(items, records[i].path))
    && (forall i :: 0 <= i < |items| ==> items[i] in Paths(records))
    && (forall i, j :: 0 <= i < j < |items| ==> PathCompare(items[i], items[j]) != 0)
  }

  lemma AddAgrees(items: seq<string>, records: seq<Record>, r: Record)
    requires Agree(items, records)
    ensures Agree(if Present(items, r.path) then items else items + [r.path], records + [r])
  {
    hide PathCompare, Present;
    var items' := if Present(items, r.path) then items else items + [r.path];
    var all := records + [r];
    forall i | 0 <= i < |all| ensures Present(items', all[i].path) {
      if i < |records| {
        assert Present(items, records[i].path);
        PresentGrows(items, records[i].path, r.path);
      } else {
        AddedIsPresent(items, r.path);
      }
    }
    forall i | 0 <= i < |items'| ensures items'[i] in Paths(all) {
      if i < |items| {
        var k :| 0 <= k < |Paths(records)| && Paths(records)[k] == items[i];
        assert Paths(all)[k] == items[i];
      } else {
        assert Paths(all)[|records|] == r.path;
      }
    }
    AbsentIsDistinct(items, r.path);
  }

  lemma PresentGrows(items: seq<string>, path: string, more: string)
    requires Present(items, path)
    ensures Present(items + [more], path)
  {
    hide PathCompare;
    var k :| 0 <= k < |items| && PathCompare(items[k], path) == 0;
    assert (items + [more])[k] == items[k];
  }

  lemma AddedIsPresent(items: seq<string>, path: string)
    ensures Present(items + [path], path)
  {
    hide PathCompare;
    EqualIsKeys(path, path);
    assert (items + [path])[|items|] == path;
  }

  lemma AbsentIsDistinct(items: seq<string>, path: string)
    ensures !Present(items, path) ==> forall i :: 0 <= i < |items| ==> PathCompare(items[i], path) != 0
  {
    hide PathCompare;
  }

  /** Reordering either side keeps the agreement. */
  lemma ReorderAgrees(items: seq<string>, order: seq<string>, records: seq<Record>, order': seq<Record>)
    requires Agree(items, records)
    requires multiset(order) == multiset(items) && multiset(order') == multiset(records)
    ensures Agree(order, order')
  {
    hide PathCompare, Present;
    forall i | 0 <= i < |order'| ensures Present(order, order'[i].path) {
      assert order'[i] in multiset(records);
      var k :| 0 <= k < |records| && records[k] == order'[i];
      PresentReordered(items, order, records[k].path);
    }
    PathsReordered(records, order');
    forall i | 0 <= i < |order| ensures order[i] in Paths(order') {
      assert order[i] in multiset(items);
    }
    DistinctReordered(items, order);
  }

  lemma PresentReordered(items: seq<string>, order: seq<string>, path: string)
    requires Present(items, path) && multiset(order) == multiset(items)
    ensures Present(order, path)
  {
    hide PathCompare;
    var j :| 0 <= j < |items| && PathCompare(items[j], path) == 0;
    assert items[j] in multiset(order);
  }

  lemma PathsReordered(records: seq<Record>, order: seq<Record>)
    requires multiset(order) == multiset(records)
    ensures forall p :: p in Paths(records) ==> p in Paths(order)
  {
    forall p | p in Paths(records) ensures p in Paths(order) {
      var j :| 0 <= j < |Paths(records)| && Paths(records)[j] == p;
      assert records[j] in multiset(order);
      var m :| 0 <= m < |order| && order[m] == records[j];
      assert Paths(order)[m] == p;
    }
  }

  lemma DistinctReordered(items: seq<string>, order: seq<string>)
    requires multiset(order) == multiset(items)
    requires forall i, j :: 0 <= i < j < |items| ==> PathCompare(items[i], items[j]) != 0
    ensures forall i, j :: 0 <= i < j < |order| ==> PathCompare(order[i], order[j]) != 0
  {
    hide PathCompare, Key;
    forall i, j | 0 <= i < j < |order| ensures PathCompare(order[i], order[j]) != 0 {
      assert order[i] in multiset(items) && order[j] in multiset(items);
      var k :| 0 <= k < |items| && items[k] == order[i];
      var m :| 0 <= m < |items| && items[m] == order[j];
      EqualIsKeys(items[k], items[m]);
      EqualIsKeys(items[m], items[k]);
      if k == m {
        Twice(order, i, j);
        Once(items, k);
      } else if k < m {
        assert PathCompare(items[k], items[m]) != 0;
      } else {
        assert PathCompare(items[m], items[k]) != 0;
      }
    }
  }

  lemma Twice(s: seq<string>, i: nat, j: nat)
    requires i < j < |s| && s[i] == s[j]
    ensures multiset(s)[s[i]] >= 2
  {
    assert s == s[..j] + [s[j]] + s[j + 1..];
    assert s[..j][i] == s[j];
    assert s[j] in multiset(s[..j]);
  }

  lemma Once(items: seq<string>, k: nat)
    requires k < |items|
    requires forall i, j :: 0 <= i < j < |items| ==> PathCompare(items[i], items[j]) != 0
    ensures multiset(items)[items[k]] == 1
  {
    hide PathCompare, Key;
    var x := items[k];
    var a, b := items[..k], items[k + 1..];
    assert items == a + [x] + b;
    EqualIsKeys(x, x);
    forall i | 0 <= i < |a| ensures a[i] != x {
      assert PathCompare(items[i], items[k]) != 0;
    }
    forall i | 0 <= i < |b| ensures b[i] != x {
      assert PathCompare(items[k], items[k + 1 + i]) != 0;
    }
    assert x !in multiset(a) && x !in multiset(b);
  }

  // ----- Covered -----

  /** A record without a process, or an event without one, matches any. */
  predicate PidCovers(recordPid: int, pid: int) {
    recordPid == 0 || pid == 0 || recordPid == pid
  }

  predicate Within(time: real, t: real, window: real) {
    -window <= time - t <= window
  }

  /** The record covers an event on this path: covering process, and in the window when one is set. */
  predicate RecordCovers(r: Record, path: string, pid: int, t: real, window: real) {
    PathCompare(r.path, path) == 0 && PidCovers(r.pid, pid) && (window > 0.0 ==> Within(r.time, t, window))
  }

  /** Some record covers it. */
  predicate Covered(records: seq<Record>, path: string, pid: int, t: real, window: real) {
    exists i :: 0 <= i < |records| && RecordCovers(records[i], path, pid, t, window)
  }

  class Index {
    var records: seq<Record>
    const seen: PathSet

    /** The set agrees with the records. */
    ghost predicate Valid()
      reads this, seen
    {
      Agree(seen.items, records)
    }

    /** Both sorted, which the library sort achieves when the comparison orders the paths. */
    ghost predicate Finished()
      reads this, seen
    {
      Valid() && SortedRecords(records) && Sorted(seen.items)
    }

    constructor ()
      ensures Valid() && records == [] && fresh(seen)
    {
      records := [];
      seen := new PathSet();
    }

    method AddRecord(path: string, pid: int, time: real)
      requires Valid()
      modifies this, seen
      ensures Valid() && records == old(records) + [Record(path, pid, time)]
    {
      hide Agree;
      AddAgrees(seen.items, records, Record(path, pid, time));
      records := records + [Record(path, pid, time)];
      seen.Add(path);
    }

    /** Take the orders that the library sorts produced. */
    method Finish(order: seq<Record>, paths: seq<string>)
      requires Valid()
      requires multiset(order) == multiset(records) && multiset(paths) == multiset(seen.items)
      requires Coherent(SetOf(Paths(records))) ==> SortedRecords(order)
      requires Coherent(SetOf(seen.items)) ==> Sorted(paths)
      modifies this, seen
      ensures Valid() && records == order && multiset(records) == multiset(old(records))
      ensures Coherent(SetOf(Paths(old(records)))) ==> Finished()
    {
      hide Coherent, Sorted, SortedRecords, Agree;
      ReorderAgrees(seen.items, paths, records, order);
      if Coherent(SetOf(Paths(records))) {
        ItemsAreRecorded(seen.items, records);
        SubsetIsCoherent(SetOf(seen.items), SetOf(Paths(records)));
      }
      records := order;
      seen.Finish(paths);
    }

    /**
     The fast reject, the binary search for the first equal path and the scan: never a false yes, and they decide the
     existential whenever the comparison orders the records and the path.
     */
    method IsCovered(path: string, pid: int, t: real, window: real) returns (r: bool)
      requires Valid()
      ensures r ==> Covered(records, path, pid, t, window)
      ensures Finished() && Searchable(SetOf(Paths(records)), path) ==> r == Covered(records, path, pid, t, window)
    {
      hide PathCompare, Within, Agree, Sorted, SortedRecords, Coherent, PidCovers, Searchable;
      ghost var ordered := Finished() && Searchable(SetOf(Paths(records)), path);
      if ordered {
        ItemsSearchable(seen.items, records, path);
      }
      var known := seen.Contains(path);
      if !known {
        if ordered {
          RejectIsRight(seen.items, records, path);
        }
        return false;
      }
      if ordered {
        KnownIsOrdered(seen.items, records, path);
      }
      var lo := LowerBound(path, ordered);
      r := ScanEqual(lo, path, pid, t, window, ordered);
    }

    method ScanEqual(first: nat, path: string, pid: int, t: real, window: real, ghost ordered: bool) returns (r: bool)
      requires first <= |records|
      requires ordered ==> Finished() && Coherent(SetOf(Paths(records)) + {path})
      requires ordered ==> forall i :: 0 <= i < first ==> PathCompare(records[i].path, path) < 0
      requires ordered ==> forall i :: first <= i < |records| ==> PathCompare(records[i].path, path) >= 0
      ensures r ==> Covered(records, path, pid, t, window)
      ensures ordered ==> r == Covered(records, path, pid, t, window)
    {
      hide PathCompare, Within, Agree, Sorted, SortedRecords, Coherent, PidCovers;
      var lo := first;
      while lo < |records|
        invariant first <= lo <= |records|
        invariant ordered ==> forall i :: 0 <= i < lo ==> !RecordCovers(records[i], path, pid, t, window)
      {
        var rec := records[lo];
        if PathCompare(rec.path, path) != 0 {
          if ordered {
            StopIsRight(records, lo, path);
          }
          return false;
        }
        var hit := InReach(rec, pid, t, window);
        if hit {
          assert RecordCovers(records[lo], path, pid, t, window);
          return true;
        }
        lo := lo + 1;
      }
      r := false;
    }

    static method InReach(rec: Record, pid: int, t: real, window: real) returns (r: bool)
      ensures r == (PidCovers(rec.pid, pid) && (window > 0.0 ==> Within(rec.time, t, window)))
    {
      if !PidCovers(rec.pid, pid) {
        return false;
      }
      if window > 0.0 {
        var d := rec.time - t;
        if d < 0.0 {
          d := -d;
        }
        return d <= window;
      }
      r := true;
    }

    method LowerBound(path: string, ghost ordered: bool) returns (lo: nat)
      requires ordered ==> Finished() && Coherent(SetOf(Paths(records)) + {path})
      ensures lo <= |records|
      ensures ordered ==> forall i :: 0 <= i < lo ==> PathCompare(records[i].path, path) < 0
      ensures ordered ==> forall i :: lo <= i < |records| ==> PathCompare(records[i].path, path) >= 0
    {
      hide PathCompare, Coherent, Sorted, SortedRecords, Agree;
      lo := 0;
      var hi := |records|;
      while lo < hi
        invariant 0 <= lo <= hi <= |records|
        invariant ordered ==> forall i :: 0 <= i < lo ==> PathCompare(records[i].path, path) < 0
        invariant ordered ==> forall i :: hi <= i < |records| ==> PathCompare(records[i].path, path) >= 0
      {
        var mid := lo + (hi - lo) / 2;
        if ordered {
          RecordSides(records, mid, path);
        }
        if PathCompare(records[mid].path, path) < 0 {
          lo := mid + 1;
        } else {
          hi := mid;
        }
      }
    }
  }

  /** In sorted records all before a smaller path are smaller, and none from one that is not smaller on. */
  lemma RecordSides(records: seq<Record>, mid: nat, path: string)
    requires SortedRecords(records) && Coherent(SetOf(Paths(records)) + {path}) && mid < |records|
    ensures PathCompare(records[mid].path, path) < 0 ==>
              forall i :: 0 <= i <= mid ==> PathCompare(records[i].path, path) < 0
    ensures PathCompare(records[mid].path, path) >= 0 ==>
              forall i :: mid <= i < |records| ==> PathCompare(records[i].path, path) >= 0
  {
    hide PathCompare, Coherent, Sorted, SortedRecords;
    SortedByPath(records);
    SortedSides(Paths(records), mid, path);
    assert forall i :: 0 <= i < |records| ==> Paths(records)[i] == records[i].path;
  }

  lemma ItemsAreRecorded(items: seq<string>, records: seq<Record>)
    requires Agree(items, records)
    ensures SetOf(items) <= SetOf(Paths(records))
  {
    hide PathCompare;
  }

  lemma ItemsSearchable(items: seq<string>, records: seq<Record>, path: string)
    requires Agree(items, records) && Searchable(SetOf(Paths(records)), path)
    ensures Searchable(SetOf(items), path)
  {
    hide Agree, Coherent;
    var all := SetOf(Paths(records));
    ItemsAreRecorded(items, records);
    SubsetIsCoherent(SetOf(items), all);
    if OnDrive(path) {
      SubsetIsCoherent(SetOf(items) + {path}, all + {path});
    }
  }

  /** A path that is known is coherent with the records. */
  lemma KnownIsOrdered(items: seq<string>, records: seq<Record>, path: string)
    requires Agree(items, records) && Searchable(SetOf(Paths(records)), path) && Present(items, path)
    ensures Coherent(SetOf(Paths(records)) + {path})
  {
    hide PathCompare, Coherent, Agree;
    ItemsAreRecorded(items, records);
    if !OnDrive(path) {
      var i :| 0 <= i < |items| && PathCompare(items[i], path) == 0;
      EqualIsKeys(items[i], path);
      OffDriveKey(items[i], path);
      assert path in SetOf(items);
      assert SetOf(Paths(records)) + {path} == SetOf(Paths(records));
    }
  }

  /** No record has a path the set does not hold. */
  lemma RejectIsRight(items: seq<string>, records: seq<Record>, path: string)
    requires Agree(items, records) && !Present(items, path)
    ensures forall i :: 0 <= i < |records| ==> PathCompare(records[i].path, path) != 0
  {
    hide PathCompare, Key;
    forall i | 0 <= i < |records| ensures PathCompare(records[i].path, path) != 0 {
      assert Present(items, records[i].path);
      var k :| 0 <= k < |items| && PathCompare(items[k], records[i].path) == 0;
      EqualIsKeys(items[k], records[i].path);
      EqualIsKeys(records[i].path, path);
      EqualIsKeys(items[k], path);
    }
  }

  /** Past the first greater path there is no equal one. */
  lemma StopIsRight(records: seq<Record>, lo: nat, path: string)
    requires SortedRecords(records) && Coherent(SetOf(Paths(records)) + {path})
    requires lo < |records| && PathCompare(records[lo].path, path) > 0
    ensures forall i :: lo <= i < |records| ==> PathCompare(records[i].path, path) > 0
  {
    hide PathCompare, Coherent, Sorted, SortedRecords;
    SortedByPath(records);
    SortedSides(Paths(records), lo, path);
    forall i | lo <= i < |records| ensures PathCompare(records[i].path, path) > 0 {
      assert PathCompare(Paths(records)[i], path) > 0;
    }
  }

  /** What is covered does not depend on the order of the records. */
  lemma CoverageIgnoresOrder(a: seq<Record>, b: seq<Record>, path: string, pid: int, t: real, window: real)
    requires multiset(a) == multiset(b)
    ensures Covered(a, path, pid, t, window) == Covered(b, path, pid, t, window)
  {
    hide RecordCovers;
    if Covered(a, path, pid, t, window) {
      var i :| 0 <= i < |a| && RecordCovers(a[i], path, pid, t, window);
      assert a[i] in multiset(b);
    }
    if Covered(b, path, pid, t, window) {
      var i :| 0 <= i < |b| && RecordCovers(b[i], path, pid, t, window);
      assert b[i] in multiset(a);
    }
  }

  // ----- In plain terms -----

  /** The same letter of the alphabet, in either case. */
  ghost predicate SameLetter(a: char, b: char) {
    exists i: nat :: i < 26 && a in AlphabetAt(i) && b in AlphabetAt(i)
  }

  function AlphabetAt(i: nat): string
    requires i < 26
  {
    ["abcdefghijklmnopqrstuvwxyz"[i], "ABCDEFGHIJKLMNOPQRSTUVWXYZ"[i]]
  }

  /** Equal byte by byte, or up to the case of a drive letter. */
  ghost predicate SamePath(a: string, b: string) {
    || a == b
    || (|a| >= 2 && |b| >= 2 && a[1] == ':' && b[1] == ':' && SameLetter(a[0], b[0]) && a[2..] == b[2..])
  }

  lemma AlphabetIs(i: nat)
    requires i < 26
    ensures AlphabetAt(i) == [('a' as int + i) as char, ('A' as int + i) as char]
  {
  }

  lemma UpperIsLetter(a: char, b: char)
    requires IsLetter(a) && IsLetter(b)
    ensures Upper(a) == Upper(b) <==> SameLetter(a, b)
  {
    hide AlphabetAt;
    forall i: nat | i < 26 ensures AlphabetAt(i) == [('a' as int + i) as char, ('A' as int + i) as char] {
      AlphabetIs(i);
    }
    var i := Upper(a) as int - 'A' as int;
    assert a in AlphabetAt(i);
    if Upper(a) == Upper(b) {
      assert b in AlphabetAt(i);
    }
  }

  lemma SameLettersAreLetters(a: char, b: char)
    requires SameLetter(a, b)
    ensures IsLetter(a) && IsLetter(b)
  {
    var i: nat :| i < 26 && a in AlphabetAt(i) && b in AlphabetAt(i);
    AlphabetIs(i);
  }

  lemma EqualIsSame(a: string, b: string)
    ensures PathCompare(a, b) == 0 <==> SamePath(a, b)
  {
    hide Compare, SameLetter, Upper;
    CompareEqual(a, b);
    if OnDrive(a) && OnDrive(b) {
      CompareEqual(a[2..], b[2..]);
      UpperIsLetter(a[0], b[0]);
    } else if |a| >= 2 && |b| >= 2 && SameLetter(a[0], b[0]) {
      SameLettersAreLetters(a[0], b[0]);
    }
  }

  /**
   An event is covered when some record has the same path, names the same process or either names none, and, with a
   window, lies within it.
   */
  lemma CoveredMeans(records: seq<Record>, path: string, pid: int, t: real, window: real)
    ensures Covered(records, path, pid, t, window) <==>
            exists r :: && r in records && SamePath(r.path, path)
                        && (r.pid == pid || r.pid == 0 || pid == 0)
                        && (window <= 0.0 || t - window <= r.time <= t + window)
  {
    hide PathCompare, SamePath;
    forall r: Record ensures PathCompare(r.path, path) == 0 <==> SamePath(r.path, path) {
      EqualIsSame(r.path, path);
    }
    if i :| 0 <= i < |records| && RecordCovers(records[i], path, pid, t, window) {
      assert records[i] in records;
    }
    if r :| && r in records && SamePath(r.path, path)
            && (r.pid == pid || r.pid == 0 || pid == 0)
            && (window <= 0.0 || t - window <= r.time <= t + window) {
      var i :| 0 <= i < |records| && records[i] == r;
      assert RecordCovers(records[i], path, pid, t, window);
    }
  }
}
