/**
 The glob of the filter expression language: `*`, `?`, `[...]` with negation and ranges,
 and `\` escapes, matched iteratively with one remembered star.
 */
module FilterGlob {
  import opened Common
  import opened GlobTheory

  // ----- The pattern language -----

  /** The ranges of a class body from `q` up to the closing bracket, and where that bracket is (or the end). */
  function ParseRanges(p: string, q: nat): (r: (seq<(char, char)>, nat))
    requires q <= |p|
    ensures q <= r.1 <= |p|
    ensures r.1 < |p| ==> p[r.1] == ']'
    decreases |p| - q
  {
    if q == |p| || p[q] == ']' then
      ([], q)
    else if q + 2 < |p| && p[q + 1] == '-' && p[q + 2] != ']' then
      var (ranges, end) := ParseRanges(p, q + 3);
      ([(p[q], p[q + 2])] + ranges, end)
    else
      var (ranges, end) := ParseRanges(p, q + 1);
      ([(p[q], p[q])] + ranges, end)
  }

  predicate Negated(p: string, q: nat) {
    At(p, q) == '!' || At(p, q) == '^'
  }

  /** Where the class opened at `pos` starts listing its ranges, and the range a leading `]` stands for. */
  function ClassHead(p: string, pos: nat): (r: (seq<(char, char)>, nat))
    requires pos < |p|
    ensures pos < r.1 <= |p|
  {
    var q := if Negated(p, pos + 1) then pos + 2 else pos + 1;
    if At(p, q) == ']' then ([(']', ']')], q + 1) else ([], q)
  }

  /** The item that starts at `pos`, and where the next one starts. An unterminated class is a literal `[`. */
  function ItemAt(p: string, pos: nat): (r: (Item, nat))
    requires pos < |p|
    ensures pos < r.1 <= |p|
  {
    if p[pos] == '?' then
      (One, pos + 1)
    else if p[pos] == '\\' && pos + 1 < |p| then
      (Lit(p[pos + 1]), pos + 2)
    else if p[pos] == '[' then
      var (first, q) := ClassHead(p, pos);
      var (ranges, end) := ParseRanges(p, q);
      if end < |p| then (Class(Negated(p, pos + 1), first + ranges), end + 1) else (Lit('['), pos + 1)
    else if p[pos] == '*' then
      (Run, pos + 1)
    else
      (Lit(p[pos]), pos + 1)
  }

  function Items(p: string, pos: nat): (items: seq<Item>)
    requires pos <= |p|
    ensures items == [] <==> pos == |p|
    decreases |p| - pos
  {
    if pos == |p| then [] else var (item, next) := ItemAt(p, pos); [item] + Items(p, next)
  }

  /** The texts a pattern denotes, in the ordinary reading. */
  predicate Denotes(pattern: string, text: string) {
    Matches(false, Items(pattern, 0), 0, text, 0)
  }

  // ----- The matcher -----

  lemma InRangesCons(r: (char, char), ranges: seq<(char, char)>, c: char)
    ensures InRanges([r] + ranges, c) <==> (r.0 <= c <= r.1 || InRanges(ranges, c))
  {
    if r.0 <= c <= r.1 {
      assert ([r] + ranges)[0] == r;
    }
    if InRanges(ranges, c) {
      var i :| 0 <= i < |ranges| && ranges[i].0 <= c <= ranges[i].1;
      assert ([r] + ranges)[i + 1] == ranges[i];
    }
    if InRanges([r] + ranges, c) {
      var i :| 0 <= i < |[r] + ranges| && ([r] + ranges)[i].0 <= c <= ([r] + ranges)[i].1;
      if i > 0 {
        assert ranges[i - 1] == ([r] + ranges)[i];
      }
    }
  }

  /** The loop over the ranges of a class body. */
  method ScanRanges(p: string, start: nat, c: char) returns (matched: bool, end: nat)
    requires IsCString(p) && start <= |p|
    ensures end == ParseRanges(p, start).1
    ensures matched == InRanges(ParseRanges(p, start).0, c)
  {
    hide InRanges;
    var q := start;
    matched := false;
    while At(p, q) != ']' && At(p, q) != '\0'
      invariant start <= q <= |p|
      invariant ParseRanges(p, q).1 == ParseRanges(p, start).1
      invariant InRanges(ParseRanges(p, start).0, c) == (matched || InRanges(ParseRanges(p, q).0, c))
      decreases |p| - q
    {
      if At(p, q + 1) == '-' && At(p, q + 2) != ']' && At(p, q + 2) != '\0' {
        InRangesCons((p[q], p[q + 2]), ParseRanges(p, q + 3).0, c);
        if p[q] <= c <= p[q + 2] {
          matched := true;
        }
        q := q + 3;
      } else {
        InRangesCons((p[q], p[q]), ParseRanges(p, q + 1).0, c);
        if c == p[q] {
          matched := true;
        }
        q := q + 1;
      }
    }
    NoRanges(c);
    end := q;
  }

  lemma NoRanges(c: char)
    ensures !InRanges([], c)
  {
  }

  /** The `[` branch: does the class opened at `pos` take `c`, and where does it close? */
  method ScanClass(p: string, pos: nat, c: char) returns (accepted: bool, end: nat)
    requires IsCString(p)
    requires pos < |p| && p[pos] == '['
    ensures end == |p| ==> ItemAt(p, pos) == (Lit('['), pos + 1)
    ensures end != |p| ==>
              && end < |p|
              && ItemAt(p, pos).1 == end + 1
              && ItemAt(p, pos).0.Class?
              && accepted == Accepts(ItemAt(p, pos).0, c)
  {
    hide ParseRanges, InRanges;
    var q := pos + 1;
    var negate := false;
    var first := false;
    if At(p, q) == '!' || At(p, q) == '^' {
      negate := true;
      q := q + 1;
    }
    if At(p, q) == ']' {
      first := c == ']';
      q := q + 1;
    }
    var matched, close := ScanRanges(p, q, c);
    ghost var ranges := ParseRanges(p, q).0;
    InRangesCons((']', ']'), ranges, c);
    assert [] + ranges == ranges;
    return (first || matched) != negate, close;
  }

  /** What the pattern at `p` does with one character of the text. */
  datatype Move = Take(next: nat) | Remember | Refuse

  /** The branches of the matching loop, short of what to do on a refusal. */
  method Step(pat: string, p: nat, c: char) returns (m: Move)
    requires IsCString(pat) && p <= |pat| && c != '\0'
    ensures m.Take? ==> p < |pat| && Fits(true, ItemAt(pat, p).0, c) && m.next == ItemAt(pat, p).1
    ensures m.Remember? ==> p < |pat| && pat[p] == '*' && c != '*'
    ensures m.Refuse? && p < |pat| ==> !ItemAt(pat, p).0.Run? && !Accepts(ItemAt(pat, p).0, c)
  {
    if At(pat, p) == '?' {
      return Take(p + 1);
    } else if At(pat, p) == '\\' && At(pat, p + 1) != '\0' {
      return if c == pat[p + 1] then Take(p + 2) else Refuse;
    } else if At(pat, p) == '[' {
      var accepted, end := ScanClass(pat, p, c);
      if end == |pat| {
        return if c == '[' then Take(p + 1) else Refuse;
      }
      return if accepted then Take(end + 1) else Refuse;
    } else if At(pat, p) == c {
      return Take(p + 1);
    } else if At(pat, p) == '*' {
      return Remember;
    }
    return Refuse;
  }

  /** The item at `pos` begins the items from `pos` on. */
  lemma ItemsStep(p: string, pos: nat, items: seq<Item>, i: nat)
    requires pos < |p| && i <= |items| && Items(p, pos) == items[i..]
    ensures i < |items|
    ensures items[i] == ItemAt(p, pos).0
    ensures Items(p, ItemAt(p, pos).1) == items[i + 1..]
  {
    var (item, next) := ItemAt(p, pos);
    assert Items(p, pos) == [item] + Items(p, next);
    assert items[i..][0] == item;
    assert items[i..][1..] == items[i + 1..];
  }

  /** A state of the matching loop: positions in pattern and text, the remembered star, and their item indices. */
  datatype Scan = Scan(p: nat, t: nat, i: nat, starP: Option<nat>, starT: nat, star: nat)

  ghost predicate Placed(pat: string, items: seq<Item>, p: nat, i: nat) {
    p <= |pat| && i <= |items| && Items(pat, p) == items[i..]
  }

  /** Where the scan is, and that everything since the remembered star was taken character by character. */
  ghost predicate InPlace(pat: string, txt: string, items: seq<Item>, s: Scan) {
    && Placed(pat, items, s.p, s.i)
    && s.t <= |txt|
    && (s.starP.Some? ==>
          && s.starP.value < s.p
          && s.star < s.i
          && s.t == s.starT + (s.i - (s.star + 1))
          && Placed(pat, items, s.starP.value + 1, s.star + 1)
          && Aligned(true, items, s.star + 1, txt, s.starT, s.i - (s.star + 1)))
  }

  /** The answer the scan can still reach: match on from here, or retry the remembered star later. */
  ghost predicate Reachable(txt: string, items: seq<Item>, s: Scan)
    requires s.i <= |items| && s.t <= |txt| && (s.starP.Some? ==> s.star < |items|)
  {
    || Matches(true, items, s.i, txt, s.t)
    || (s.starP.Some? && s.starT < |txt| && MatchesLater(true, items, s.star + 1, txt, s.starT + 1))
  }

  lemma TakeKeeps(pat: string, txt: string, items: seq<Item>, s: Scan, next: nat)
    requires InPlace(pat, txt, items, s) && s.t < |txt|
    requires s.p < |pat| && Fits(true, ItemAt(pat, s.p).0, txt[s.t]) && next == ItemAt(pat, s.p).1
    ensures InPlace(pat, txt, items, s.(p := next, t := s.t + 1, i := s.i + 1))
    ensures Reachable(txt, items, s.(p := next, t := s.t + 1, i := s.i + 1)) == Reachable(txt, items, s)
  {
    hide Items, ItemAt, Matches, Aligned;
    ItemsStep(pat, s.p, items, s.i);
    TakeMatches(items, s.i, txt, s.t);
    if s.starP.Some? {
      AlignedGrows(items, s.star + 1, txt, s.starT, s.i - (s.star + 1));
    }
  }

  lemma TakeMatches(items: seq<Item>, i: nat, txt: string, t: nat)
    requires i < |items| && t < |txt| && Fits(true, items[i], txt[t])
    ensures Matches(true, items, i, txt, t) == Matches(true, items, i + 1, txt, t + 1)
  {
  }

  lemma AlignedGrows(items: seq<Item>, i: nat, txt: string, t: nat, n: nat)
    requires Aligned(true, items, i, txt, t, n) && i + n < |items| && t + n < |txt|
    requires Fits(true, items[i + n], txt[t + n])
    ensures Aligned(true, items, i, txt, t, n + 1)
  {
  }

  lemma RememberKeeps(pat: string, txt: string, items: seq<Item>, s: Scan)
    requires InPlace(pat, txt, items, s) && s.t < |txt|
    requires s.p < |pat| && pat[s.p] == '*' && txt[s.t] != '*'
    ensures InPlace(pat, txt, items, Scan(s.p + 1, s.t, s.i + 1, Some(s.p), s.t, s.i))
    ensures Reachable(txt, items, Scan(s.p + 1, s.t, s.i + 1, Some(s.p), s.t, s.i)) == Reachable(txt, items, s)
  {
    hide Items, ParseRanges;
    ItemsStep(pat, s.p, items, s.i);
    if s.starP.Some? && s.starT < |txt| && MatchesLater(true, items, s.star + 1, txt, s.starT + 1) {
      LastRunSubsumes(true, items, s.star + 1, txt, s.starT, s.i - (s.star + 1));
      assert MatchesLater(true, items, s.i + 1, txt, s.t);
    }
    assert Matches(true, items, s.i, txt, s.t) == MatchesLater(true, items, s.i + 1, txt, s.t);
  }

  lemma RetryKeeps(pat: string, txt: string, items: seq<Item>, s: Scan)
    requires InPlace(pat, txt, items, s) && s.t < |txt|
    requires s.p < |pat| ==> !ItemAt(pat, s.p).0.Run? && !Accepts(ItemAt(pat, s.p).0, txt[s.t])
    ensures s.starP.None? ==> !Reachable(txt, items, s)
    ensures s.starP.Some? ==>
              var s' := s.(p := s.starP.value + 1, t := s.starT + 1, i := s.star + 1, starT := s.starT + 1);
              InPlace(pat, txt, items, s') && Reachable(txt, items, s') == Reachable(txt, items, s)
  {
    hide Items, ItemAt, Accepts;
    if s.p < |pat| {
      ItemsStep(pat, s.p, items, s.i);
    }
  }

  lemma EndDecides(pat: string, txt: string, items: seq<Item>, s: Scan)
    requires InPlace(pat, txt, items, s) && s.t == |txt|
    ensures Reachable(txt, items, s) == Matches(true, items, s.i, txt, |txt|)
  {
    if s.starP.Some? && s.starT < |txt| && MatchesLater(true, items, s.star + 1, txt, s.starT + 1) {
      AlignedToEndIsFinal(true, items, s.star + 1, txt, s.starT, s.i - (s.star + 1));
    }
  }

  /** After the text, only runs may remain. */
  method OnlyStarsLeft(pat: string, pos: nat, ghost items: seq<Item>, ghost at: nat, ghost txt: string) returns (r: bool)
    requires Placed(pat, items, pos, at)
    ensures r == Matches(true, items, at, txt, |txt|)
  {
    var p := pos;
    ghost var i := at;
    while p < |pat| && pat[p] == '*'
      invariant Placed(pat, items, p, i)
      invariant Matches(true, items, at, txt, |txt|) == Matches(true, items, i, txt, |txt|)
    {
      ItemsStep(pat, p, items, i);
      p, i := p + 1, i + 1;
    }
    if p < |pat| {
      ItemsStep(pat, p, items, i);
    }
    return p == |pat|;
  }

  /**
   The matcher computes, for every pattern and every text, the pattern's language in the reading
   where a star that meets a `*` in the text is that character.
   */
  method GlobMatch(pattern: Option<string>, text: Option<string>) returns (r: bool)
    requires pattern.Some? ==> IsCString(pattern.value)
    requires text.Some? ==> IsCString(text.value)
    ensures r == (pattern.Some? && text.Some? && Matches(true, Items(pattern.value, 0), 0, text.value, 0))
  {
    if pattern.None? || text.None? {
      return false;
    }
    var pat, txt := pattern.value, text.value;
    ghost var items := Items(pat, 0);
    var s := Scan(0, 0, 0, None, 0, 0);
    while s.t < |txt|
      invariant InPlace(pat, txt, items, s)
      invariant Reachable(txt, items, s) == Matches(true, items, 0, txt, 0)
      decreases if s.starP.Some? then |pat| - s.starP.value else |pat| + 1, |txt| - s.starT, |pat| - s.p
    {
      var step := Step(pat, s.p, txt[s.t]);
      match step {
        case Take(next) =>
          TakeKeeps(pat, txt, items, s, next);
          s := s.(p := next, t := s.t + 1, i := s.i + 1);
        case Remember =>
          RememberKeeps(pat, txt, items, s);
          s := Scan(s.p + 1, s.t, s.i + 1, Some(s.p), s.t, s.i);
        case Refuse =>
          RetryKeeps(pat, txt, items, s);
          if s.starP.None? {
            return false;
          }
          s := s.(p := s.starP.value + 1, t := s.starT + 1, i := s.star + 1, starT := s.starT + 1);
      }
    }
    EndDecides(pat, txt, items, s);
    r := OnlyStarsLeft(pat, s.p, items, s.i, txt);
  }

  // ----- What the matcher means -----

  /** Whatever the matcher accepts, the pattern denotes. */
  lemma MatcherIsSound(pattern: string, text: string)
    requires Matches(true, Items(pattern, 0), 0, text, 0)
    ensures Denotes(pattern, text)
  {
    LiteralStarIsSound(Items(pattern, 0), 0, text, 0);
  }

  /** Every character escaped: the pattern that denotes exactly this text. */
  function Escaped(text: string): (p: string)
    ensures |p| == 2 * |text|
  {
    if text == [] then [] else ['\\', text[0]] + Escaped(text[1..])
  }

  function Literals(text: string): (items: seq<Item>)
    ensures |items| == |text|
    ensures forall i :: 0 <= i < |text| ==> items[i] == Lit(text[i])
  {
    seq(|text|, i requires 0 <= i < |text| => Lit(text[i]))
  }

  lemma {:induction false} EscapedItems(text: string, tail: string)
    ensures Items(Escaped(text) + tail, 0) == Literals(text) + Items(tail, 0)
    decreases |text|
  {
    hide Items;
    if text == [] {
      assert Escaped(text) + tail == tail;
      assert Literals(text) + Items(tail, 0) == Items(tail, 0);
    } else {
      var rest := Escaped(text[1..]) + tail;
      Assoc(['\\', text[0]], Escaped(text[1..]), tail);
      EscapedOne(text[0], rest);
      EscapedItems(text[1..], tail);
      LiteralsCons(text);
      Assoc([Lit(text[0])], Literals(text[1..]), Items(tail, 0));
    }
  }

  lemma LiteralsCons(text: string)
    requires text != []
    ensures Literals(text) == [Lit(text[0])] + Literals(text[1..])
  {
  }

  lemma EscapedOne(c: char, rest: string)
    ensures Items(['\\', c] + rest, 0) == [Lit(c)] + Items(rest, 0)
  {
    ItemsOfSuffix(['\\', c], rest, 0);
    hide ParseRanges;
    assert ItemAt(['\\', c] + rest, 0) == (Lit(c), 2);
  }

  /** Tokenising from a position only looks at what follows it. */
  lemma {:induction false} RangesOfSuffix(head: string, p: string, q: nat)
    requires q <= |p|
    ensures ParseRanges(head + p, |head| + q).0 == ParseRanges(p, q).0
    ensures ParseRanges(head + p, |head| + q).1 == |head| + ParseRanges(p, q).1
    decreases |p| - q
  {
    if q < |p| && p[q] != ']' {
      if q + 2 < |p| && p[q + 1] == '-' && p[q + 2] != ']' {
        RangesOfSuffix(head, p, q + 3);
      } else {
        RangesOfSuffix(head, p, q + 1);
      }
    }
  }

  lemma ItemOfSuffix(head: string, p: string, q: nat)
    requires q < |p|
    ensures ItemAt(head + p, |head| + q) == (ItemAt(p, q).0, |head| + ItemAt(p, q).1)
  {
    hide ParseRanges;
    assert forall k: nat :: At(head + p, |head| + k) == At(p, k);
    if p[q] == '[' {
      assert Negated(head + p, (|head| + q) + 1) == Negated(p, q + 1) by {
        assert At(head + p, |head| + (q + 1)) == At(p, q + 1);
      }
      var skip := if Negated(p, q + 1) then q + 2 else q + 1;
      assert At(head + p, |head| + skip) == At(p, skip);
      assert ClassHead(head + p, |head| + q) == (ClassHead(p, q).0, |head| + ClassHead(p, q).1);
      RangesOfSuffix(head, p, ClassHead(p, q).1);
    }
  }

  lemma {:induction false} ItemsOfSuffix(head: string, p: string, q: nat)
    requires q <= |p|
    ensures Items(head + p, |head| + q) == Items(p, q)
    decreases |p| - q
  {
    hide ItemAt, Items;
    if q < |p| {
      ItemOfSuffix(head, p, q);
      ItemsUnfold(p, q);
      ItemsUnfold(head + p, |head| + q);
      ItemsOfSuffix(head, p, ItemAt(p, q).1);
    } else {
      ItemsEnd(p);
      ItemsEnd(head + p);
    }
  }

  lemma ItemsUnfold(p: string, q: nat)
    requires q < |p|
    ensures Items(p, q) == [ItemAt(p, q).0] + Items(p, ItemAt(p, q).1)
  {
    hide ItemAt;
  }

  lemma ItemsEnd(p: string)
    ensures Items(p, |p|) == []
  {
  }

  /** Literals are laid over the text one by one, whichever reading is used. */
  lemma {:induction false} LiteralsMatch(
      starIsLiteral: bool, items: seq<Item>, i: nat, text: string, j: nat, n: nat)
    requires i + n <= |items| && j <= |text|
    requires forall k :: i <= k < i + n ==> items[k].Lit?
    ensures Matches(starIsLiteral, items, i, text, j)
       <==> && j + n <= |text|
            && (forall k :: i <= k < i + n ==> items[k] == Lit(text[j + (k - i)]))
            && Matches(starIsLiteral, items, i + n, text, j + n)
    decreases n
  {
    if n > 0 {
      assert items[i].Lit?;
      if j < |text| {
        LiteralsMatch(starIsLiteral, items, i + 1, text, j + 1, n - 1);
      }
    }
  }

  /** A pattern that tells the two readings apart on a text with a `*` at `at`. */
  function Separator(text: string, at: nat): string
    requires at < |text|
  {
    Escaped(text[..at]) + ("*" + Escaped(text[at..]))
  }

  lemma SeparatorSeparates(text: string, at: nat)
    requires IsCString(text)
    requires at < |text| && text[at] == '*'
    ensures IsCString(Separator(text, at))
    ensures Denotes(Separator(text, at), text)
    ensures !Matches(true, Items(Separator(text, at), 0), 0, text, 0)
  {
    hide ItemAt, Items, Matches;
    EscapedIsCString(text[..at]);
    EscapedIsCString(text[at..]);
    SeparatorItems(text[..at], text[at..]);
    ItemsSeparate(Items(Separator(text, at), 0), text, at);
  }

  lemma SeparatorItems(before: string, after: string)
    ensures Items(Escaped(before) + ("*" + Escaped(after)), 0) == Literals(before) + ([Run] + Literals(after))
  {
    StarThenItems(Escaped(after));
    EscapedItems(after, []);
    assert Escaped(after) + [] == Escaped(after);
    hide Items;
    EscapedItems(before, "*" + Escaped(after));
  }

  lemma StarThenItems(p: string)
    ensures Items("*" + p, 0) == [Run] + Items(p, 0)
  {
    ItemsOfSuffix("*", p, 0);
  }

  lemma ItemsSeparate(items: seq<Item>, text: string, at: nat)
    requires at < |text| && text[at] == '*'
    requires items == Literals(text[..at]) + ([Run] + Literals(text[at..]))
    ensures Matches(false, items, 0, text, 0)
    ensures !Matches(true, items, 0, text, 0)
  {
    assert |items| == |text| + 1;
    assert forall k :: 0 <= k < at ==> items[k] == Lit(text[k]);
    assert items[at] == Run;
    assert forall k :: at < k < |items| ==> items[k] == Lit(text[k - 1]);
    hide Matches;
    RunTakesNothing(items, text, at);
    RunTakesTheStar(items, text, at);
  }

  ghost predicate AroundRun(items: seq<Item>, text: string, at: nat) {
    && at < |text| && |items| == |text| + 1 && items[at] == Run
    && (forall k :: 0 <= k < at ==> items[k] == Lit(text[k]))
    && (forall k :: at < k < |items| ==> items[k] == Lit(text[k - 1]))
  }

  lemma RunTakesNothing(items: seq<Item>, text: string, at: nat)
    requires AroundRun(items, text, at)
    ensures Matches(false, items, 0, text, 0)
  {
    LiteralsMatch(false, items, at + 1, text, at, |text| - at);
    LaterFrom(false, items, at + 1, text, at, at);
    assert Matches(false, items, at, text, at);
    hide Matches;
    LiteralsMatch(false, items, 0, text, 0, at);
  }

  lemma RunTakesTheStar(items: seq<Item>, text: string, at: nat)
    requires AroundRun(items, text, at) && text[at] == '*'
    ensures !Matches(true, items, 0, text, 0)
  {
    LiteralsMatch(true, items, at + 1, text, at + 1, |text| - at);
    assert Matches(true, items, at, text, at) == Matches(true, items, at + 1, text, at + 1);
    hide Matches;
    LiteralsMatch(true, items, 0, text, 0, at);
  }

  lemma {:induction false} EscapedIsCString(text: string)
    requires IsCString(text)
    ensures IsCString(Escaped(text))
  {
    if text != [] {
      EscapedIsCString(text[1..]);
    }
  }

  /** A text gets the ordinary answer from every pattern exactly when it contains no `*`. */
  lemma ExactOnStarFreeTexts(text: string)
    requires IsCString(text)
    ensures (forall pattern: string | IsCString(pattern) ::
               Matches(true, Items(pattern, 0), 0, text, 0) == Denotes(pattern, text))
       <==> '*' !in text
  {
    if '*' in text {
      var at :| 0 <= at < |text| && text[at] == '*';
      SeparatorSeparates(text, at);
    } else {
      forall pattern: string | IsCString(pattern)
        ensures Matches(true, Items(pattern, 0), 0, text, 0) == Denotes(pattern, text)
      {
        StarFreeAgrees(Items(pattern, 0), 0, text, 0);
      }
    }
  }
}
