/**
 What a filter glob means, part by part: a spelling lists the stars, question marks, characters, escapes and bracket
 sets of a pattern in order. Every pattern has a spelling, and the matcher accepts exactly the texts that can be cut
 into pieces such that each part takes its piece.
 */
module GlobSpelling {
  import opened Common
  import opened GlobTheory
  import opened FilterGlob

  datatype Range = Single(c: char) | Span(lo: char, hi: char)

  /** A `Set` has its sign of negation, perhaps a bracket first, and its ranges; an `Open` bracket is never closed. */
  datatype Part =
    | Star
    | Any
    | Char(c: char)
    | Quoted(c: char)
    | Set(sign: string, bracket: bool, ranges: seq<Range>)
    | Open

  function RangesText(rs: seq<Range>): string {
    if rs == [] then []
    else (if rs[0].Single? then [rs[0].c] else [rs[0].lo, '-', rs[0].hi]) + RangesText(rs[1..])
  }

  function Leading(bracket: bool): string {
    if bracket then "]" else ""
  }

  function PartText(p: Part): string {
    match p
    case Star => "*"
    case Any => "?"
    case Char(c) => [c]
    case Quoted(c) => ['\\', c]
    case Set(sign, bracket, rs) => "[" + (sign + (Leading(bracket) + (RangesText(rs) + "]")))
    case Open => "["
  }

  function Text(ps: seq<Part>): string {
    if ps == [] then [] else PartText(ps[0]) + Text(ps[1..])
  }

  // ----- Where each part may stand -----

  /** A single character is not the start of a span. */
  predicate Alone(after: string) {
    !(|after| >= 2 && after[0] == '-' && after[1] != ']')
  }

  predicate RangesFit(rs: seq<Range>) {
    rs == [] ||
    (RangesFit(rs[1..]) &&
     match rs[0]
     case Single(c) => c != ']' && Alone(RangesText(rs[1..]) + "]")
     case Span(lo, hi) => lo != ']' && hi != ']')
  }

  predicate IsSign(s: string) {
    s == "!" || s == "^"
  }

  /** A bracket stays open when no other closes it: a sign and then a bracket right behind it do not count. */
  predicate NeverCloses(rest: string) {
    var r1 := if rest != [] && IsSign(rest[..1]) then rest[1..] else rest;
    var r2 := if r1 != [] && r1[0] == ']' then r1[1..] else r1;
    ']' !in r2
  }

  predicate PartFits(p: Part, rest: string) {
    match p
    case Star => true
    case Any => true
    case Char(c) => c != '*' && c != '?' && c != '[' && (c == '\\' ==> rest == [])
    case Quoted(_) => true
    case Set(sign, bracket, rs) =>
      && (IsSign(sign) || (sign == "" && !(!bracket && rs != [] && IsSign(RangesText(rs)[..1]))))
      && (bracket || rs != []) && RangesFit(rs)
    case Open => NeverCloses(rest)
  }

  predicate AllFit(ps: seq<Part>) {
    ps == [] || (PartFits(ps[0], Text(ps[1..])) && AllFit(ps[1..]))
  }

  // ----- What each part takes -----

  predicate RangeTakes(r: Range, c: char) {
    match r
    case Single(d) => c == d
    case Span(lo, hi) => lo <= c <= hi
  }

  ghost predicate Takes(p: Part, c: char) {
    match p
    case Star => false
    case Any => true
    case Char(d) => c == d
    case Quoted(d) => c == d
    case Set(sign, bracket, rs) => (sign == "") == ((bracket && c == ']') || exists r :: r in rs && RangeTakes(r, c))
    case Open => c == '['
  }

  /**
   The pieces, laid end to end, are the text, and each part takes its own: a star any piece, the others one character.
   In the literal reading a star in front of a `*` takes just that.
   */
  ghost predicate Laid(literal: bool, ps: seq<Part>, pieces: seq<string>, text: string) {
    if ps == [] then pieces == [] && text == []
    else
      && pieces != [] && pieces[0] <= text
      && (if ps[0].Star? then literal && text != [] && text[0] == '*' ==> pieces[0] == "*"
          else |pieces[0]| == 1 && Takes(ps[0], pieces[0][0]))
      && Laid(literal, ps[1..], pieces[1..], text[|pieces[0]|..])
  }

  // ----- Parts and items -----

  function Pairs(rs: seq<Range>): (pairs: seq<(char, char)>)
    ensures |pairs| == |rs|
    ensures forall i :: 0 <= i < |rs| ==>
              pairs[i] == if rs[i].Single? then (rs[i].c, rs[i].c) else (rs[i].lo, rs[i].hi)
  {
    seq(|rs|, i requires 0 <= i < |rs| => if rs[i].Single? then (rs[i].c, rs[i].c) else (rs[i].lo, rs[i].hi))
  }

  function ItemOf(p: Part): Item {
    match p
    case Star => Run
    case Any => One
    case Char(c) => Lit(c)
    case Quoted(c) => Lit(c)
    case Set(sign, bracket, rs) => Class(sign != "", (if bracket then [(']', ']')] else []) + Pairs(rs))
    case Open => Lit('[')
  }

  lemma PairsAccept(rs: seq<Range>, c: char)
    ensures InRanges(Pairs(rs), c) <==> exists r :: r in rs && RangeTakes(r, c)
  {
    if i :| 0 <= i < |rs| && Pairs(rs)[i].0 <= c <= Pairs(rs)[i].1 {
      assert rs[i] in rs && RangeTakes(rs[i], c);
    }
    if r :| r in rs && RangeTakes(r, c) {
      var i :| 0 <= i < |rs| && rs[i] == r;
      assert Pairs(rs)[i].0 <= c <= Pairs(rs)[i].1;
    }
  }

  lemma ItemTakes(p: Part, c: char)
    ensures Accepts(ItemOf(p), c) <==> Takes(p, c)
  {
    if p.Set? {
      PairsAccept(p.ranges, c);
      hide InRanges;
      InRangesCons((']', ']'), Pairs(p.ranges), c);
      assert [] + Pairs(p.ranges) == Pairs(p.ranges);
    }
  }

  lemma RangesStep(p: string, q: nat, width: nat)
    requires q < q + width <= |p| && p[q] != ']'
    requires width == if q + 2 < |p| && p[q + 1] == '-' && p[q + 2] != ']' then 3 else 1
    ensures var rest := ParseRanges(p, q + width);
            ParseRanges(p, q) == ([(p[q], p[q + width - 1])] + rest.0, rest.1)
  {
  }

  lemma {:induction false} RangesAreRead(rs: seq<Range>, rest: string)
    requires RangesFit(rs)
    ensures ParseRanges(RangesText(rs) + ("]" + rest), 0) == (Pairs(rs), |RangesText(rs)|)
    decreases |rs|
  {
    hide ParseRanges;
    if rs == [] {
      assert RangesText(rs) + ("]" + rest) == "]" + rest;
      ClosedAtOnce(rest);
    } else {
      var head := if rs[0].Single? then [rs[0].c] else [rs[0].lo, '-', rs[0].hi];
      var tail := RangesText(rs[1..]) + ("]" + rest);
      RangesAreRead(rs[1..], rest);
      RangesOfSuffix(head, tail, 0);
      Assoc(head, RangesText(rs[1..]), "]" + rest);
      assert tail == RangesText(rs[1..]) + "]" + rest;
      if rs[0].Single? {
        AloneStays(RangesText(rs[1..]) + "]", rest, rs[0].c);
      }
      assert (head + tail)[0] == head[0] != ']';
      RangesStep(head + tail, 0, |head|);
      assert Pairs(rs) == [((head + tail)[0], (head + tail)[|head| - 1])] + Pairs(rs[1..]);
    }
  }

  lemma ClosedAtOnce(rest: string)
    ensures ParseRanges("]" + rest, 0) == ([], 0)
  {
  }

  lemma AloneStays(after: string, rest: string, c: char)
    requires Alone(after) && after != [] && ']' in after
    ensures var p := [c] + (after + rest);
            !(2 < |p| && p[1] == '-' && p[2] != ']')
  {
    var p := [c] + (after + rest);
    assert p[1] == after[0];
    if |after| == 1 {
      assert after[0] == ']';
    } else {
      assert p[2] == after[1];
    }
  }

  /** Without a closing bracket the ranges run to the end. */
  lemma {:induction false} RangesRunOut(p: string, q: nat)
    requires q <= |p| && ']' !in p[q..]
    ensures ParseRanges(p, q).1 == |p|
    decreases |p| - q
  {
    if q < |p| {
      assert p[q] == p[q..][0];
      assert p[q + 1..] == p[q..][1..];
      if q + 2 < |p| && p[q + 1] == '-' && p[q + 2] != ']' {
        assert p[q + 3..] == p[q..][3..];
        RangesRunOut(p, q + 3);
      } else {
        RangesRunOut(p, q + 1);
      }
    }
  }

  lemma SetIsRead(p: Part, rest: string)
    requires p.Set? && PartFits(p, rest)
    ensures ItemAt(PartText(p) + rest, 0) == (ItemOf(p), |PartText(p)|)
  {
    hide ParseRanges, RangesFit, RangesText, ClassHead, Negated, ItemAt, InRanges;
    var Set(sign, bracket, rs) := p;
    var ranges, head := RangesText(rs), "[" + (sign + Leading(bracket));
    var body := ranges + ("]" + rest);
    SetText(sign, Leading(bracket), ranges, rest);
    RangesAreRead(rs, rest);
    RangesOfSuffix(head, body, 0);
    SetHead(p, rest);
    SetLength(sign, Leading(bracket), ranges);
    ClassBranch(head + body, head, Pairs(rs), |ranges|, sign != "", bracket);
  }

  lemma SetLength(sign: string, leading: string, ranges: string)
    ensures |"[" + (sign + (leading + (ranges + "]")))| == |"[" + (sign + leading)| + |ranges| + 1
  {
  }

  lemma ClassBranch(s: string, head: string, pairs: seq<(char, char)>, n: nat, negated: bool, bracket: bool)
    requires |head| + n < |s| && s[0] == '[' && Negated(s, 1) == negated
    requires ClassHead(s, 0) == (if bracket then [(']', ']')] else [], |head|)
    requires ParseRanges(s, |head|) == (pairs, |head| + n)
    ensures ItemAt(s, 0) == (Class(negated, (if bracket then [(']', ']')] else []) + pairs), |head| + n + 1)
  {
    hide ParseRanges, ClassHead, Negated;
  }

  lemma SetText(sign: string, leading: string, ranges: string, rest: string)
    ensures ("[" + (sign + (leading + (ranges + "]")))) + rest == ("[" + (sign + leading)) + (ranges + ("]" + rest))
  {
  }

  /** Where the sign and a leading bracket end. */
  lemma SetHead(p: Part, rest: string)
    requires p.Set? && PartFits(p, rest)
    ensures var s := PartText(p) + rest;
            && s[0] == '['
            && Negated(s, 1) == (p.sign != "")
            && ClassHead(s, 0) == (if p.bracket then [(']', ']')] else [], |"[" + (p.sign + Leading(p.bracket))|)
  {
    var Set(sign, bracket, rs) := p;
    var head := "[" + (sign + Leading(bracket));
    var body := RangesText(rs) + ("]" + rest);
    var s := PartText(p) + rest;
    SetText(sign, Leading(bracket), RangesText(rs), rest);
    assert s == head + body;
    if !bracket {
      RangesHead(rs);
      assert body[0] == RangesText(rs)[0] && RangesText(rs)[..1] == [body[0]];
      assert s[|head|] == body[0];
    } else {
      assert s[|head| - 1] == ']';
    }
    if sign != "" {
      assert s[1] == sign[0];
    }
  }

  lemma RangesHead(rs: seq<Range>)
    requires rs != [] && RangesFit(rs)
    ensures RangesText(rs) != [] && RangesText(rs)[0] != ']'
  {
  }

  lemma OpenIsRead(rest: string)
    requires NeverCloses(rest)
    ensures ItemAt("[" + rest, 0) == (Lit('['), 1)
  {
    var s := "[" + rest;
    var q := ClassHead(s, 0).1;
    OpenHead(rest);
    hide ParseRanges, ClassHead, NeverCloses;
    assert s[q..] == rest[q - 1..];
    RangesRunOut(s, q);
    assert s[0] == '[';
  }

  lemma OpenHead(rest: string)
    requires NeverCloses(rest)
    ensures var q := ClassHead("[" + rest, 0).1;
            1 <= q <= |rest| + 1 && ']' !in rest[q - 1..]
  {
    var s := "[" + rest;
    assert forall k: nat :: At(s, k + 1) == At(rest, k);
    assert Negated(s, 1) == (rest != [] && IsSign(rest[..1])) by {
      assert At(s, 0 + 1) == At(rest, 0);
      assert rest != [] ==> rest[..1] == [rest[0]];
    }
    var n := if Negated(s, 1) then 1 else 0;
    assert At(s, n + 1) == At(rest, n);
    assert rest[n..] != [] ==> rest[n..][0] == At(rest, n);
    assert rest[0..] == rest;
    if At(rest, n) == ']' {
      assert rest[n..][1..] == rest[n + 1..];
    }
  }

  lemma PartIsRead(p: Part, rest: string)
    requires PartFits(p, rest)
    ensures PartText(p) != [] && ItemAt(PartText(p) + rest, 0) == (ItemOf(p), |PartText(p)|)
  {
    hide ParseRanges;
    match p {
      case Set(_, _, _) => SetIsRead(p, rest);
      case Open => OpenIsRead(rest);
      case Char(c) => assert ([c] + rest)[0] == c;
      case Quoted(c) => assert (['\\', c] + rest)[1] == c;
      case Star => assert ("*" + rest)[0] == '*';
      case Any => assert ("?" + rest)[0] == '?';
    }
  }

  function ItemsOf(ps: seq<Part>): (items: seq<Item>)
    ensures |items| == |ps| && forall i :: 0 <= i < |ps| ==> items[i] == ItemOf(ps[i])
  {
    seq(|ps|, i requires 0 <= i < |ps| => ItemOf(ps[i]))
  }

  lemma {:induction false} PartsAreRead(ps: seq<Part>)
    requires AllFit(ps)
    ensures Items(Text(ps), 0) == ItemsOf(ps)
    decreases |ps|
  {
    hide ItemAt, Items, PartText, ItemOf, PartFits;
    if ps == [] {
      ItemsEnd([]);
    } else {
      var head, tail := PartText(ps[0]), Text(ps[1..]);
      PartIsRead(ps[0], tail);
      PartsAreRead(ps[1..]);
      ItemsUnfold(head + tail, 0);
      ItemsOfSuffix(head, tail, 0);
      assert ItemsOf(ps) == [ItemOf(ps[0])] + ItemsOf(ps[1..]);
    }
  }

  // ----- Items and pieces -----

  /** The text can be cut so. */
  ghost predicate CanLay(literal: bool, ps: seq<Part>, text: string) {
    exists pieces :: Laid(literal, ps, pieces, text)
  }

  lemma LayOne(literal: bool, ps: seq<Part>, text: string)
    requires ps != [] && !ps[0].Star?
    ensures CanLay(literal, ps, text) <==> text != [] && Takes(ps[0], text[0]) && CanLay(literal, ps[1..], text[1..])
  {
    hide Takes;
    if pieces :| Laid(literal, ps, pieces, text) {
      assert pieces[0] == [text[0]];
      assert Laid(literal, ps[1..], pieces[1..], text[1..]);
    }
    if text != [] && Takes(ps[0], text[0]) && CanLay(literal, ps[1..], text[1..]) {
      var more :| Laid(literal, ps[1..], more, text[1..]);
      var pieces := [[text[0]]] + more;
      assert pieces[1..] == more && [text[0]] <= text;
      assert Laid(literal, ps, pieces, text);
    }
  }

  lemma LayStar(literal: bool, ps: seq<Part>, text: string)
    requires ps != [] && ps[0].Star?
    ensures CanLay(literal, ps, text) <==>
            if literal && text != [] && text[0] == '*' then CanLay(literal, ps[1..], text[1..])
            else exists k :: 0 <= k <= |text| && CanLay(literal, ps[1..], text[k..])
  {
    if pieces :| Laid(literal, ps, pieces, text) {
      assert Laid(literal, ps[1..], pieces[1..], text[|pieces[0]|..]);
      assert CanLay(literal, ps[1..], text[|pieces[0]|..]);
    }
    if literal && text != [] && text[0] == '*' && CanLay(literal, ps[1..], text[1..]) {
      LayPiece(literal, ps, text, 1);
    }
    if !(literal && text != [] && text[0] == '*') {
      if k :| 0 <= k <= |text| && CanLay(literal, ps[1..], text[k..]) {
        LayPiece(literal, ps, text, k);
      }
    }
  }

  lemma LayPiece(literal: bool, ps: seq<Part>, text: string, k: nat)
    requires ps != [] && ps[0].Star? && k <= |text| && CanLay(literal, ps[1..], text[k..])
    requires literal && text != [] && text[0] == '*' ==> k == 1
    ensures CanLay(literal, ps, text)
  {
    var more :| Laid(literal, ps[1..], more, text[k..]);
    var pieces := [text[..k]] + more;
    assert pieces[1..] == more;
    assert Laid(literal, ps, pieces, text);
  }

  lemma {:induction false} MatchIsLay(literal: bool, ps: seq<Part>, i: nat, text: string, j: nat)
    requires i <= |ps| && j <= |text|
    ensures Matches(literal, ItemsOf(ps), i, text, j) <==> CanLay(literal, ps[i..], text[j..])
    decreases |ps| - i
  {
    hide CanLay, Takes, Accepts;
    var items, rest := ItemsOf(ps), text[j..];
    if i == |ps| {
      assert ps[i..] == [];
      NothingLeft(literal, rest);
    } else {
      assert ps[i..][0] == ps[i] && ps[i..][1..] == ps[i + 1..];
      assert j < |text| ==> rest[0] == text[j] && rest[1..] == text[j + 1..];
      if ps[i].Star? {
        LayStar(literal, ps[i..], rest);
        StarMatches(literal, ps, i, text, j);
      } else {
        LayOne(literal, ps[i..], rest);
        if j < |text| {
          ItemTakes(ps[i], text[j]);
          MatchIsLay(literal, ps, i + 1, text, j + 1);
        }
      }
    }
  }

  lemma NothingLeft(literal: bool, text: string)
    ensures CanLay(literal, [], text) <==> text == []
  {
    if text == [] {
      assert Laid(literal, [], [], text);
    }
  }

  lemma {:induction false} StarMatches(literal: bool, ps: seq<Part>, i: nat, text: string, j: nat)
    requires i < |ps| && ps[i].Star? && j <= |text|
    ensures Matches(literal, ItemsOf(ps), i, text, j) <==>
            if literal && j < |text| && text[j] == '*' then CanLay(literal, ps[i + 1..], text[j..][1..])
            else exists k :: 0 <= k <= |text[j..]| && CanLay(literal, ps[i + 1..], text[j..][k..])
    decreases |ps| - i, 0
  {
    hide CanLay;
    var items, n: nat, rest := ItemsOf(ps), i + 1, text[j..];
    if literal && j < |text| && text[j] == '*' {
      MatchIsLay(literal, ps, n, text, j + 1);
      assert rest[1..] == text[j + 1..];
    } else {
      LaterIsSomewhere(literal, items, n, text, j);
      assert Matches(literal, items, i, text, j) == MatchesLater(literal, items, n, text, j);
      forall k: nat | j <= k <= |text|
        ensures Matches(literal, items, n, text, k) <==> CanLay(literal, ps[n..], rest[k - j..])
      {
        MatchIsLay(literal, ps, n, text, k);
        assert rest[k - j..] == text[k..];
      }
      hide Matches, MatchesLater;
      if k: nat :| j <= k <= |text| && Matches(literal, items, n, text, k) {
        assert CanLay(literal, ps[n..], rest[k - j..]);
      }
      if k: nat :| k <= |rest| && CanLay(literal, ps[n..], rest[k..]) {
        var m: nat := j + k;
        assert rest[m - j..] == rest[k..];
        assert Matches(literal, items, n, text, m);
        LaterFrom(literal, items, n, text, j, m);
      }
    }
  }

  /**
   However a pattern is spelled, the matcher accepts exactly the texts its parts can be laid over, a star in front of a
   `*` taking just that, and the pattern denotes those they can be laid over freely.
   */
  lemma MatcherLaysParts(ps: seq<Part>, text: string)
    requires AllFit(ps)
    ensures Matches(true, Items(Text(ps), 0), 0, text, 0) <==> CanLay(true, ps, text)
    ensures Denotes(Text(ps), text) <==> CanLay(false, ps, text)
  {
    hide Items, Matches, CanLay, AllFit, Text;
    PartsAreRead(ps);
    MatchIsLay(true, ps, 0, text, 0);
    MatchIsLay(false, ps, 0, text, 0);
    assert ps[0..] == ps && text[0..] == text;
  }

  // ----- Every pattern is spelled -----

  lemma {:induction false} RangesOf(s: string) returns (rs: seq<Range>)
    requires ']' !in s
    ensures RangesFit(rs) && RangesText(rs) == s
    decreases |s|
  {
    if s == [] {
      rs := [];
    } else if |s| > 2 && s[1] == '-' {
      var more := RangesOf(s[3..]);
      rs := [Span(s[0], s[2])] + more;
      assert rs[1..] == more;
      assert s == [s[0], '-', s[2]] + s[3..];
    } else {
      var more := RangesOf(s[1..]);
      rs := [Single(s[0])] + more;
      assert rs[1..] == more;
      assert s == [s[0]] + s[1..];
      assert Alone(s[1..] + "]");
    }
  }

  /** The part at the front of a pattern. */
  lemma PartOf(s: string) returns (p: Part, rest: string)
    requires s != []
    ensures s == PartText(p) + rest && |rest| < |s| && PartFits(p, rest)
  {
    hide RangesFit, RangesText, NeverCloses;
    rest := s[1..];
    assert s == [s[0]] + rest;
    if s[0] == '*' {
      p := Star;
    } else if s[0] == '?' {
      p := Any;
    } else if s[0] == '\\' && rest != [] {
      p, rest := Quoted(s[1]), s[2..];
    } else if s[0] == '[' {
      if NeverCloses(rest) {
        p := Open;
      } else {
        p, rest := SetOf(rest);
      }
    } else {
      p := Char(s[0]);
    }
  }

  lemma SetOf(s: string) returns (p: Part, rest: string)
    requires !NeverCloses(s)
    ensures p.Set? && "[" + s == PartText(p) + rest && |rest| <= |s| && PartFits(p, rest)
  {
    var sign, bracket, s2 := HeadOf(s);
    var k := FirstClose(s2);
    rest := s2[k + 1..];
    assert s2 == s2[..k] + ("]" + rest);
    p := ClosedSet(sign, bracket, s2[..k], rest);
  }

  lemma ClosedSet(sign: string, bracket: bool, ranges: string, rest: string) returns (p: Part)
    requires IsSign(sign) || (sign == "" && (bracket || !IsSign((ranges + ("]" + rest))[..1])))
    requires ']' !in ranges && (bracket || (ranges + ("]" + rest))[0] != ']')
    ensures p.Set? && PartFits(p, rest)
    ensures "[" + (sign + (Leading(bracket) + (ranges + ("]" + rest)))) == PartText(p) + rest
  {
    var rs := RangesOf(ranges);
    p := Set(sign, bracket, rs);
    hide RangesFit;
    SetRegroup(sign, Leading(bracket), ranges, rest);
    if ranges != [] {
      assert (ranges + ("]" + rest))[..1] == ranges[..1];
    }
  }

  /** The sign and the leading bracket of a set that closes. */
  lemma HeadOf(s: string) returns (sign: string, bracket: bool, after: string)
    requires !NeverCloses(s)
    ensures s == sign + (Leading(bracket) + after) && ']' in after
    ensures IsSign(sign) || (sign == "" && (bracket || !IsSign(after[..1])))
    ensures !bracket ==> after[0] != ']'
  {
    sign := if s != [] && IsSign(s[..1]) then s[..1] else "";
    var s1 := s[|sign|..];
    bracket := s1 != [] && s1[0] == ']';
    after := if bracket then s1[1..] else s1;
    assert s == sign + s1 && s1 == Leading(bracket) + after;
  }

  lemma SetRegroup(sign: string, leading: string, ranges: string, rest: string)
    ensures "[" + (sign + (leading + (ranges + ("]" + rest)))) == ("[" + (sign + (leading + (ranges + "]")))) + rest
  {
  }

  lemma {:induction false} FirstClose(s: string) returns (k: nat)
    requires ']' in s
    ensures k < |s| && s[k] == ']' && ']' !in s[..k]
    decreases |s|
  {
    if s[0] == ']' {
      k := 0;
    } else {
      k := FirstClose(s[1..]);
      k := k + 1;
      assert s[..k] == [s[0]] + s[1..][..k - 1];
    }
  }

  /** Every pattern has a spelling. */
  lemma {:induction false} EveryPatternIsSpelled(pattern: string) returns (ps: seq<Part>)
    ensures AllFit(ps) && Text(ps) == pattern
    decreases |pattern|
  {
    hide PartFits, PartText;
    if pattern == [] {
      ps := [];
    } else {
      var p, rest := PartOf(pattern);
      var more := EveryPatternIsSpelled(rest);
      ps := [p] + more;
      assert ps[1..] == more;
    }
  }
}
