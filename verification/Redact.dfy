/**
 Redaction of secrets in place: every maximal token of a buffer that some pattern denotes is
 overwritten with at most three stars, up to a fixed number of replacements per call.
 */
module Redact {
  import opened Common
  import opened GlobTheory

  const REPLACEMENTS_MAX: nat := 64

  // ----- The whole-token glob -----

  /** A star is a run; every other character stands for itself. */
  function StarItems(pattern: string): (items: seq<Item>)
    ensures |items| == |pattern|
    ensures forall i :: 0 <= i < |pattern| ==> items[i] == if pattern[i] == '*' then Run else Lit(pattern[i])
  {
    seq(|pattern|, i requires 0 <= i < |pattern| => if pattern[i] == '*' then Run else Lit(pattern[i]))
  }

  /** A match is still possible: from where the scan stands, or by moving the remembered run. */
  ghost predicate Open(items: seq<Item>, tok: string, p: nat, t: nat, star: Option<(nat, nat)>)
    requires p <= |items| && t <= |tok|
    requires star.Some? ==> star.value.0 <= |items| && star.value.1 <= t
  {
    || Matches(false, items, p, tok, t)
    || (star.Some? && star.value.1 < |tok| && MatchesLater(false, items, star.value.0, tok, star.value.1 + 1))
  }

  /** Since the remembered run, items and characters were taken one by one. */
  ghost predicate Laid(items: seq<Item>, tok: string, p: nat, t: nat, star: Option<(nat, nat)>) {
    && p <= |items|
    && t <= |tok|
    && (star.Some? ==>
          && star.value.0 <= p
          && star.value.1 <= t
          && p - star.value.0 == t - star.value.1
          && Aligned(false, items, star.value.0, tok, star.value.1, p - star.value.0))
  }

  lemma RememberKeeps(items: seq<Item>, tok: string, p: nat, t: nat, star: Option<(nat, nat)>)
    requires Laid(items, tok, p, t, star)
    requires t < |tok| && p < |items| && items[p].Run?
    ensures Laid(items, tok, p + 1, t, Some((p + 1, t)))
    ensures Open(items, tok, p, t, star) == Open(items, tok, p + 1, t, Some((p + 1, t)))
  {
    assert Matches(false, items, p, tok, t) == MatchesLater(false, items, p + 1, tok, t);
    assert Open(items, tok, p + 1, t, Some((p + 1, t))) == MatchesLater(false, items, p + 1, tok, t);
    if star.Some? && star.value.1 < |tok| && MatchesLater(false, items, star.value.0, tok, star.value.1 + 1) {
      LastRunSubsumes(false, items, star.value.0, tok, star.value.1, p - star.value.0);
    }
  }

  lemma TakeKeeps(items: seq<Item>, tok: string, p: nat, t: nat, star: Option<(nat, nat)>)
    requires Laid(items, tok, p, t, star)
    requires t < |tok| && p < |items| && items[p] == Lit(tok[t])
    ensures Laid(items, tok, p + 1, t + 1, star)
    ensures Open(items, tok, p, t, star) == Open(items, tok, p + 1, t + 1, star)
  {
    if star.Some? {
      forall k | star.value.0 <= k < p + 1
        ensures Fits(false, items[k], tok[star.value.1 + (k - star.value.0)])
      {
      }
    }
  }

  lemma RetryKeeps(items: seq<Item>, tok: string, p: nat, t: nat, star: Option<(nat, nat)>)
    requires Laid(items, tok, p, t, star)
    requires t < |tok| && (p == |items| || (items[p].Lit? && items[p] != Lit(tok[t])))
    ensures star.None? ==> !Open(items, tok, p, t, star)
    ensures star.Some? ==> (Open(items, tok, p, t, star) ==
                            Open(items, tok, star.value.0, star.value.1 + 1,
                                 Some((star.value.0, star.value.1 + 1))))
  {
  }

  lemma EndDecides(items: seq<Item>, tok: string, p: nat, star: Option<(nat, nat)>)
    requires Laid(items, tok, p, |tok|, star)
    ensures Open(items, tok, p, |tok|, star) == Matches(false, items, p, tok, |tok|)
  {
    if star.Some? && star.value.1 < |tok| && MatchesLater(false, items, star.value.0, tok, star.value.1 + 1) {
      AlignedToEndIsFinal(false, items, star.value.0, tok, star.value.1, p - star.value.0);
    }
  }

  /** The iterative matcher decides the ordinary meaning of the pattern, for every token and pattern. */
  method GlobWhole(tok: string, pattern: string) returns (r: bool)
    ensures r == Matches(false, StarItems(pattern), 0, tok, 0)
  {
    ghost var items := StarItems(pattern);
    var t: nat, p: nat := 0, 0;
    var star: Option<(nat, nat)> := None;
    while t < |tok|
      invariant Laid(items, tok, p, t, star)
      invariant Open(items, tok, p, t, star) == Matches(false, items, 0, tok, 0)
      decreases if star.Some? then |pattern| - star.value.0 else |pattern| + 1,
                if star.Some? then |tok| - star.value.1 else 0,
                |pattern| - p
    {
      if p < |pattern| && pattern[p] == '*' {
        RememberKeeps(items, tok, p, t, star);
        p := p + 1;
        star := Some((p, t));
      } else if p < |pattern| && pattern[p] == tok[t] {
        TakeKeeps(items, tok, p, t, star);
        t, p := t + 1, p + 1;
      } else {
        RetryKeeps(items, tok, p, t, star);
        if star.None? {
          return false;
        }
        t := star.value.1 + 1;
        p := star.value.0;
        star := Some((p, t));
      }
    }
    EndDecides(items, tok, p, star);
    while p < |pattern| && pattern[p] == '*'
      invariant p <= |pattern|
      invariant Matches(false, items, p, tok, |tok|) == Matches(false, items, 0, tok, 0)
    {
      p := p + 1;
    }
    r := p == |pattern|;
  }

  // ----- Tokens -----

  predicate IsTokenChar(c: char) {
    || 'a' <= c <= 'z' || 'A' <= c <= 'Z' || '0' <= c <= '9'
    || c == '_' || c == '=' || c == '.' || c == ':' || c == '+' || c == '@' || c == '%' || c == '~' || c == '-'
  }

  predicate IsToken(s: string) {
    s != [] && forall i :: 0 <= i < |s| ==> IsTokenChar(s[i])
  }

  predicate StartsOutside(s: string) {
    s == [] || !IsTokenChar(s[0])
  }

  /** The length of the token at the front. */
  function TokenLen(s: string): (n: nat)
    ensures n <= |s|
    ensures forall i :: 0 <= i < n ==> IsTokenChar(s[i])
    ensures StartsOutside(s[n..])
  {
    if StartsOutside(s) then 0 else 1 + TokenLen(s[1..])
  }

  predicate Secret(tok: string, patterns: seq<string>) {
    exists i :: 0 <= i < |patterns| && Denoted(tok, patterns[i])
  }

  predicate Denoted(tok: string, pattern: string) {
    Matches(false, StarItems(pattern), 0, tok, 0)
  }

  /** The text cut into maximal tokens and single other characters. */
  function Pieces(s: string): seq<string> {
    if s == [] then []
    else if StartsOutside(s) then [[s[0]]] + Pieces(s[1..])
    else [s[..TokenLen(s)]] + Pieces(s[TokenLen(s)..])
  }

  function Flatten(ps: seq<string>): string {
    if ps == [] then [] else ps[0] + Flatten(ps[1..])
  }

  predicate IsPiece(p: string) {
    IsToken(p) || (|p| == 1 && !IsTokenChar(p[0]))
  }

  /** A cut is into maximal tokens: each piece is a token or one other character, and no two tokens touch. */
  predicate Maximal(ps: seq<string>) {
    && (forall i :: 0 <= i < |ps| ==> IsPiece(ps[i]))
    && (forall i :: 0 < i < |ps| ==> !(IsToken(ps[i - 1]) && IsToken(ps[i])))
  }

  lemma {:induction false} PiecesAreMaximal(s: string)
    ensures Flatten(Pieces(s)) == s
    ensures Maximal(Pieces(s))
    ensures s != [] ==> Pieces(s) != [] && (IsToken(Pieces(s)[0]) == !StartsOutside(s))
    ensures s == [] ==> Pieces(s) == []
    decreases |s|
  {
    if s != [] {
      hide Pieces, Maximal, Flatten, IsToken, IsPiece, StartsOutside;
      var n := PiecesStep(s);
      var first, rest := s[..n], Pieces(s[n..]);
      PiecesAreMaximal(s[n..]);
      ConsIsMaximal(first, rest);
      FlattenCons(first, rest);
      Whole(s, n);
    } else {
      NoPieces();
    }
  }

  lemma Whole(s: string, n: nat)
    requires n <= |s|
    ensures s[..n] + s[n..] == s
  {
  }

  /** The first piece and the rest. */
  lemma PiecesStep(s: string) returns (n: nat)
    requires s != []
    ensures 0 < n <= |s| && Pieces(s) == [s[..n]] + Pieces(s[n..])
    ensures IsPiece(s[..n]) && IsToken(s[..n]) == !StartsOutside(s)
    ensures IsToken(s[..n]) ==> s[n..] == [] || StartsOutside(s[n..])
  {
    hide Pieces, IsToken;
    if StartsOutside(s) {
      n := 1;
      OutsideStep(s);
    } else {
      n := TokenLen(s);
      TokenStep(s);
    }
  }

  lemma OutsideStep(s: string)
    requires s != [] && StartsOutside(s)
    ensures Pieces(s) == [s[..1]] + Pieces(s[1..]) && !IsToken(s[..1])
  {
    assert s[..1] == [s[0]];
    assert !IsTokenChar(s[..1][0]);
  }

  lemma TokenStep(s: string)
    requires s != [] && !StartsOutside(s)
    ensures TokenLen(s) > 0 && IsToken(s[..TokenLen(s)])
    ensures Pieces(s) == [s[..TokenLen(s)]] + Pieces(s[TokenLen(s)..])
  {
    hide IsTokenChar;
  }

  lemma NoPieces()
    ensures Pieces([]) == [] && Flatten(Pieces([])) == [] && Maximal(Pieces([]))
  {
  }

  lemma ConsIsMaximal(p: string, ps: seq<string>)
    requires Maximal(ps) && IsPiece(p)
    requires ps != [] && IsToken(p) ==> !IsToken(ps[0])
    ensures Maximal([p] + ps)
  {
    var all := [p] + ps;
    forall i | 0 < i < |all| ensures !(IsToken(all[i - 1]) && IsToken(all[i])) {
      assert all[i] == ps[i - 1];
      if i > 1 {
        assert all[i - 1] == ps[i - 2];
      }
    }
  }

  /** There is only one such cut. */
  lemma {:induction false} MaximalIsUnique(ps: seq<string>)
    requires Maximal(ps)
    ensures Pieces(Flatten(ps)) == ps
  {
    if ps != [] {
      var rest := Flatten(ps[1..]);
      TailIsMaximal(ps);
      MaximalIsUnique(ps[1..]);
      assert ps == [ps[0]] + ps[1..];
      if IsToken(ps[0]) {
        AfterTokenOutside(ps);
        PiecesOfToken(ps[0], rest);
      } else {
        assert (ps[0] + rest)[1..] == rest;
        assert [(ps[0] + rest)[0]] == ps[0];
      }
    }
  }

  lemma TailIsMaximal(ps: seq<string>)
    requires Maximal(ps) && ps != []
    ensures Maximal(ps[1..])
  {
    forall i | 0 < i < |ps[1..]| ensures !(IsToken(ps[1..][i - 1]) && IsToken(ps[1..][i])) {
      assert ps[1..][i] == ps[i + 1] && ps[1..][i - 1] == ps[i + 1 - 1];
    }
  }

  lemma AfterTokenOutside(ps: seq<string>)
    requires Maximal(ps) && ps != [] && IsToken(ps[0])
    ensures StartsOutside(Flatten(ps[1..]))
  {
    if |ps| > 1 {
      assert !(IsToken(ps[1 - 1]) && IsToken(ps[1]));
      assert Flatten(ps[1..]) == ps[1] + Flatten(ps[1..][1..]);
    }
  }

  lemma TokenLenOfToken(tok: string, rest: string)
    requires IsToken(tok) && StartsOutside(rest)
    ensures TokenLen(tok + rest) == |tok|
  {
    var s := tok + rest;
    var n := TokenLen(s);
    assert n < |s| ==> s[n..][0] == s[n];
    assert forall i :: 0 <= i < |tok| ==> IsTokenChar(s[i]);
    assert |tok| < |s| ==> s[|tok|] == rest[0];
  }

  lemma PiecesOfToken(tok: string, rest: string)
    requires IsToken(tok) && StartsOutside(rest)
    ensures Pieces(tok + rest) == [tok] + Pieces(rest)
  {
    TokenLenOfToken(tok, rest);
    assert (tok + rest)[..|tok|] == tok && (tok + rest)[|tok|..] == rest;
    assert (tok + rest)[0] == tok[0];
  }

  // ----- What a call computes -----

  function Stars(n: nat): (s: string)
    ensures |s| == n && forall i :: 0 <= i < n ==> s[i] == '*'
  {
    seq(n, _ => '*')
  }

  function Mask(tok: string): string {
    Stars(if |tok| < 3 then |tok| else 3)
  }

  predicate Hit(piece: string, patterns: seq<string>) {
    IsToken(piece) && Secret(piece, patterns)
  }

  /** The first `budget` pieces that hit are masked. */
  function MaskFirst(ps: seq<string>, patterns: seq<string>, budget: nat): seq<string> {
    if ps == [] then []
    else if budget > 0 && Hit(ps[0], patterns) then [Mask(ps[0])] + MaskFirst(ps[1..], patterns, budget - 1)
    else [ps[0]] + MaskFirst(ps[1..], patterns, budget)
  }

  function Redacted(s: string, patterns: seq<string>, budget: nat): string {
    Flatten(MaskFirst(Pieces(s), patterns, budget))
  }

  lemma RedactedOutside(s: string, patterns: seq<string>, budget: nat)
    requires s != [] && !IsTokenChar(s[0])
    ensures Redacted(s, patterns, budget) == [s[0]] + Redacted(s[1..], patterns, budget)
  {
    var ps := Pieces(s[1..]);
    assert Pieces(s) == [[s[0]]] + ps;
    assert Pieces(s)[1..] == ps;
    FlattenCons([s[0]], MaskFirst(ps, patterns, budget));
  }

  lemma RedactedToken(s: string, patterns: seq<string>, budget: nat)
    requires s != [] && IsTokenChar(s[0])
    ensures var n := TokenLen(s);
            Redacted(s, patterns, budget) ==
              if budget > 0 && Secret(s[..n], patterns)
              then Mask(s[..n]) + Redacted(s[n..], patterns, budget - 1)
              else s[..n] + Redacted(s[n..], patterns, budget)
  {
    var n := TokenLen(s);
    var ps := Pieces(s[n..]);
    assert Pieces(s) == [s[..n]] + ps;
    assert Pieces(s)[1..] == ps;
    assert IsToken(s[..n]);
    if budget > 0 && Secret(s[..n], patterns) {
      FlattenCons(Mask(s[..n]), MaskFirst(ps, patterns, budget - 1));
    } else {
      FlattenCons(s[..n], MaskFirst(ps, patterns, budget));
    }
  }

  lemma FlattenCons(p: string, ps: seq<string>)
    ensures Flatten([p] + ps) == p + Flatten(ps)
  {
    assert ([p] + ps)[1..] == ps;
  }

  lemma {:induction false} WithoutBudgetNothingChanges(s: string, patterns: seq<string>)
    ensures Redacted(s, patterns, 0) == s
  {
    PiecesAreMaximal(s);
    NothingMasked(Pieces(s), patterns);
  }

  lemma {:induction false} NothingMasked(ps: seq<string>, patterns: seq<string>)
    ensures MaskFirst(ps, patterns, 0) == ps
  {
    if ps != [] {
      NothingMasked(ps[1..], patterns);
    }
  }

  lemma WithoutPatternsNothingChanges(s: string, budget: nat)
    ensures Redacted(s, [], budget) == s
  {
    PiecesAreMaximal(s);
    NothingHits(Pieces(s), [], budget);
  }

  lemma {:induction false} NothingHits(ps: seq<string>, patterns: seq<string>, budget: nat)
    requires forall i :: 0 <= i < |ps| ==> !Hit(ps[i], patterns)
    ensures MaskFirst(ps, patterns, budget) == ps
  {
    if ps != [] {
      NothingHits(ps[1..], patterns, budget);
    }
  }

  lemma {:induction false} NeverLonger(s: string, patterns: seq<string>, budget: nat)
    ensures |Redacted(s, patterns, budget)| <= |s|
    decreases |s|
  {
    hide Redacted;
    if s == [] {
      RedactedEmpty(patterns, budget);
    } else if !IsTokenChar(s[0]) {
      RedactedOutside(s, patterns, budget);
      NeverLonger(s[1..], patterns, budget);
    } else {
      RedactedToken(s, patterns, budget);
      NeverLonger(s[TokenLen(s)..], patterns, budget);
      if budget > 0 {
        NeverLonger(s[TokenLen(s)..], patterns, budget - 1);
      }
    }
  }

  lemma RedactedEmpty(patterns: seq<string>, budget: nat)
    ensures Redacted([], patterns, budget) == []
  {
  }

  /** How many tokens are secret. */
  function Hits(ps: seq<string>, patterns: seq<string>): nat {
    if ps == [] then 0 else (if Hit(ps[0], patterns) then 1 else 0) + Hits(ps[1..], patterns)
  }

  function HitsOf(s: string, patterns: seq<string>): nat {
    Hits(Pieces(s), patterns)
  }

  lemma HitsOfToken(tok: string, rest: string, patterns: seq<string>)
    requires IsToken(tok) && StartsOutside(rest)
    ensures HitsOf(tok + rest, patterns) == (if Secret(tok, patterns) then 1 else 0) + HitsOf(rest, patterns)
  {
    hide Secret;
    PiecesOfToken(tok, rest);
    assert ([tok] + Pieces(rest))[1..] == Pieces(rest);
  }

  lemma HitsOfOutside(c: char, rest: string, patterns: seq<string>)
    requires !IsTokenChar(c)
    ensures HitsOf([c] + rest, patterns) == HitsOf(rest, patterns)
  {
    hide Secret;
    assert ([c] + rest)[1..] == rest;
    assert Pieces([c] + rest) == [[c]] + Pieces(rest);
    assert !IsToken([c]);
  }

  lemma {:induction false} HitsOfStars(n: nat, rest: string, patterns: seq<string>)
    ensures HitsOf(Stars(n) + rest, patterns) == HitsOf(rest, patterns)
    decreases n
  {
    if n == 0 {
      assert Stars(0) + rest == rest;
    } else {
      assert Stars(n) + rest == ['*'] + (Stars(n - 1) + rest);
      HitsOfOutside('*', Stars(n - 1) + rest, patterns);
      HitsOfStars(n - 1, rest, patterns);
    }
  }

  lemma RedactedStaysOutside(s: string, patterns: seq<string>, budget: nat)
    requires StartsOutside(s)
    ensures StartsOutside(Redacted(s, patterns, budget))
  {
    hide Redacted;
    if s == [] {
      RedactedEmpty(patterns, budget);
    } else {
      RedactedOutside(s, patterns, budget);
    }
  }

  function Excess(n: nat, budget: nat): nat {
    if n <= budget then 0 else n - budget
  }

  /** What is left to redact is exactly what exceeded the budget. */
  lemma {:induction false} HitsAfter(s: string, patterns: seq<string>, budget: nat)
    ensures HitsOf(Redacted(s, patterns, budget), patterns) == Excess(HitsOf(s, patterns), budget)
    decreases |s|
  {
    hide Redacted, HitsOf, Secret, Mask;
    if s == [] {
      RedactedEmpty(patterns, budget);
      NoHitsInEmpty(patterns);
    } else if !IsTokenChar(s[0]) {
      RedactedOutside(s, patterns, budget);
      HitsAfter(s[1..], patterns, budget);
      assert s == [s[0]] + s[1..];
      HitsOfOutside(s[0], s[1..], patterns);
      HitsOfOutside(s[0], Redacted(s[1..], patterns, budget), patterns);
    } else {
      HitsAfterToken(s, patterns, budget);
      HitsAfter(s[TokenLen(s)..], patterns, budget);
      if budget > 0 {
        HitsAfter(s[TokenLen(s)..], patterns, budget - 1);
      }
    }
  }

  lemma NoHitsInEmpty(patterns: seq<string>)
    ensures HitsOf([], patterns) == 0
  {
  }

  lemma HitsAfterToken(s: string, patterns: seq<string>, budget: nat)
    requires s != [] && IsTokenChar(s[0])
    ensures TokenLen(s) > 0
    ensures var tok, rest := s[..TokenLen(s)], s[TokenLen(s)..];
            && HitsOf(s, patterns) == (if Secret(tok, patterns) then 1 else 0) + HitsOf(rest, patterns)
            && HitsOf(Redacted(s, patterns, budget), patterns) ==
               if budget > 0 && Secret(tok, patterns) then HitsOf(Redacted(rest, patterns, budget - 1), patterns)
               else (if Secret(tok, patterns) then 1 else 0) + HitsOf(Redacted(rest, patterns, budget), patterns)
  {
    hide Redacted, HitsOf, Secret;
    var tok, rest := s[..TokenLen(s)], s[TokenLen(s)..];
    assert s == tok + rest && IsToken(tok);
    HitsOfToken(tok, rest, patterns);
    RedactedToken(s, patterns, budget);
    if budget > 0 && Secret(tok, patterns) {
      HitsOfStars(if |tok| < 3 then |tok| else 3, Redacted(rest, patterns, budget - 1), patterns);
    } else {
      RedactedStaysOutside(rest, patterns, budget);
      HitsOfToken(tok, Redacted(rest, patterns, budget), patterns);
    }
  }

  /** No maximal token of the text is secret. */
  predicate Clean(s: string, patterns: seq<string>) {
    forall i :: 0 <= i < |Pieces(s)| ==> !Hit(Pieces(s)[i], patterns)
  }

  lemma {:induction false} NoHitsIff(ps: seq<string>, patterns: seq<string>)
    ensures Hits(ps, patterns) == 0 <==> forall i :: 0 <= i < |ps| ==> !Hit(ps[i], patterns)
  {
    hide Hit;
    if ps != [] {
      NoHitsIff(ps[1..], patterns);
      if forall i :: 0 <= i < |ps| ==> !Hit(ps[i], patterns) {
        assert forall i :: 0 <= i < |ps[1..]| ==> !Hit(ps[1..][i], patterns);
      } else if !Hit(ps[0], patterns) {
        var i :| 0 <= i < |ps| && Hit(ps[i], patterns);
        assert ps[1..][i - 1] == ps[i];
      }
    }
  }

  /** A call leaves no secret token if and only if at most 64 tokens were secret. */
  lemma CleanIff(s: string, patterns: seq<string>)
    ensures Clean(Redacted(s, patterns, REPLACEMENTS_MAX), patterns) <==> HitsOf(s, patterns) <= REPLACEMENTS_MAX
  {
    hide Redacted, Hit;
    HitsAfter(s, patterns, REPLACEMENTS_MAX);
    NoHitsIff(Pieces(Redacted(s, patterns, REPLACEMENTS_MAX)), patterns);
  }

  lemma CleanIsKept(s: string, patterns: seq<string>, budget: nat)
    requires HitsOf(s, patterns) == 0
    ensures Redacted(s, patterns, budget) == s
  {
    hide Hit;
    NoHitsIff(Pieces(s), patterns);
    NothingHits(Pieces(s), patterns, budget);
    PiecesAreMaximal(s);
  }

  lemma {:induction false} SecretsChange(s: string, patterns: seq<string>, budget: nat)
    requires HitsOf(s, patterns) > 0 && budget > 0
    ensures Redacted(s, patterns, budget) != s
    decreases |s|
  {
    hide Redacted, HitsOf, Secret, Mask;
    if s == [] {
      NoHitsInEmpty(patterns);
    } else if !IsTokenChar(s[0]) {
      assert s == [s[0]] + s[1..];
      HitsOfOutside(s[0], s[1..], patterns);
      RedactedOutside(s, patterns, budget);
      SecretsChange(s[1..], patterns, budget);
      assert ([s[0]] + Redacted(s[1..], patterns, budget))[1..] == Redacted(s[1..], patterns, budget);
    } else {
      SecretTokenChanges(s, patterns, budget);
      if !Secret(s[..TokenLen(s)], patterns) {
        HitsAfterToken(s, patterns, budget);
        var tok, rest := s[..TokenLen(s)], s[TokenLen(s)..];
        SecretsChange(rest, patterns, budget);
        RedactedToken(s, patterns, budget);
        assert (tok + Redacted(rest, patterns, budget))[|tok|..] == Redacted(rest, patterns, budget);
      }
    }
  }

  lemma SecretTokenChanges(s: string, patterns: seq<string>, budget: nat)
    requires s != [] && IsTokenChar(s[0]) && budget > 0
    ensures Secret(s[..TokenLen(s)], patterns) ==> Redacted(s, patterns, budget) != s
  {
    hide Redacted, Secret;
    var n := TokenLen(s);
    if Secret(s[..n], patterns) {
      RedactedToken(s, patterns, budget);
      assert Mask(s[..n])[0] == '*';
      assert Redacted(s, patterns, budget)[0] == '*';
    }
  }

  /** A second call changes nothing if and only if at most 64 tokens were secret. */
  lemma IdempotentIff(s: string, patterns: seq<string>)
    ensures var once := Redacted(s, patterns, REPLACEMENTS_MAX);
            Redacted(once, patterns, REPLACEMENTS_MAX) == once <==> HitsOf(s, patterns) <= REPLACEMENTS_MAX
  {
    hide Redacted, HitsOf;
    var once := Redacted(s, patterns, REPLACEMENTS_MAX);
    HitsAfter(s, patterns, REPLACEMENTS_MAX);
    if HitsOf(once, patterns) == 0 {
      CleanIsKept(once, patterns, REPLACEMENTS_MAX);
    } else {
      SecretsChange(once, patterns, REPLACEMENTS_MAX);
    }
  }

  // ----- In place -----

  /** The buffer holds `text` and a terminator. */
  ghost predicate Holds(bytes: seq<char>, text: string) {
    |text| < |bytes| && bytes[..|text|] == text && bytes[|text|] == '\0' && IsCString(text)
  }

  /** Move `n` characters from `source` down to `target`. */
  method ShiftDown(buf: array<char>, target: nat, source: nat, n: nat)
    requires target < source && source + n <= buf.Length
    modifies buf
    ensures forall k :: target <= k < target + n ==> buf[k] == old(buf[source + (k - target)])
    ensures forall k :: 0 <= k < target || target + n <= k < buf.Length ==> buf[k] == old(buf[k])
  {
    var j: nat := 0;
    while j < n
      invariant j <= n
      invariant forall k :: target <= k < target + j ==> buf[k] == old(buf[source + (k - target)])
      invariant forall k :: 0 <= k < target || target + j <= k < buf.Length ==> buf[k] == old(buf[k])
    {
      buf[target + j] := buf[source + j];
      j := j + 1;
    }
  }

  method FillStars(buf: array<char>, at: nat, n: nat)
    requires at + n <= buf.Length
    modifies buf
    ensures forall k :: at <= k < at + n ==> buf[k] == '*'
    ensures forall k :: 0 <= k < at || at + n <= k < buf.Length ==> buf[k] == old(buf[k])
  {
    var j: nat := 0;
    while j < n
      invariant j <= n
      invariant forall k :: at <= k < at + j ==> buf[k] == '*'
      invariant forall k :: 0 <= k < at || at + j <= k < buf.Length ==> buf[k] == old(buf[k])
    {
      buf[at + j] := '*';
      j := j + 1;
    }
  }

  method StrLen(buf: array<char>, from: nat, ghost text: string) returns (n: nat)
    requires Holds(buf[..], text) && from <= |text|
    ensures from + n == |text|
  {
    n := 0;
    while buf[from + n] != '\0'
      invariant from + n <= |text|
      decreases |text| - n
    {
      assert buf[..][from + n] == buf[from + n];
      assert from + n < |text| ==> text[from + n] == buf[from + n];
      n := n + 1;
    }
  }

  /** Overwrite the token at `tok..cur` and close the gap; nothing after the old terminator is written. */
  method MaskToken(buf: array<char>, tok: nat, cur: nat, ghost text: string) returns (next: nat)
    requires Holds(buf[..], text) && tok < cur <= |text|
    modifies buf
    ensures next <= cur && next == tok + Reps(cur - tok)
    ensures Holds(buf[..], text[..tok] + Mask(text[tok..cur]) + text[cur..])
    ensures forall k :: |text| < k < buf.Length ==> buf[k] == old(buf[k])
  {
    var reps := if cur - tok < 3 then cur - tok else 3;
    ghost var before := buf[..];
    if reps < cur - tok {
      var tail := StrLen(buf, cur, text);
      ShiftDown(buf, tok + reps, cur, tail + 1);
    }
    assert forall k :: tok + reps <= k <= tok + reps + (|text| - cur) ==> buf[k] == before[cur + (k - (tok + reps))];
    FillStars(buf, tok, reps);
    next := tok + reps;
    ghost var result := text[..tok] + Mask(text[tok..cur]) + text[cur..];
    MaskedHolds(before, buf[..], text, tok, cur, reps);
  }

  lemma MaskedHolds(before: seq<char>, after: seq<char>, text: string, tok: nat, cur: nat, reps: nat)
    requires Holds(before, text) && tok < cur <= |text| && |after| == |before|
    requires reps == if cur - tok < 3 then cur - tok else 3
    requires forall k :: 0 <= k < tok ==> after[k] == before[k]
    requires forall k :: tok <= k < tok + reps ==> after[k] == '*'
    requires forall k :: tok + reps <= k <= tok + reps + (|text| - cur) ==> after[k] == before[cur + (k - (tok + reps))]
    ensures Holds(after, text[..tok] + Mask(text[tok..cur]) + text[cur..])
  {
    var result := text[..tok] + Mask(text[tok..cur]) + text[cur..];
    assert forall k :: 0 <= k < |text| ==> before[k] == text[k];
    assert |result| == tok + reps + (|text| - cur);
    forall k | 0 <= k < |result| ensures after[k] == result[k] {
    }
    assert after[..|result|] == result;
  }

  method FindSecret(tok: string, patterns: seq<string>) returns (hit: bool)
    ensures hit == Secret(tok, patterns)
  {
    hide Matches, StarItems;
    for p := 0 to |patterns|
      invariant forall i :: 0 <= i < p ==> !Denoted(tok, patterns[i])
    {
      hit := GlobWhole(tok, patterns[p]);
      if hit {
        assert Denoted(tok, patterns[p]);
        return;
      }
    }
    hit := false;
  }

  /** The end of the token that starts at `at`. */
  method TokenEnd(buf: array<char>, at: nat, ghost text: string) returns (cur: nat)
    requires Holds(buf[..], text) && at <= |text|
    ensures at <= cur <= |text| && cur - at == TokenLen(text[at..])
  {
    cur := at;
    while IsTokenChar(buf[cur])
      invariant at <= cur <= |text|
      invariant forall k :: at <= k < cur ==> IsTokenChar(text[k])
      decreases |text| - cur
    {
      assert buf[..][cur] == buf[cur];
      assert cur < |text| ==> text[cur] == buf[cur];
      cur := cur + 1;
    }
    assert cur < |text| ==> text[cur] == buf[..][cur];
    ghost var tok, rest := text[at..cur], text[cur..];
    assert text[at..] == tok + rest;
    if at < cur {
      TokenLenOfToken(tok, rest);
    }
  }

  /** The buffer ends up holding the redacted text, and nothing after the old terminator is written. */
  method Apply(buf: array?<char>, patterns: seq<string>, ghost text: string)
    requires buf != null ==> Holds(buf[..], text)
    modifies buf
    ensures buf != null ==> Holds(buf[..], Redacted(text, patterns, REPLACEMENTS_MAX))
    ensures buf != null ==> forall k :: |text| < k < buf.Length ==> buf[k] == old(buf[k])
  {
    hide Redacted, Secret, Mask;
    if buf == null || |patterns| == 0 {
      WithoutPatternsNothingChanges(text, REPLACEMENTS_MAX);
      return;
    }
    var budget := REPLACEMENTS_MAX;
    var cur: nat := 0;
    ghost var now := text;
    while buf[cur] != '\0' && budget > 0
      invariant budget >= 0 && cur <= |now| <= |text|
      invariant Holds(buf[..], now)
      invariant now[..cur] + Redacted(now[cur..], patterns, budget) == Redacted(text, patterns, REPLACEMENTS_MAX)
      invariant forall k :: |text| < k < buf.Length ==> buf[k] == old(buf[k])
      decreases |now| - cur
    {
      InText(buf[..], now, cur);
      if !IsTokenChar(buf[cur]) {
        SkipOne(now, cur, patterns, budget);
        cur := cur + 1;
        continue;
      }
      var tok := cur;
      cur := TokenEnd(buf, tok, now);
      ReadBack(buf[..], now, tok, cur);
      var hit := FindSecret(buf[tok..cur], patterns);
      SkipToken(now, tok, cur, patterns, budget);
      if hit {
        ghost var was := now;
        now := now[..tok] + Mask(now[tok..cur]) + now[cur..];
        cur := MaskToken(buf, tok, cur, was);
        budget := budget - 1;
      }
    }
    Finish(buf[..], now, cur, patterns, budget);
  }

  lemma InText(bytes: seq<char>, text: string, i: nat)
    requires Holds(bytes, text) && i <= |text| && bytes[i] != '\0'
    ensures i < |text| && text[i] == bytes[i]
  {
  }

  lemma ReadBack(bytes: seq<char>, text: string, a: nat, b: nat)
    requires Holds(bytes, text) && a <= b <= |text|
    ensures bytes[a..b] == text[a..b]
  {
    assert forall k :: a <= k < b ==> bytes[..|text|][k] == text[k];
  }

  lemma SkipOne(text: string, cur: nat, patterns: seq<string>, budget: nat)
    requires cur < |text| && !IsTokenChar(text[cur])
    ensures text[..cur] + Redacted(text[cur..], patterns, budget)
         == text[..cur + 1] + Redacted(text[cur + 1..], patterns, budget)
  {
    hide Redacted;
    RedactedOutside(text[cur..], patterns, budget);
    assert text[cur..][1..] == text[cur + 1..];
    assert text[..cur + 1] == text[..cur] + [text[cur]];
  }

  function Reps(n: nat): nat {
    if n < 3 then n else 3
  }

  lemma SkipToken(text: string, tok: nat, cur: nat, patterns: seq<string>, budget: nat)
    requires tok <= cur <= |text| && tok < |text| && IsTokenChar(text[tok])
    requires cur - tok == TokenLen(text[tok..]) && budget > 0
    ensures tok < cur
    ensures !Secret(text[tok..cur], patterns) ==>
              text[..tok] + Redacted(text[tok..], patterns, budget)
              == text[..cur] + Redacted(text[cur..], patterns, budget)
    ensures Secret(text[tok..cur], patterns) ==>
              var masked := text[..tok] + Mask(text[tok..cur]) + text[cur..];
              var next := tok + Reps(cur - tok);
              && next <= |masked| <= |text| && |masked| - next == |text| - cur
              && text[..tok] + Redacted(text[tok..], patterns, budget)
                 == masked[..next] + Redacted(masked[next..], patterns, budget - 1)
  {
    hide Redacted, Secret;
    var head, word, rest := text[..tok], text[tok..cur], text[cur..];
    assert text[tok..][..cur - tok] == word && text[tok..][cur - tok..] == rest;
    RedactedToken(text[tok..], patterns, budget);
    assert text[..cur] == head + word;
    if Secret(word, patterns) {
      var masked := head + Mask(word) + rest;
      var next := tok + Reps(cur - tok);
      assert masked[..next] == head + Mask(word) && masked[next..] == rest;
      Assoc(head, Mask(word), Redacted(rest, patterns, budget - 1));
    } else {
      Assoc(head, word, Redacted(rest, patterns, budget));
    }
  }

  lemma Finish(bytes: seq<char>, text: string, cur: nat, patterns: seq<string>, budget: nat)
    requires Holds(bytes, text) && cur <= |text|
    requires bytes[cur] == '\0' || budget == 0
    ensures text[..cur] + Redacted(text[cur..], patterns, budget) == text
  {
    hide Redacted;
    if budget == 0 {
      WithoutBudgetNothingChanges(text[cur..], patterns);
    } else {
      assert text[cur..] == [];
      RedactedEmpty(patterns, budget);
    }
    assert text[..cur] + text[cur..] == text;
  }
}
