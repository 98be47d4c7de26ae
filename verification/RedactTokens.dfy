/**
 What redaction does to each token, stated on the patterns and on any cut of the text into maximal tokens: which
 tokens become stars, which keep their bytes, and what is left for a reader of the log.
 */
module RedactTokens {
  import opened Common
  import opened GlobTheory
  import opened Redact

  /** Letters, digits and nine signs make up tokens. */
  lemma TokenCharsAre(c: char)
    ensures IsTokenChar(c) <==>
            || c in "abcdefghijklmnopqrstuvwxyz" || c in "ABCDEFGHIJKLMNOPQRSTUVWXYZ"
            || c in "0123456789" || c in "_=.:+@%~-"
  {
    LowerCase(c);
    UpperCase(c);
    DigitChars(c);
    var signs := "_=.:+@%~-";
    assert c in signs <==> c == signs[0] || c == signs[1] || c == signs[2] || c == signs[3] || c == signs[4]
                           || c == signs[5] || c == signs[6] || c == signs[7] || c == signs[8];
  }

  // ----- Patterns -----

  /** The pieces, laid end to end, are the token: a star takes any piece, any other character takes itself. */
  ghost predicate Fills(pattern: string, pieces: seq<string>, tok: string) {
    if pattern == [] then pieces == [] && tok == []
    else
      && pieces != [] && pieces[0] <= tok
      && (pattern[0] == '*' || pieces[0] == [pattern[0]])
      && Fills(pattern[1..], pieces[1..], tok[|pieces[0]|..])
  }

  ghost predicate CanFill(pattern: string, tok: string) {
    exists pieces :: Fills(pattern, pieces, tok)
  }

  lemma FillPiece(pattern: string, tok: string, k: nat)
    requires pattern != [] && k <= |tok| && CanFill(pattern[1..], tok[k..])
    requires pattern[0] == '*' || tok[..k] == [pattern[0]]
    ensures CanFill(pattern, tok)
  {
    var more :| Fills(pattern[1..], more, tok[k..]);
    var pieces := [tok[..k]] + more;
    assert pieces[1..] == more;
    assert Fills(pattern, pieces, tok);
  }

  /** The first character of a pattern and its piece. */
  lemma FillFirst(pattern: string, tok: string)
    requires pattern != []
    ensures CanFill(pattern, tok) <==>
            if pattern[0] == '*' then exists k :: 0 <= k <= |tok| && CanFill(pattern[1..], tok[k..])
            else tok != [] && tok[0] == pattern[0] && CanFill(pattern[1..], tok[1..])
  {
    if pieces :| Fills(pattern, pieces, tok) {
      assert Fills(pattern[1..], pieces[1..], tok[|pieces[0]|..]);
      assert CanFill(pattern[1..], tok[|pieces[0]|..]);
    }
    if pattern[0] == '*' {
      if k :| 0 <= k <= |tok| && CanFill(pattern[1..], tok[k..]) {
        FillPiece(pattern, tok, k);
      }
    } else if tok != [] && tok[0] == pattern[0] && CanFill(pattern[1..], tok[1..]) {
      assert tok[..1] == [pattern[0]];
      FillPiece(pattern, tok, 1);
    }
  }

  lemma NothingToFill(tok: string)
    ensures CanFill([], tok) <==> tok == []
  {
    if tok == [] {
      assert Fills([], [], tok);
    }
  }

  lemma {:induction false} MatchFills(pattern: string, i: nat, tok: string, j: nat)
    requires i <= |pattern| && j <= |tok|
    ensures Matches(false, StarItems(pattern), i, tok, j) <==> CanFill(pattern[i..], tok[j..])
    decreases |pattern| - i, 1
  {
    hide CanFill;
    if i == |pattern| {
      assert pattern[i..] == [];
      NothingToFill(tok[j..]);
    } else {
      FillFirst(pattern[i..], tok[j..]);
      assert pattern[i..][0] == pattern[i] && pattern[i..][1..] == pattern[i + 1..];
      assert j < |tok| ==> tok[j..][0] == tok[j] && tok[j..][1..] == tok[j + 1..];
      if pattern[i] == '*' {
        StarFills(pattern, i, tok, j);
      } else if j < |tok| {
        MatchFills(pattern, i + 1, tok, j + 1);
      }
    }
  }

  lemma {:induction false} StarFills(pattern: string, i: nat, tok: string, j: nat)
    requires i < |pattern| && pattern[i] == '*' && j <= |tok|
    ensures Matches(false, StarItems(pattern), i, tok, j)
       <==> exists k :: 0 <= k <= |tok[j..]| && CanFill(pattern[i + 1..], tok[j..][k..])
    decreases |pattern| - i, 0
  {
    hide CanFill;
    var items, n: nat, rest := StarItems(pattern), i + 1, tok[j..];
    LaterIsSomewhere(false, items, n, tok, j);
    assert Matches(false, items, i, tok, j) == MatchesLater(false, items, n, tok, j);
    forall k: nat | j <= k <= |tok|
      ensures Matches(false, items, n, tok, k) <==> CanFill(pattern[n..], rest[k - j..])
    {
      MatchFills(pattern, n, tok, k);
      assert rest[k - j..] == tok[k..];
    }
    hide Matches, MatchesLater;
    if k: nat :| j <= k <= |tok| && Matches(false, items, n, tok, k) {
      assert CanFill(pattern[n..], rest[k - j..]);
    }
    if k: nat :| k <= |rest| && CanFill(pattern[n..], rest[k..]) {
      var m: nat := j + k;
      assert rest[m - j..] == rest[k..];
      LaterFrom(false, items, n, tok, j, m);
    }
  }

  /** A pattern denotes the tokens that its characters can be laid over. */
  lemma PatternMeans(pattern: string, tok: string)
    ensures Denoted(tok, pattern) <==> CanFill(pattern, tok)
  {
    MatchFills(pattern, 0, tok, 0);
    assert pattern[0..] == pattern && tok[0..] == tok;
  }

  // ----- Tokens -----

  /** Some pattern matches the whole token. */
  ghost predicate IsNamed(tok: string, patterns: seq<string>) {
    exists pattern :: pattern in patterns && CanFill(pattern, tok)
  }

  /** The places among the first `n` where a token is named. */
  ghost function NamedPlaces(ps: seq<string>, patterns: seq<string>, n: nat): set<nat>
    requires n <= |ps|
  {
    set j: nat | j < n && IsToken(ps[j]) && IsNamed(ps[j], patterns)
  }

  lemma SecretIsNamed(tok: string, patterns: seq<string>)
    ensures Secret(tok, patterns) <==> IsNamed(tok, patterns)
  {
    hide Denoted, CanFill;
    if i :| 0 <= i < |patterns| && Denoted(tok, patterns[i]) {
      PatternMeans(patterns[i], tok);
      assert patterns[i] in patterns;
    }
    if pattern :| pattern in patterns && CanFill(pattern, tok) {
      PatternMeans(pattern, tok);
      var i :| 0 <= i < |patterns| && patterns[i] == pattern;
      assert Denoted(tok, patterns[i]);
    }
  }

  lemma {:induction false} HitsSnoc(ps: seq<string>, p: string, patterns: seq<string>)
    ensures Hits(ps + [p], patterns) == Hits(ps, patterns) + (if Hit(p, patterns) then 1 else 0)
    decreases |ps|
  {
    hide Hit;
    if ps == [] {
      assert ([] + [p])[1..] == [] && ps + [p] == [p];
    } else {
      assert (ps + [p])[0] == ps[0] && (ps + [p])[1..] == ps[1..] + [p];
      HitsSnoc(ps[1..], p, patterns);
    }
  }

  lemma {:induction false} HitsCount(ps: seq<string>, patterns: seq<string>, n: nat)
    requires n <= |ps|
    ensures Hits(ps[..n], patterns) == |NamedPlaces(ps, patterns, n)|
    decreases n
  {
    hide IsNamed, Secret, IsToken;
    if n == 0 {
      assert NamedPlaces(ps, patterns, 0) == {};
    } else {
      HitsCount(ps, patterns, n - 1);
      SecretIsNamed(ps[n - 1], patterns);
      assert ps[..n] == ps[..n - 1] + [ps[n - 1]];
      HitsSnoc(ps[..n - 1], ps[n - 1], patterns);
      var before, now := NamedPlaces(ps, patterns, n - 1), NamedPlaces(ps, patterns, n);
      if Hit(ps[n - 1], patterns) {
        assert now == before + {n - 1};
      } else {
        assert now == before;
      }
    }
  }

  lemma {:induction false} MaskedAt(ps: seq<string>, patterns: seq<string>, budget: nat, k: nat)
    requires k < |ps|
    ensures |MaskFirst(ps, patterns, budget)| == |ps|
    ensures MaskFirst(ps, patterns, budget)[k]
         == if Hit(ps[k], patterns) && Hits(ps[..k], patterns) < budget then Mask(ps[k]) else ps[k]
    decreases |ps|
  {
    hide Hit, Mask;
    var now := budget > 0 && Hit(ps[0], patterns);
    var left := if now then budget - 1 else budget;
    if k == 0 {
      if |ps| > 1 {
        MaskedAt(ps[1..], patterns, left, 0);
      }
    } else {
      MaskedAt(ps[1..], patterns, left, k - 1);
      assert ps[..k][0] == ps[0] && ps[..k][1..] == ps[1..][..k - 1];
    }
  }

  /** Token by token: masked if some pattern names it and fewer than 64 named tokens came before, else kept. */
  ghost predicate Decided(ps: seq<string>, patterns: seq<string>, qs: seq<string>) {
    && |qs| == |ps|
    && forall k :: 0 <= k < |ps| ==>
         if IsToken(ps[k]) && IsNamed(ps[k], patterns) && |NamedPlaces(ps, patterns, k)| < 64
         then |qs[k]| == (if |ps[k]| < 3 then |ps[k]| else 3) && forall i :: 0 <= i < |qs[k]| ==> qs[k][i] == '*'
         else qs[k] == ps[k]
  }

  /** However the text is cut into maximal tokens, the redacted text is the same cut with each token decided. */
  lemma EveryTokenIsDecided(ps: seq<string>, patterns: seq<string>) returns (qs: seq<string>)
    requires Maximal(ps)
    ensures Redacted(Flatten(ps), patterns, REPLACEMENTS_MAX) == Flatten(qs) && Decided(ps, patterns, qs)
  {
    MaximalIsUnique(ps);
    qs := MaskFirst(ps, patterns, REPLACEMENTS_MAX);
    hide Maximal, Pieces, IsNamed, Secret, IsToken, NamedPlaces, MaskFirst;
    if ps == [] {
      NothingHits(ps, patterns, REPLACEMENTS_MAX);
    } else {
      MaskedAt(ps, patterns, REPLACEMENTS_MAX, 0);
    }
    forall k | 0 <= k < |ps|
      ensures if IsToken(ps[k]) && IsNamed(ps[k], patterns) && |NamedPlaces(ps, patterns, k)| < 64
              then |qs[k]| == (if |ps[k]| < 3 then |ps[k]| else 3) && forall i :: 0 <= i < |qs[k]| ==> qs[k][i] == '*'
              else qs[k] == ps[k]
    {
      MaskedAt(ps, patterns, REPLACEMENTS_MAX, k);
      HitsCount(ps, patterns, k);
      SecretIsNamed(ps[k], patterns);
    }
  }

  /** A maximal token that some pattern names is left in the redacted text if and only if there were more than 64. */
  lemma NamedTokensLeftIff(ps: seq<string>, patterns: seq<string>, qs: seq<string>)
    requires Maximal(ps) && Maximal(qs) && Flatten(qs) == Redacted(Flatten(ps), patterns, REPLACEMENTS_MAX)
    ensures (exists k :: 0 <= k < |qs| && IsToken(qs[k]) && IsNamed(qs[k], patterns))
       <==> |NamedPlaces(ps, patterns, |ps|)| > 64
  {
    MaximalIsUnique(ps);
    MaximalIsUnique(qs);
    hide Maximal, Pieces, IsNamed, Secret, IsToken, NamedPlaces, Redacted, Flatten;
    CleanIff(Flatten(ps), patterns);
    HitsCount(ps, patterns, |ps|);
    assert ps[..|ps|] == ps;
    forall k | 0 <= k < |qs| ensures Hit(qs[k], patterns) <==> IsToken(qs[k]) && IsNamed(qs[k], patterns) {
      SecretIsNamed(qs[k], patterns);
    }
  }
}
