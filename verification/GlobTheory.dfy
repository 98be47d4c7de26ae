/**
 Wildcard languages, shared by the two glob matchers of the program.

 A pattern is a sequence of items; `Run` is the only item that may take any
 number of characters. `Matches` says which texts a pattern denotes. Its
 `starIsLiteral` flag distinguishes the ordinary meaning (false) from a variant in which a
 run that meets a `*` in the text takes exactly that character: the latter is what a
 matcher computes when it tests for equal characters before it tests for a wildcard.
 */
module GlobTheory {

  datatype Item =
    | Run
    | One
    | Lit(c: char)
    | Class(negate: bool, ranges: seq<(char, char)>)

  predicate InRanges(ranges: seq<(char, char)>, c: char) {
    exists i | 0 <= i < |ranges| :: ranges[i].0 <= c <= ranges[i].1
  }

  /** Whether a single-character item takes `c`; a run is not such an item. */
  predicate Accepts(item: Item, c: char) {
    match item
    case Run => false
    case One => true
    case Lit(d) => c == d
    case Class(negate, ranges) => InRanges(ranges, c) != negate
  }

  /** The items from `i` on denote the text from `j` on. */
  predicate Matches(starIsLiteral: bool, items: seq<Item>, i: nat, text: string, j: nat)
    requires i <= |items| && j <= |text|
    decreases |items| - i, |text| - j, 0
  {
    if i == |items| then
      j == |text|
    else if items[i].Run? then
      if starIsLiteral && j < |text| && text[j] == '*' then
        Matches(starIsLiteral, items, i + 1, text, j + 1)
      else
        MatchesLater(starIsLiteral, items, i + 1, text, j)
    else
      j < |text| && Accepts(items[i], text[j]) && Matches(starIsLiteral, items, i + 1, text, j + 1)
  }

  /** The items from `i` on denote the text from some position at or after `j`. */
  predicate MatchesLater(starIsLiteral: bool, items: seq<Item>, i: nat, text: string, j: nat)
    requires i <= |items| && j <= |text|
    decreases |items| - i, |text| - j, 1
  {
    || Matches(starIsLiteral, items, i, text, j)
    || (j < |text| && MatchesLater(starIsLiteral, items, i, text, j + 1))
  }

  /** `MatchesLater` is the existential its name promises. */
  lemma {:induction false} LaterIsSomewhere(starIsLiteral: bool, items: seq<Item>, i: nat, text: string, j: nat)
    requires i <= |items| && j <= |text|
    ensures MatchesLater(starIsLiteral, items, i, text, j)
       <==> exists k :: j <= k <= |text| && Matches(starIsLiteral, items, i, text, k)
    decreases |text| - j
  {
    if Matches(starIsLiteral, items, i, text, j) {
      assert MatchesLater(starIsLiteral, items, i, text, j);
    } else if j < |text| {
      LaterIsSomewhere(starIsLiteral, items, i, text, j + 1);
    }
  }

  lemma {:induction false} LaterFrom(starIsLiteral: bool, items: seq<Item>, i: nat, text: string, j: nat, k: nat)
    requires i <= |items| && j <= k <= |text|
    requires Matches(starIsLiteral, items, i, text, k)
    ensures MatchesLater(starIsLiteral, items, i, text, j)
    decreases k - j
  {
    if j < k {
      LaterFrom(starIsLiteral, items, i, text, j + 1, k);
    }
  }

  // ----- Why only the most recent run needs to be retried -----

  /** The item takes exactly this one character when scanned without backtracking. */
  predicate Fits(starIsLiteral: bool, item: Item, c: char) {
    if item.Run? then starIsLiteral && c == '*' else Accepts(item, c)
  }

  /** Items `i..i+n` were laid one by one over the text from `a` on. */
  ghost predicate Aligned(starIsLiteral: bool, items: seq<Item>, i: nat, text: string, a: nat, n: nat) {
    && i + n <= |items|
    && a + n <= |text|
    && forall k :: i <= k < i + n ==> Fits(starIsLiteral, items[k], text[a + (k - i)])
  }

  /**
   If the items `i..i+n` fit the text at `a` one by one, then every other way to match them,
   started at `j >= a`, gets past them no earlier than `a + n`.
   */
  lemma {:induction false} NoEarlierLanding(
      starIsLiteral: bool, items: seq<Item>, i: nat, text: string, a: nat, n: nat, j: nat) returns (k: nat)
    requires Aligned(starIsLiteral, items, i, text, a, n)
    requires a <= j <= |text|
    requires Matches(starIsLiteral, items, i, text, j)
    ensures a + n <= k <= |text|
    ensures Matches(starIsLiteral, items, i + n, text, k)
    decreases n
  {
    if n == 0 {
      return j;
    }
    assert Fits(starIsLiteral, items[i], text[a]);
    var next := j + 1;
    if items[i].Run? && !(j < |text| && text[j] == '*') {
      LaterIsSomewhere(starIsLiteral, items, i + 1, text, j);
      next :| j <= next <= |text| && Matches(starIsLiteral, items, i + 1, text, next);
    }
    k := NoEarlierLanding(starIsLiteral, items, i + 1, text, a + 1, n - 1, next);
  }

  /** A run reached after an aligned stretch subsumes every retry of the run before the stretch. */
  lemma LastRunSubsumes(starIsLiteral: bool, items: seq<Item>, i: nat, text: string, a: nat, n: nat)
    requires Aligned(starIsLiteral, items, i, text, a, n)
    requires i + n < |items| && items[i + n].Run?
    requires a < |text|
    requires MatchesLater(starIsLiteral, items, i, text, a + 1)
    ensures MatchesLater(starIsLiteral, items, i + n + 1, text, a + n)
  {
    LaterIsSomewhere(starIsLiteral, items, i, text, a + 1);
    var j :| a + 1 <= j <= |text| && Matches(starIsLiteral, items, i, text, j);
    var k := NoEarlierLanding(starIsLiteral, items, i, text, a, n, j);
    if starIsLiteral && k < |text| && text[k] == '*' {
      LaterFrom(starIsLiteral, items, i + n + 1, text, a + n, k + 1);
    } else {
      LaterIsSomewhere(starIsLiteral, items, i + n + 1, text, k);
      var m :| k <= m <= |text| && Matches(starIsLiteral, items, i + n + 1, text, m);
      LaterFrom(starIsLiteral, items, i + n + 1, text, a + n, m);
    }
  }

  /** Once an aligned stretch reaches the end of the text, retrying the run before it cannot help. */
  lemma AlignedToEndIsFinal(starIsLiteral: bool, items: seq<Item>, i: nat, text: string, a: nat, n: nat)
    requires Aligned(starIsLiteral, items, i, text, a, n)
    requires a < |text| && a + n == |text|
    requires MatchesLater(starIsLiteral, items, i, text, a + 1)
    ensures Matches(starIsLiteral, items, i + n, text, |text|)
  {
    LaterIsSomewhere(starIsLiteral, items, i, text, a + 1);
    var j :| a + 1 <= j <= |text| && Matches(starIsLiteral, items, i, text, j);
    var k := NoEarlierLanding(starIsLiteral, items, i, text, a, n, j);
  }

  // ----- The variant against the ordinary meaning -----

  /** Reading a star literally never matches more. */
  lemma {:induction false} LiteralStarIsSound(items: seq<Item>, i: nat, text: string, j: nat)
    requires i <= |items| && j <= |text|
    requires Matches(true, items, i, text, j)
    ensures Matches(false, items, i, text, j)
    decreases |items| - i
  {
    if i < |items| {
      if items[i].Run? && !(j < |text| && text[j] == '*') {
        LaterIsSomewhere(true, items, i + 1, text, j);
        var k :| j <= k <= |text| && Matches(true, items, i + 1, text, k);
        LiteralStarIsSound(items, i + 1, text, k);
        LaterFrom(false, items, i + 1, text, j, k);
      } else {
        LiteralStarIsSound(items, i + 1, text, j + 1);
        if items[i].Run? {
          LaterFrom(false, items, i + 1, text, j, j + 1);
        }
      }
    }
  }

  /** On a text without `*` there is nothing to read literally. */
  lemma {:induction false} StarFreeAgrees(items: seq<Item>, i: nat, text: string, j: nat)
    requires i <= |items| && j <= |text|
    requires '*' !in text
    ensures Matches(true, items, i, text, j) == Matches(false, items, i, text, j)
    decreases |items| - i
  {
    if Matches(false, items, i, text, j) && i < |items| {
      if items[i].Run? {
        LaterIsSomewhere(false, items, i + 1, text, j);
        var k :| j <= k <= |text| && Matches(false, items, i + 1, text, k);
        StarFreeAgrees(items, i + 1, text, k);
        LaterFrom(true, items, i + 1, text, j, k);
      } else {
        StarFreeAgrees(items, i + 1, text, j + 1);
      }
    }
    if Matches(true, items, i, text, j) {
      LiteralStarIsSound(items, i, text, j);
    }
  }
}
