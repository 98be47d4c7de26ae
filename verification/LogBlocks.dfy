/**
 What the scanner cuts out of any text at all, not only of a log: blocks. A block is a pair of braces around
 characters, string literals and blocks; whatever stands outside a block up to the next brace is passed over, and a
 brace that opens no block ends the scan.
 */
module LogBlocks {
  import opened Common
  import opened LogStream

  datatype Letter = Plain(c: char) | Escaped(c: char)

  datatype Bit = Other(c: char) | Literal(letters: seq<Letter>) | Block(bits: seq<Bit>)

  function LettersText(letters: seq<Letter>): string {
    if letters == [] then []
    else (if letters[0].Plain? then [letters[0].c] else ['\\', letters[0].c]) + LettersText(letters[1..])
  }

  predicate LettersFit(letters: seq<Letter>) {
    forall i :: 0 <= i < |letters| && letters[i].Plain? ==> letters[i].c != '"' && letters[i].c != '\\'
  }

  function BitText(b: Bit): string
    decreases b, 0
  {
    match b
    case Other(c) => [c]
    case Literal(letters) => ['"'] + LettersText(letters) + ['"']
    case Block(bits) => ['{'] + BitsText(bits) + ['}']
  }

  function BitsText(bits: seq<Bit>): string
    decreases bits, 0
  {
    if bits == [] then [] else BitText(bits[0]) + BitsText(bits[1..])
  }

  predicate BitFits(b: Bit)
    decreases b, 0
  {
    match b
    case Other(c) => c != '"' && c != '{' && c != '}'
    case Literal(letters) => LettersFit(letters)
    case Block(bits) => BitsFit(bits)
  }

  predicate BitsFit(bits: seq<Bit>)
    decreases bits, 0
  {
    bits == [] || (BitFits(bits[0]) && BitsFit(bits[1..]))
  }

  ghost predicate IsBlock(s: string) {
    exists bits :: BitsFit(bits) && s == BitText(Block(bits))
  }

  // ----- A block is cut out -----

  lemma {:induction false} LettersAreNeutral(depth: nat, letters: seq<Letter>)
    requires depth > 0 && LettersFit(letters)
    ensures Neutral(Cursor(depth, true, false), LettersText(letters))
    decreases |letters|
  {
    var st := Cursor(depth, true, false);
    if letters == [] {
      TameIsNeutral(st, []);
    } else {
      var c, rest := letters[0].c, LettersText(letters[1..]);
      LettersAreNeutral(depth, letters[1..]);
      if letters[0].Plain? {
        TameIsNeutral(st, [c]);
        NeutralConcat(st, [c], rest);
      } else {
        EscapePairIsNeutral(depth, c);
        NeutralConcat(st, ['\\', c], rest);
      }
    }
  }

  lemma EscapePairIsNeutral(depth: nat, c: char)
    requires depth > 0
    ensures Neutral(Cursor(depth, true, false), ['\\', c])
  {
    var st := Cursor(depth, true, false);
    One(st, '\\');
    One(Step(st, '\\'), c);
    ReadConcat(st, ['\\'], [c]);
    assert ['\\', c] == ['\\'] + [c];
  }

  lemma {:induction false} BitIsNeutral(depth: nat, b: Bit)
    requires depth > 0 && BitFits(b)
    ensures Neutral(Within(depth), BitText(b))
    decreases b, 0
  {
    hide Neutral;
    match b {
      case Other(c) =>
        PlainIsNeutral(depth, [c]);
      case Literal(letters) =>
        LettersAreNeutral(depth, letters);
        Wrap(Within(depth), Cursor(depth, true, false), '"', LettersText(letters), '"');
      case Block(bits) =>
        BitsAreNeutral(depth + 1, bits);
        Wrap(Within(depth), Within(depth + 1), '{', BitsText(bits), '}');
    }
  }

  lemma {:induction false} BitsAreNeutral(depth: nat, bits: seq<Bit>)
    requires depth > 0 && BitsFit(bits)
    ensures Neutral(Within(depth), BitsText(bits))
    decreases bits, 0
  {
    hide Neutral, BitText, BitFits;
    if bits == [] {
      PlainIsNeutral(depth, []);
    } else {
      BitIsNeutral(depth, bits[0]);
      BitsAreNeutral(depth, bits[1..]);
      NeutralConcat(Within(depth), BitText(bits[0]), BitsText(bits[1..]));
    }
  }

  lemma BlockIsCut(s: string, b: string)
    requires IsBlock(s)
    ensures Entries(s + b, IDLE, []) == [s] + Entries(b, IDLE, [])
  {
    hide Neutral, Entries, BitsText, BitsFit;
    var bits :| BitsFit(bits) && s == BitText(Block(bits));
    BitsAreNeutral(1, bits);
    WrappedIsCut(BitsText(bits), b);
  }

  // ----- Taking any text apart -----

  /** The bits at the front of a text end at a closing brace, or the text runs out, perhaps inside a bit. */
  datatype End = Closed | RunsOut

  lemma {:induction false} LettersOf(s: string, depth: nat) returns (letters: seq<Letter>, rest: string, end: End)
    requires depth > 0
    ensures end.Closed? ==> LettersFit(letters) && s == LettersText(letters) + (['"'] + rest) && |rest| < |s|
    ensures end.RunsOut? ==> Deep(Cursor(depth, true, false), s)
    decreases |s|
  {
    if s == [] {
      letters, rest, end := [], [], RunsOut;
    } else if s[0] == '"' {
      letters, rest, end := [], s[1..], Closed;
      assert s == [] + (['"'] + rest);
    } else if s[0] == '\\' {
      letters, rest, end := EscapedLetters(s, depth);
    } else {
      var more;
      more, rest, end := LettersOf(s[1..], depth);
      letters := [Plain(s[0])] + more;
      assert letters[1..] == more;
      if end.Closed? {
        Assoc([s[0]], LettersText(more), ['"'] + rest);
        assert s == [s[0]] + s[1..];
      }
    }
  }

  lemma {:induction false} EscapedLetters(s: string, depth: nat) returns (letters: seq<Letter>, rest: string, end: End)
    requires depth > 0 && s != [] && s[0] == '\\'
    ensures end.Closed? ==> LettersFit(letters) && s == LettersText(letters) + (['"'] + rest) && |rest| < |s|
    ensures end.RunsOut? ==> Deep(Cursor(depth, true, false), s)
    decreases |s|, 0
  {
    if |s| == 1 {
      letters, rest, end := [], [], RunsOut;
      assert s[1..] == [];
    } else {
      var more;
      more, rest, end := LettersOf(s[2..], depth);
      letters := [Escaped(s[1])] + more;
      assert letters[1..] == more;
      assert s[1..][1..] == s[2..];
      if end.Closed? {
        Assoc(['\\', s[1]], LettersText(more), ['"'] + rest);
        assert s == ['\\', s[1]] + s[2..];
      } else {
        assert Deep(Cursor(depth, true, true), s[1..]);
      }
    }
  }

  lemma {:induction false} BitsOf(s: string, depth: nat) returns (bits: seq<Bit>, rest: string, end: End)
    requires depth > 0
    ensures end.Closed? ==> BitsFit(bits) && s == BitsText(bits) + (['}'] + rest) && |rest| < |s|
    ensures end.RunsOut? ==> Deep(Within(depth), s)
    decreases |s|
  {
    if s == [] {
      bits, rest, end := [], [], RunsOut;
    } else if s[0] == '}' {
      bits, rest, end := [], s[1..], Closed;
      assert s == [] + (['}'] + rest);
    } else {
      var first, after;
      bits, rest := [], [];
      first, after, end := BitOf(s, depth);
      if end.Closed? {
        var more;
        more, rest, end := BitsOf(after, depth);
        bits := [first] + more;
        assert bits[1..] == more;
        BitIsNeutral(depth, first);
        hide BitText, BitFits;
        if end.Closed? {
          Assoc(BitText(first), BitsText(more), ['}'] + rest);
        } else {
          ReadConcat(Within(depth), BitText(first), after);
        }
      }
    }
  }

  /** The first bit, unless the text runs out in it. */
  lemma {:induction false} BitOf(s: string, depth: nat) returns (b: Bit, rest: string, end: End)
    requires depth > 0 && s != [] && s[0] != '}'
    ensures end.Closed? ==> BitFits(b) && s == BitText(b) + rest && |rest| < |s|
    ensures end.RunsOut? ==> Deep(Within(depth), s)
    decreases |s|, 0
  {
    var t := s[1..];
    assert s == [s[0]] + t;
    if s[0] == '"' {
      var letters;
      letters, rest, end := LettersOf(t, depth);
      b := Literal(letters);
      if end.Closed? {
        Assoc3(['"'], LettersText(letters), ['"'], rest);
      }
    } else if s[0] == '{' {
      var bits;
      bits, rest, end := BitsOf(t, depth + 1);
      b := Block(bits);
      if end.Closed? {
        Assoc3(['{'], BitsText(bits), ['}'], rest);
      }
    } else {
      b, rest, end := Other(s[0]), t, Closed;
    }
  }

  lemma Assoc3(a: string, b: string, c: string, d: string)
    ensures a + (b + (c + d)) == (a + b + c) + d
  {
  }

  // ----- The cut -----

  function FirstBrace(s: string): (n: nat)
    requires '{' in s
    ensures n < |s| && s[n] == '{' && '{' !in s[..n]
  {
    if s[0] == '{' then 0
    else
      var n := 1 + FirstBrace(s[1..]);
      assert s[..n] == [s[0]] + s[1..][..n - 1];
      n
  }

  /** The slices are the blocks of the text, one after the other, up to a brace that opens none. */
  ghost predicate Cut(text: string, slices: seq<string>)
    decreases |text|
  {
    if '{' !in text then slices == []
    else
      var rest := text[FirstBrace(text)..];
      || (slices == [] && forall k :: 0 <= k <= |rest| ==> !IsBlock(rest[..k]))
      || (&& slices != [] && slices[0] <= rest && slices[0] != [] && IsBlock(slices[0])
          && Cut(rest[|slices[0]|..], slices[1..]))
  }

  /** Where the text runs out inside a brace, nothing in front of it is a block. */
  lemma OpenHasNoBlock(rest: string, k: nat)
    requires rest != [] && rest[0] == '{' && Deep(Within(1), rest[1..]) && k <= |rest|
    ensures !IsBlock(rest[..k])
  {
    if IsBlock(rest[..k]) {
      var bits :| BitsFit(bits) && rest[..k] == BitText(Block(bits));
      var body := BitsText(bits);
      BitsAreNeutral(1, bits);
      assert rest[..k][1..] == body + ['}'];
      assert rest[1..] == (body + ['}']) + rest[k..];
      hide BitsText;
      DeepPrefix(Within(1), body + ['}'], rest[k..]);
      ClosingIsNotDeep(body);
    }
  }

  lemma {:induction false} ClosingIsNotDeep(body: string)
    requires Neutral(Within(1), body)
    ensures !Deep(Within(1), body + ['}'])
  {
    if Deep(Within(1), body + ['}']) {
      DeepSuffix(Within(1), body, ['}']);
    }
  }

  lemma {:induction false} DeepSuffix(st: Cursor, a: string, b: string)
    requires Deep(st, a + b) && Deep(st, a)
    ensures Deep(Read(st, a), b)
    decreases |a|
  {
    if a == [] {
      assert a + b == b;
    } else {
      assert (a + b)[1..] == a[1..] + b && (a + b)[0] == a[0];
      DeepSuffix(Step(st, a[0]), a[1..], b);
    }
  }

  lemma OpenYieldsNothing(rest: string)
    requires rest != [] && rest[0] == '{' && Deep(Within(1), rest[1..])
    ensures Entries(rest, IDLE, []) == []
  {
    assert rest[1..] + [] == rest[1..];
    EntriesInside(rest[1..], [], Within(1), "{");
  }

  lemma SkipToBrace(text: string)
    requires '{' in text
    ensures Entries(text, IDLE, []) == Entries(text[FirstBrace(text)..], IDLE, [])
  {
    var n := FirstBrace(text);
    assert text == text[..n] + text[n..];
    EntriesGap(text[..n], text[n..]);
  }

  /** From any text the scanner cuts exactly its blocks. */
  lemma {:induction false} ScanCutsBlocks(text: string, slices: seq<string>)
    ensures Entries(text, IDLE, []) == slices <==> Cut(text, slices)
    decreases |text|
  {
    if '{' !in text {
      EntriesGap(text, []);
      assert text + [] == text;
    } else {
      hide Entries, Cut, BitText, BitsText, Deep;
      var rest := text[FirstBrace(text)..];
      var bits, after, end := BitsOf(rest[1..], 1);
      if end.RunsOut? {
        CutOpen(text, slices);
      } else {
        BlockAtFront(rest, bits, after);
        if slices != [] {
          ScanCutsBlocks(after, slices[1..]);
        }
        CutBlock(text, BitText(Block(bits)), after, slices);
      }
    }
  }

  lemma CutOpen(text: string, slices: seq<string>)
    requires '{' in text && Deep(Within(1), text[FirstBrace(text)..][1..])
    ensures Entries(text, IDLE, []) == slices <==> Cut(text, slices)
  {
    hide Entries, IsBlock, Deep;
    var rest := text[FirstBrace(text)..];
    SkipToBrace(text);
    OpenYieldsNothing(rest);
    forall k | 0 <= k <= |rest| ensures !IsBlock(rest[..k]) {
      OpenHasNoBlock(rest, k);
    }
    if slices != [] && slices[0] <= rest {
      assert rest[..|slices[0]|] == slices[0];
    }
  }

  lemma CutBlock(text: string, block: string, after: string, slices: seq<string>)
    requires '{' in text && text[FirstBrace(text)..] == block + after && IsBlock(block) && block != []
    requires slices != [] ==> (Entries(after, IDLE, []) == slices[1..] <==> Cut(after, slices[1..]))
    ensures Entries(text, IDLE, []) == slices <==> Cut(text, slices)
  {
    hide Entries, IsBlock;
    var rest := text[FirstBrace(text)..];
    SkipToBrace(text);
    BlockIsCut(block, after);
    assert rest[..|block|] == block && rest[|block|..] == after;
    if slices != [] && slices[0] <= rest && IsBlock(slices[0]) {
      OnlyOneBlock(rest, slices[0], block);
    }
    if slices != [] {
      assert slices == [slices[0]] + slices[1..];
    }
  }

  lemma BlockAtFront(rest: string, bits: seq<Bit>, after: string)
    requires rest != [] && rest[0] == '{' && BitsFit(bits) && rest[1..] == BitsText(bits) + (['}'] + after)
    ensures rest == BitText(Block(bits)) + after && IsBlock(BitText(Block(bits)))
    ensures BitText(Block(bits)) != []
  {
    assert rest == ['{'] + rest[1..];
    Assoc3(['{'], BitsText(bits), ['}'], after);
  }

  /** A text starts with at most one block. */
  lemma OnlyOneBlock(rest: string, a: string, b: string)
    requires a <= rest && b <= rest && IsBlock(a) && IsBlock(b)
    ensures a == b
  {
    hide IsBlock;
    assert rest == a + rest[|a|..] && rest == b + rest[|b|..];
    BlockIsCut(a, rest[|a|..]);
    BlockIsCut(b, rest[|b|..]);
    assert ([a] + Entries(rest[|a|..], IDLE, []))[0] == a;
  }
}
