/** What the parser accepts is spelled: every accepted text is taken apart into a spelling of the filter it yields. */
module FilterAcceptance {
  import opened Common
  import opened FilterSyntax
  import opened FilterSpelling

  // ----- Words -----

  lemma {:induction false} BlanksOf(s: string) returns (b: string)
    ensures Blank(b) && s == b + SkipBlanks(s)
    ensures SkipBlanks(s) == [] || !IsBlank(SkipBlanks(s)[0])
    decreases |s|
  {
    if s != [] && IsBlank(s[0]) {
      b := BlanksOf(s[1..]);
      b := [s[0]] + b;
    } else {
      b := [];
    }
  }

  lemma {:induction false} LettersOf(s: string) returns (letters: seq<Letter>)
    requires StringBody(s).Some?
    ensures IsWord(Literal(letters)) && WordMeans(Literal(letters), Str(StringBody(s).value.0))
    ensures s == LettersText(letters) + ("\"" + StringBody(s).value.1)
    decreases |s|
  {
    if s[0] == '"' {
      letters := [];
      assert s == LettersText([]) + ("\"" + s[1..]);
    } else if s[0] == '\\' && 1 < |s| {
      var more := LettersOf(s[2..]);
      letters := [Escaped(s[1])] + more;
      assert letters[1..] == more;
      Assoc(['\\', s[1]], LettersText(more), "\"" + StringBody(s).value.1);
      assert s == ['\\', s[1]] + s[2..];
    } else {
      var more := LettersOf(s[1..]);
      PlainIsNoBackslash(s);
      letters := [Plain(s[0])] + more;
      assert letters[1..] == more;
      Assoc([s[0]], LettersText(more), "\"" + StringBody(s).value.1);
      assert s == [s[0]] + s[1..];
    }
  }

  /** A backslash at the very end leaves the literal open. */
  lemma PlainIsNoBackslash(s: string)
    requires StringBody(s).Some? && s[0] != '"' && !(s[0] == '\\' && 1 < |s|)
    ensures s[0] != '\\'
  {
  }

  lemma {:induction false} DigitsOf(s: string, v: int) returns (digits: string)
    ensures AllDigits(digits) && s == digits + Digits(s, v).1 && !IsDigit(At(Digits(s, v).1, 0))
    ensures s != [] && IsDigit(s[0]) ==> digits != []
    decreases |s|
  {
    hide Wrap;
    if s == [] || !IsDigit(s[0]) {
      digits := [];
    } else {
      digits := DigitsOf(s[1..], Wrap(v * 10 + DigitValue(s[0])));
      digits := [s[0]] + digits;
    }
  }

  lemma NumberOf(s: string, negative: bool) returns (w: Word)
    requires s != [] && IsDigit(s[0])
    ensures w.Number? && w.negative == negative && IsWord(w) && s == w.digits + Digits(s, 0).1
    ensures Ends(w, Digits(s, 0).1)
    ensures WordMeans(w, Num(if negative then Wrap(-Digits(s, 0).0) else Digits(s, 0).0))
  {
    hide Wrap, Magnitude;
    var digits := DigitsOf(s, 0);
    var rest := Digits(s, 0).1;
    DigitsAreRead(digits, rest);
    WrapNegated(Magnitude(digits));
    w := Number(negative, digits);
  }

  /** What `ParseOperand` does behind the blanks. */
  lemma WordOf(s: string) returns (w: Word)
    requires ParseOperand(s).Ok? && SkipBlanks(s) == s
    ensures s == WordText(w) + ParseOperand(s).rest
    ensures IsWord(w) && Ends(w, ParseOperand(s).rest) && WordMeans(w, ParseOperand(s).value)
  {
    hide Wrap, StringBody, Digits, LettersText, AtKeyword;
    if s != [] && s[0] == '"' {
      var letters := LettersOf(s[1..]);
      w := Literal(letters);
      assert s == "\"" + s[1..];
      LiteralText(LettersText(letters), StringBody(s[1..]).value.1);
    } else if IsDigit(At(s, 0)) {
      w := NumberOf(s, false);
    } else if At(s, 0) == '-' && IsDigit(At(s, 1)) {
      w := NumberOf(s[1..], true);
      assert s == "-" + s[1..];
    } else {
      var n := IdentLength(s);
      w := Name(s[..n]);
      NameIsNoKeyword(s);
      assert s[..n] + s[n..] == s;
    }
  }

  /** The name at the front is no keyword, because a keyword there is refused first. */
  lemma NameIsNoKeyword(s: string)
    requires IsAlpha(At(s, 0)) || At(s, 0) == '_'
    requires !AtKeyword(s, "and") && !AtKeyword(s, "or") && !AtKeyword(s, "not")
    ensures IsWord(Name(s[..IdentLength(s)])) && Ends(Name(s[..IdentLength(s)]), s[IdentLength(s)..])
  {
    var n := IdentLength(s);
    assert s[..n][0] == s[0];
    NameAtKeyword(s, "and");
    NameAtKeyword(s, "or");
    NameAtKeyword(s, "not");
  }

  lemma NameAtKeyword(s: string, kw: string)
    ensures s[..IdentLength(s)] == kw ==> AtKeyword(s, kw)
  {
  }

  lemma OperandOf(s: string) returns (b: string, w: Word)
    requires ParseOperand(s).Ok?
    ensures Blank(b) && s == b + (WordText(w) + ParseOperand(s).rest)
    ensures IsWord(w) && Ends(w, ParseOperand(s).rest) && WordMeans(w, ParseOperand(s).value)
  {
    hide ParseOperand, SkipBlanks, IsWord, WordMeans;
    b := BlanksOf(s);
    OperandAfterBlanks(b, SkipBlanks(s));
    SkipBlanksIdempotent(s);
    w := WordOf(SkipBlanks(s));
  }

  // ----- Comparisons -----

  lemma OperatorOf(s: string)
    requires OperatorAt(s).Some?
    ensures s == OpText(OperatorAt(s).value.0) + s[OperatorAt(s).value.1..]
  {
  }

  lemma ComparisonOf(s: string) returns (sp: Spelling)
    requires ParseComparison(s).Ok?
    ensures sp.Comparison? && s == Text(sp) + ParseComparison(s).rest
    ensures Fits(sp, ParseComparison(s).rest) && Means(sp, ParseComparison(s).value)
  {
    hide ParseOperand, OperatorAt, SkipBlanks, IsWord, WordText, WordMeans, Typed, Blank, OpText;
    var b0, lhs := OperandOf(s);
    var l := ParseOperand(s);
    var b1 := BlanksOf(l.rest);
    var s1 := SkipBlanks(l.rest);
    var op := OperatorAt(s1).value;
    OperatorOf(s1);
    var b2, rhs := OperandOf(s1[op.1..]);
    var r := ParseOperand(s1[op.1..]);
    TypedMeans(op.0, lhs, rhs, l.value, r.value);
    sp := Comparison(b0, lhs, b1, op.0, b2, rhs);
    ComparisonRegroup(b0, WordText(lhs), b1, OpText(op.0), b2, WordText(rhs), r.rest);
  }

  // ----- Levels -----

  /** Blanks in front of a spelling belong to its first part. */
  function Indent(b: string, sp: Spelling): Spelling {
    match sp
    case Comparison(b0, lhs, b1, op, b2, rhs) => Comparison(b + b0, lhs, b1, op, b2, rhs)
    case Group(b0, inner, b1) => Group(b + b0, inner, b1)
    case Negation(b0, child) => Negation(b + b0, child)
    case Both(left, b0, right) => Both(Indent(b, left), b0, right)
    case Either(left, b0, right) => Either(Indent(b, left), b0, right)
  }

  lemma IndentFits(b: string, sp: Spelling, rest: string, f: Filter)
    requires Blank(b) && Tight(sp) && Fits(sp, rest) && Means(sp, f)
    ensures var wide := Indent(b, sp);
            Tight(wide) && Fits(wide, rest) && Means(wide, f) && Text(wide) == b + Text(sp)
  {
    hide IsWord, WordText, WordMeans, Typed, OpText;
    match sp {
      case Comparison(b0, lhs, b1, op, b2, rhs) =>
        Assoc(b, b0, WordText(lhs) + (b1 + (OpText(op) + (b2 + WordText(rhs)))));
      case Group(b0, inner, b1) =>
        Assoc(b, b0, "(" + (Text(inner) + (b1 + ")")));
      case Negation(b0, child) =>
        Assoc(b, b0, "not" + Text(child));
    }
  }

  /** A spelling of what a level read from `s`, with what it left behind. */
  ghost predicate Took(s: string, sp: Spelling, rest: string, f: Filter) {
    s == Text(sp) + rest && Fits(sp, rest) && Means(sp, f)
  }

  lemma {:induction false} PrimaryOf(s0: string) returns (sp: Spelling)
    requires ParsePrimary(s0).Ok?
    ensures Tight(sp) && Took(s0, sp, ParsePrimary(s0).rest, ParsePrimary(s0).value)
    decreases |s0|, 0
  {
    hide Took, ParseComparison, ParseOr, SkipBlanks, Indent;
    var b := BlanksOf(s0);
    var s := SkipBlanks(s0);
    var r := ParsePrimary(s0);
    if "(" <= s {
      var inner, b1 := OrOf(s[1..]);
      var b2 := BlanksOf(ParseOr(s[1..]).rest);
      assert SkipBlanks(ParseOr(s[1..]).rest) == ")" + r.rest;
      sp := GroupOf(s, inner, b1, b2, r.rest, r.value);
    } else {
      sp := ComparisonOf(s);
      TookByParts(s, sp, r.rest, r.value);
    }
    IndentTook(b, s, sp, r.rest, r.value);
    sp := Indent(b, sp);
  }

  lemma TookByParts(s: string, sp: Spelling, rest: string, f: Filter)
    requires s == Text(sp) + rest && Fits(sp, rest) && Means(sp, f)
    ensures Took(s, sp, rest, f)
  {
  }

  lemma IndentTook(b: string, s: string, sp: Spelling, rest: string, f: Filter)
    requires Blank(b) && Tight(sp) && Took(s, sp, rest, f)
    ensures Tight(Indent(b, sp)) && Took(b + s, Indent(b, sp), rest, f)
  {
    hide Fits, Means, Text, Indent;
    IndentFits(b, sp, rest, f);
    Assoc(b, Text(sp), rest);
  }

  lemma GroupOf(s: string, inner: Spelling, b1: string, b2: string, rest: string, f: Filter) returns (sp: Spelling)
    requires "(" <= s && Blank(b1) && Blank(b2)
    requires Took(s[1..], inner, b1 + (b2 + (")" + rest)), f)
    ensures Tight(sp) && Took(s, sp, rest, f)
  {
    sp := Group("", inner, b1 + b2);
    hide Fits, Means, Text;
    var after := b1 + (b2 + (")" + rest));
    assert s == "(" + s[1..];
    assert At(after, 0) == At((b1 + b2) + ")", 0);
    FitsByHead(inner, after, (b1 + b2) + ")");
    GroupText(Text(inner), b1, b2, rest);
    GroupFits(inner, b1 + b2, rest, f);
  }

  lemma GroupFits(inner: Spelling, b: string, rest: string, f: Filter)
    requires Blank(b) && Fits(inner, b + ")") && Means(inner, f)
    ensures var sp := Group("", inner, b);
            Fits(sp, rest) && Means(sp, f) && Text(sp) == "(" + (Text(inner) + (b + ")"))
  {
    hide IsWord, WordText, WordMeans, Typed, OpText, Ends;
    var body := "(" + (Text(inner) + (b + ")"));
    assert "" + body == body;
  }

  lemma GroupText(body: string, b1: string, b2: string, rest: string)
    ensures "(" + (body + (b1 + (b2 + (")" + rest)))) == ("(" + (body + ((b1 + b2) + ")"))) + rest
  {
  }

  lemma {:induction false} NotOf(s0: string) returns (sp: Spelling)
    requires ParseNot(s0).Ok?
    ensures Tight(sp) && Took(s0, sp, ParseNot(s0).rest, ParseNot(s0).value)
    decreases |s0|, 1
  {
    hide Took, ParsePrimary, SkipBlanks, Indent;
    var b := BlanksOf(s0);
    var s := SkipBlanks(s0);
    var r := ParseNot(s0);
    if AtKeyword(s, "not") {
      var child := NotOf(s[3..]);
      sp := NegationOf(s, child, r.rest, r.value.child);
    } else {
      sp := PrimaryOf(s);
    }
    IndentTook(b, s, sp, r.rest, r.value);
    sp := Indent(b, sp);
  }

  lemma NegationOf(s: string, child: Spelling, rest: string, f: Filter) returns (sp: Spelling)
    requires AtKeyword(s, "not") && Tight(child) && Took(s[3..], child, rest, f)
    ensures Tight(sp) && Took(s, sp, rest, Not(f))
  {
    sp := Negation("", child);
    TextIsNotEmpty(child);
    assert Text(child)[0] == s[3];
    assert s == "not" + s[3..];
    Assoc("not", Text(child), rest);
    assert Text(sp) == "not" + Text(child);
  }

  /** More conjuncts behind what is read so far. */
  lemma {:induction false} AndTailOf(s: string, left: Spelling, lhs: Filter, s0: string)
    returns (sp: Spelling, b: string)
    requires !left.Either? && Took(s, left, s0, lhs) && ParseAndTail(lhs, s0).Ok?
    ensures !sp.Either? && Blank(b)
    ensures Took(s, sp, b + ParseAndTail(lhs, s0).rest, ParseAndTail(lhs, s0).value)
    decreases |s0|, 2
  {
    hide Took, ParseNot, SkipBlanks;
    b := BlanksOf(s0);
    var t := SkipBlanks(s0);
    if AtKeyword(t, "and") {
      var right := NotOf(t[3..]);
      var r := ParseNot(t[3..]);
      sp := BothOf(s, left, lhs, b, t, right, r.rest, r.value);
      sp, b := AndTailOf(s, sp, And(lhs, r.value), r.rest);
    } else {
      sp := left;
    }
  }

  lemma BothOf(s: string, left: Spelling, lhs: Filter, b: string, t: string, right: Spelling, rest: string, f: Filter)
    returns (sp: Spelling)
    requires !left.Either? && Blank(b) && Took(s, left, b + t, lhs) && AtKeyword(t, "and")
    requires Tight(right) && Took(t[3..], right, rest, f)
    ensures sp == Both(left, b, right) && Took(s, sp, rest, And(lhs, f))
  {
    sp := Both(left, b, right);
    TextIsNotEmpty(right);
    assert Text(right)[0] == t[3];
    assert t == "and" + t[3..];
    FitsByHead(left, b + t, b + "and");
    hide Text, Fits, Means;
    BinaryRegroup(Text(left), b, "and", Text(right), rest);
    BothParts(left, b, right, rest, lhs, f);
  }

  lemma BothParts(left: Spelling, b: string, right: Spelling, rest: string, l: Filter, r: Filter)
    requires Blank(b) && !left.Either? && Tight(right) && Fits(left, b + "and") && AfterKeyword(right)
    requires Fits(right, rest) && Means(left, l) && Means(right, r)
    ensures var sp := Both(left, b, right);
            Text(sp) == Text(left) + (b + ("and" + Text(right))) && Fits(sp, rest) && Means(sp, And(l, r))
  {
  }

  lemma {:induction false} AndOf(s: string) returns (sp: Spelling, b: string)
    requires ParseAnd(s).Ok?
    ensures !sp.Either? && Blank(b) && Took(s, sp, b + ParseAnd(s).rest, ParseAnd(s).value)
    decreases |s|, 3
  {
    hide Took, ParseNot, ParseAndTail;
    var first := NotOf(s);
    var r := ParseNot(s);
    sp, b := AndTailOf(s, first, r.value, r.rest);
  }

  lemma {:induction false} OrTailOf(s: string, left: Spelling, lhs: Filter, s0: string)
    returns (sp: Spelling, b: string)
    requires Took(s, left, s0, lhs) && ParseOrTail(lhs, s0).Ok?
    ensures Blank(b) && Took(s, sp, b + ParseOrTail(lhs, s0).rest, ParseOrTail(lhs, s0).value)
    decreases |s0|, 4
  {
    hide Took, ParseAnd, SkipBlanks;
    b := BlanksOf(s0);
    var t := SkipBlanks(s0);
    if AtKeyword(t, "or") {
      var right, b1 := AndOf(t[2..]);
      var r := ParseAnd(t[2..]);
      var after := b1 + r.rest;
      sp := EitherOf(s, left, lhs, b, t, right, after, r.value);
      OrTailAfterBlanks(Or(lhs, r.value), b1, r.rest);
      TookIsShorter(t[2..], right, after, r.value);
      sp, b := OrTailOf(s, sp, Or(lhs, r.value), after);
    } else {
      sp := left;
    }
  }

  lemma OrTailAfterBlanks(lhs: Filter, b: string, s: string)
    requires Blank(b)
    ensures ParseOrTail(lhs, b + s) == ParseOrTail(lhs, s)
  {
    BlanksAreSkipped(b, s);
    hide SkipBlanks, ParseAnd;
  }

  lemma TookIsShorter(s: string, sp: Spelling, rest: string, f: Filter)
    requires Took(s, sp, rest, f)
    ensures |rest| < |s|
  {
    TextIsNotEmpty(sp);
  }

  lemma EitherOf(s: string, left: Spelling, lhs: Filter, b: string, t: string, right: Spelling, rest: string, f: Filter)
    returns (sp: Spelling)
    requires Blank(b) && Took(s, left, b + t, lhs) && AtKeyword(t, "or")
    requires !right.Either? && Took(t[2..], right, rest, f)
    ensures Took(s, sp, rest, Or(lhs, f))
  {
    sp := Either(left, b, right);
    TextIsNotEmpty(right);
    assert Text(right)[0] == t[2];
    assert t == "or" + t[2..];
    FitsByHead(left, b + t, b + "or");
    hide Text, Fits, Means;
    BinaryRegroup(Text(left), b, "or", Text(right), rest);
    EitherParts(left, b, right, rest, lhs, f);
  }

  lemma EitherParts(left: Spelling, b: string, right: Spelling, rest: string, l: Filter, r: Filter)
    requires Blank(b) && !right.Either? && Fits(left, b + "or") && AfterKeyword(right)
    requires Fits(right, rest) && Means(left, l) && Means(right, r)
    ensures var sp := Either(left, b, right);
            Text(sp) == Text(left) + (b + ("or" + Text(right))) && Fits(sp, rest) && Means(sp, Or(l, r))
  {
  }

  lemma {:induction false} OrOf(s: string) returns (sp: Spelling, b: string)
    requires ParseOr(s).Ok?
    ensures Blank(b) && Took(s, sp, b + ParseOr(s).rest, ParseOr(s).value)
    decreases |s|, 5
  {
    hide Took, ParseAnd, ParseOrTail;
    var first, b0 := AndOf(s);
    var r := ParseAnd(s);
    OrTailAfterBlanks(r.value, b0, r.rest);
    TookIsShorter(s, first, b0 + r.rest, r.value);
    sp, b := OrTailOf(s, first, r.value, b0 + r.rest);
  }

  // ----- Acceptance -----

  /** The parser accepts a text as a filter if and only if the text spells that filter. */
  lemma AcceptsIffSpelled(s: string, f: Filter)
    ensures ParseFilter(s) == Ok(f, []) <==> exists sp, b :: Spells(s, f, sp, b)
  {
    hide ParseOr, Fits, Means, Text, SkipBlanks, Blank;
    if ParseFilter(s) == Ok(f, []) {
      var sp, b := OrOf(s);
      var b2 := BlanksOf(ParseOr(s).rest);
      BlankConcat(b, b2);
      assert b + ParseOr(s).rest == b + b2;
      assert Spells(s, f, sp, b + b2);
    }
    if sp, b :| Spells(s, f, sp, b) {
      SpelledIsAccepted(s, f, sp, b);
    }
  }

  lemma BlankConcat(a: string, b: string)
    requires Blank(a) && Blank(b)
    ensures Blank(a + b)
  {
  }

  lemma BlankEnds(b: string)
    requires Blank(b)
    ensures SkipBlanks(b) == [] && EndsOr(b)
  {
    BlanksAreSkipped(b, []);
    assert b + [] == b;
    NoKeywordByHead([], "and");
    NoKeywordByHead([], "or");
  }

  lemma SpelledIsAccepted(s: string, f: Filter, sp: Spelling, b: string)
    requires Spells(s, f, sp, b)
    ensures ParseFilter(s) == Ok(f, [])
  {
    hide ParseOr, Fits, Means, Text;
    BlankEnds(b);
    var g := OrIsRead(sp, b);
    OrEnds(g, b);
    TextIsNotEmpty(sp);
    MeaningIsUnique(sp, f, g);
  }

  /** A spelling has one meaning. */
  lemma {:induction false} MeaningIsUnique(sp: Spelling, f: Filter, g: Filter)
    requires Means(sp, f) && Means(sp, g)
    ensures f == g
    decreases sp
  {
    hide Wrap, Magnitude;
    match sp {
      case Comparison(_, lhs, _, op, _, rhs) =>
        WordMeaningIsUnique(lhs, f.lhs, g.lhs);
        WordMeaningIsUnique(rhs, f.rhs, g.rhs);
      case Group(_, inner, _) => MeaningIsUnique(inner, f, g);
      case Negation(_, child) => MeaningIsUnique(child, f.child, g.child);
      case Both(left, _, right) =>
        MeaningIsUnique(left, f.left, g.left);
        MeaningIsUnique(right, f.right, g.right);
      case Either(left, _, right) =>
        MeaningIsUnique(left, f.left, g.left);
        MeaningIsUnique(right, f.right, g.right);
    }
  }

  lemma WordMeaningIsUnique(w: Word, o: Operand, p: Operand)
    requires WordMeans(w, o) && WordMeans(w, p)
    ensures o == p
  {
    hide Wrap, Magnitude;
  }

  /** Trailing input is reported where a whole filter has ended and something other than a blank follows. */
  lemma TrailingInputFollowsAFilter(s: string) returns (f: Filter, sp: Spelling, b: string)
    requires ParseFilter(s).Bad? && ParseFilter(s).why == TrailingInput
    ensures var at := |s| - ParseFilter(s).left;
            && 0 <= at < |s| && !IsBlank(s[at])
            && Blank(b) && s[..at] == Text(sp) + b && Fits(sp, b + s[at..]) && Means(sp, f)
  {
    hide Fits, Means, Text, SkipBlanks, Blank;
    hide ParseOr;
    var b1, b2;
    sp, b1 := OrOf(s);
    f := ParseOr(s).value;
    b2 := BlanksOf(ParseOr(s).rest);
    b := b1 + b2;
    BlankConcat(b1, b2);
    var rest := SkipBlanks(ParseOr(s).rest);
    Assoc(b1, b2, rest);
    assert s == (Text(sp) + b) + rest;
  }
}
