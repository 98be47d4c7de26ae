/**
 Which texts spell a filter: a spelling lists blanks, words, signs and keywords in the order in which they are written,
 and says of each where it may stand. The parser accepts exactly the texts that spell a filter, and reads that filter.
 */
module FilterSpelling {
  import opened Common
  import opened FilterSyntax

  // ----- Spellings -----

  /** A character of a string literal, as it is or behind a backslash. */
  datatype Letter = Plain(c: char) | Escaped(c: char)

  datatype Word =
    | Literal(letters: seq<Letter>)
    | Number(negative: bool, digits: string)
    | Name(name: string)

  datatype Spelling =
    | Comparison(b0: string, lhs: Word, b1: string, op: Op, b2: string, rhs: Word)
    | Group(b0: string, inner: Spelling, b1: string)
    | Negation(b0: string, child: Spelling)
    | Both(left: Spelling, b0: string, right: Spelling)
    | Either(left: Spelling, b0: string, right: Spelling)

  function LettersText(letters: seq<Letter>): string {
    if letters == [] then []
    else (if letters[0].Plain? then [letters[0].c] else ['\\', letters[0].c]) + LettersText(letters[1..])
  }

  function WordText(w: Word): string {
    match w
    case Literal(letters) => "\"" + LettersText(letters) + "\""
    case Number(negative, digits) => if negative then "-" + digits else digits
    case Name(name) => name
  }

  function OpText(op: Op): string {
    match op
    case Eq => "=="
    case Ne => "!="
    case Lt => "<"
    case Le => "<="
    case Gt => ">"
    case Ge => ">="
    case Glob => "~"
    case NotGlob => "!~"
  }

  function Text(sp: Spelling): string {
    match sp
    case Comparison(b0, lhs, b1, op, b2, rhs) => b0 + (WordText(lhs) + (b1 + (OpText(op) + (b2 + WordText(rhs)))))
    case Group(b0, inner, b1) => b0 + ("(" + (Text(inner) + (b1 + ")")))
    case Negation(b0, child) => b0 + ("not" + Text(child))
    case Both(left, b0, right) => Text(left) + (b0 + ("and" + Text(right)))
    case Either(left, b0, right) => Text(left) + (b0 + ("or" + Text(right)))
  }

  // ----- Where each part may stand -----

  ghost predicate Blank(b: string) {
    forall i :: 0 <= i < |b| ==> b[i] == ' ' || b[i] == '\t'
  }

  predicate IsKeyword(name: string) {
    name == "and" || name == "or" || name == "not"
  }

  predicate AllDigits(s: string) {
    forall k :: 0 <= k < |s| ==> IsDigit(s[k])
  }

  predicate IsIdent(name: string) {
    && name != []
    && (IsAlpha(name[0]) || name[0] == '_')
    && forall k :: 0 <= k < |name| ==> IsIdentChar(name[k])
  }

  /** Names are made of letters, digits and underscores. */
  lemma IdentCharsAre(c: char)
    ensures IsIdentChar(c) <==>
            || c in "abcdefghijklmnopqrstuvwxyz" || c in "ABCDEFGHIJKLMNOPQRSTUVWXYZ" || c in "0123456789" || c == '_'
    ensures IsAlpha(c) <==> c in "abcdefghijklmnopqrstuvwxyz" || c in "ABCDEFGHIJKLMNOPQRSTUVWXYZ"
    ensures IsDigit(c) <==> c in "0123456789"
  {
    LowerCase(c);
    UpperCase(c);
    DigitChars(c);
  }

  ghost predicate IsWord(w: Word) {
    match w
    case Literal(letters) =>
      forall i :: 0 <= i < |letters| && letters[i].Plain? ==> letters[i].c != '"' && letters[i].c != '\\'
    case Number(_, digits) => digits != [] && AllDigits(digits)
    case Name(name) => IsIdent(name) && !IsKeyword(name)
  }

  /** A number ends where the digits end, a name where the identifier characters end. */
  predicate Ends(w: Word, rest: string) {
    match w
    case Literal(_) => true
    case Number(_, _) => !IsDigit(At(rest, 0))
    case Name(_) => !IsIdentChar(At(rest, 0))
  }

  predicate IsText(w: Word) {
    w.Literal? || w == Name("func") || w == Name("caller")
  }

  /** Relations compare numbers; a glob takes a literal pattern. */
  predicate Typed(op: Op, lhs: Word, rhs: Word) {
    && (op == Lt || op == Le || op == Gt || op == Ge ==> !IsText(lhs) && !IsText(rhs))
    && (op == Glob || op == NotGlob ==> rhs.Literal?)
  }

  /** Neither a conjunction nor a disjunction: what may follow `not` and stand beside `and`. */
  predicate Tight(sp: Spelling) {
    !sp.Both? && !sp.Either?
  }

  /** A keyword ends where the identifier characters end. */
  predicate AfterKeyword(sp: Spelling) {
    !IsIdentChar(At(Text(sp), 0))
  }

  /** Each part is in its place, with `rest` behind the whole. */
  ghost predicate Fits(sp: Spelling, rest: string) {
    match sp
    case Comparison(b0, lhs, b1, op, b2, rhs) =>
      && Blank(b0) && Blank(b1) && Blank(b2)
      && IsWord(lhs) && IsWord(rhs) && Ends(rhs, rest) && Typed(op, lhs, rhs)
    case Group(b0, inner, b1) => Blank(b0) && Blank(b1) && Fits(inner, b1 + ")")
    case Negation(b0, child) => Blank(b0) && Tight(child) && AfterKeyword(child) && Fits(child, rest)
    case Both(left, b0, right) =>
      && Blank(b0) && !left.Either? && Tight(right)
      && Fits(left, b0 + "and") && AfterKeyword(right) && Fits(right, rest)
    case Either(left, b0, right) =>
      && Blank(b0) && !right.Either?
      && Fits(left, b0 + "or") && AfterKeyword(right) && Fits(right, rest)
  }

  // ----- What a spelling means -----

  /** The value of decimal digits. */
  function Magnitude(digits: string): int {
    if digits == [] then 0
    else Magnitude(digits[..|digits| - 1]) * 10 + (digits[|digits| - 1] as int - '0' as int)
  }

  /** The operand a word stands for; numbers are 64 bits wide. */
  ghost predicate WordMeans(w: Word, o: Operand) {
    match o
    case Num(n) => w.Number? && n == Wrap(if w.negative then -Magnitude(w.digits) else Magnitude(w.digits))
    case Str(s) => w.Literal? && |s| == |w.letters| && forall i :: 0 <= i < |s| ==> s[i] == w.letters[i].c
    case Func => w == Name("func")
    case Ret => w == Name("ret")
    case Caller => w == Name("caller")
    case Param(name) => w == Name(name) && name != "func" && name != "ret" && name != "caller"
  }

  ghost predicate Means(sp: Spelling, f: Filter) {
    match sp
    case Comparison(_, lhs, _, op, _, rhs) =>
      f.Cmp? && f.op == op && WordMeans(lhs, f.lhs) && WordMeans(rhs, f.rhs)
    case Group(_, inner, _) => Means(inner, f)
    case Negation(_, child) => f.Not? && Means(child, f.child)
    case Both(left, _, right) => f.And? && Means(left, f.left) && Means(right, f.right)
    case Either(left, _, right) => f.Or? && Means(left, f.left) && Means(right, f.right)
  }

  /** The text, up to blanks at its end, spells the filter. */
  ghost predicate Spells(s: string, f: Filter, sp: Spelling, b: string) {
    Blank(b) && s == Text(sp) + b && Fits(sp, b) && Means(sp, f)
  }

  // ----- What is spelled is parsed -----

  lemma {:induction false} BlanksAreSkipped(b: string, s: string)
    requires Blank(b)
    ensures SkipBlanks(b + s) == SkipBlanks(s)
    decreases |b|
  {
    if b == [] {
      assert b + s == s;
    } else {
      assert (b + s)[1..] == b[1..] + s;
      BlanksAreSkipped(b[1..], s);
    }
  }

  lemma {:induction false} LettersAreRead(letters: seq<Letter>, rest: string)
    requires IsWord(Literal(letters))
    ensures StringBody(LettersText(letters) + ("\"" + rest)).Some?
    ensures var body := StringBody(LettersText(letters) + ("\"" + rest)).value;
            body.1 == rest && WordMeans(Literal(letters), Str(body.0))
    decreases |letters|
  {
    var end := "\"" + rest;
    assert end[1..] == rest;
    if letters == [] {
      assert LettersText(letters) + end == end;
    } else {
      var tail := LettersText(letters[1..]) + end;
      assert IsWord(Literal(letters[1..]));
      LettersAreRead(letters[1..], rest);
      var c := letters[0].c;
      if letters[0].Plain? {
        Assoc([c], LettersText(letters[1..]), end);
        assert ([c] + tail)[1..] == tail;
      } else {
        Assoc(['\\', c], LettersText(letters[1..]), end);
        assert (['\\', c] + tail)[2..] == tail;
      }
    }
  }

  /** Wrapping changes a number by a multiple of two to the power of 64. */
  lemma WrapIsModular(x: int)
    ensures LLONG_MIN <= Wrap(x) <= LLONG_MAX && (Wrap(x) - x) % 0x1_0000_0000_0000_0000 == 0
  {
    var k := (x - LLONG_MIN) / 0x1_0000_0000_0000_0000;
    assert Wrap(x) == x - k * 0x1_0000_0000_0000_0000;
  }

  lemma WrapStep(v: int, d: int)
    ensures Wrap(Wrap(v) * 10 + d) == Wrap(v * 10 + d)
  {
    var k := (v - LLONG_MIN) / 0x1_0000_0000_0000_0000;
    assert Wrap(v) == v - k * 0x1_0000_0000_0000_0000;
    WrapMultiple(v * 10 + d, -10 * k);
  }

  lemma WrapMultiple(x: int, k: int)
    ensures Wrap(x + k * 0x1_0000_0000_0000_0000) == Wrap(x)
  {
  }

  lemma WrapNegated(v: int)
    ensures Wrap(-Wrap(v)) == Wrap(-v)
  {
    var k := (v - LLONG_MIN) / 0x1_0000_0000_0000_0000;
    assert Wrap(v) == v - k * 0x1_0000_0000_0000_0000;
    WrapMultiple(-v, k);
  }

  lemma {:induction false} DigitsAreRead(digits: string, rest: string)
    requires AllDigits(digits)
    ensures Digits(digits + rest, 0) == Digits(rest, Wrap(Magnitude(digits)))
    decreases |digits|
  {
    hide Wrap;
    if digits == [] {
      assert digits + rest == rest;
      WrapOfZero();
    } else {
      var n := |digits| - 1;
      var front, c := digits[..n], digits[n];
      DigitsAreRead(front, [c] + rest);
      assert digits + rest == front + ([c] + rest);
      assert ([c] + rest)[1..] == rest;
      WrapStep(Magnitude(front), DigitValue(c));
    }
  }

  lemma WrapOfZero()
    ensures Wrap(0) == 0
  {
  }

  lemma {:induction false} IdentLengthOfName(name: string, rest: string)
    requires forall k :: 0 <= k < |name| ==> IsIdentChar(name[k])
    requires !IsIdentChar(At(rest, 0))
    ensures IdentLength(name + rest) == |name|
    decreases |name|
  {
    if name == [] {
      assert name + rest == rest;
    } else {
      IdentLengthOfName(name[1..], rest);
      assert (name + rest)[1..] == name[1..] + rest;
    }
  }

  /** A keyword is recognised in front of a name exactly when the name is that keyword. */
  lemma KeywordIsWholeName(name: string, rest: string, kw: string)
    requires IsIdent(name) && IsKeyword(kw)
    requires !IsIdentChar(At(rest, 0))
    ensures AtKeyword(name + rest, kw) <==> name == kw
  {
    var s := name + rest;
    assert s[..|name|] == name;
    assert At(s, |name|) == At(rest, 0);
    if AtKeyword(s, kw) && name != kw {
      KeywordLength(name, rest, kw);
    }
  }

  lemma KeywordLength(name: string, rest: string, kw: string)
    requires IsIdent(name) && IsKeyword(kw)
    requires !IsIdentChar(At(rest, 0))
    requires AtKeyword(name + rest, kw)
    ensures |kw| == |name| && (name + rest)[..|kw|] == kw
  {
    var s := name + rest;
    assert forall k :: 0 <= k < |kw| ==> s[k] == kw[k] && IsIdentChar(s[k]);
    assert forall k :: 0 <= k < |name| ==> s[k] == name[k];
    assert At(s, |name|) == At(rest, 0);
  }

  lemma KeywordHead(s: string, kw: string)
    requires AtKeyword(s, kw) && kw != []
    ensures s[..|kw|] == kw && s[0] == kw[0]
  {
  }

  /** A text whose first character is none of a keyword's is at no keyword. */
  lemma NoKeywordByHead(s: string, kw: string)
    requires kw != [] && (s == [] || s[0] != kw[0])
    ensures !AtKeyword(s, kw)
  {
    if AtKeyword(s, kw) {
      KeywordHead(s, kw);
    }
  }

  /** What a word starts with: no blank, no parenthesis, no keyword. */
  lemma WordHead(w: Word, rest: string)
    requires IsWord(w) && Ends(w, rest)
    ensures WordText(w) != []
    ensures SkipBlanks(WordText(w) + rest) == WordText(w) + rest
    ensures !("(" <= WordText(w) + rest)
    ensures !AtKeyword(WordText(w) + rest, "not")
  {
    var s := WordText(w) + rest;
    assert s[0] == WordText(w)[0];
    if w.Name? {
      KeywordIsWholeName(w.name, rest, "not");
    } else {
      NoKeywordByHead(s, "not");
    }
  }

  lemma LiteralBranch(t: string)
    requires StringBody(t).Some?
    ensures ParseOperand("\"" + t) == Ok(Str(StringBody(t).value.0), StringBody(t).value.1)
  {
    hide StringBody, Digits, AtKeyword, IdentLength, NamedOperand, Wrap;
    var s := "\"" + t;
    assert s[0] == '"' && s[1..] == t && SkipBlanks(s) == s;
  }

  lemma LiteralIsRead(letters: seq<Letter>, rest: string)
    requires IsWord(Literal(letters))
    ensures var r := ParseOperand(WordText(Literal(letters)) + rest);
            r.Ok? && r.rest == rest && WordMeans(Literal(letters), r.value)
  {
    hide StringBody, LettersText, IsWord, ParseOperand, WordMeans;
    LettersAreRead(letters, rest);
    LiteralBranch(LettersText(letters) + ("\"" + rest));
    LiteralText(LettersText(letters), rest);
  }

  lemma LiteralText(body: string, rest: string)
    ensures ("\"" + body + "\"") + rest == "\"" + (body + ("\"" + rest))
  {
  }

  lemma NumberIsRead(negative: bool, digits: string, rest: string)
    requires IsWord(Number(negative, digits)) && !IsDigit(At(rest, 0))
    ensures var r := ParseOperand(WordText(Number(negative, digits)) + rest);
            r.Ok? && r.rest == rest && WordMeans(Number(negative, digits), r.value)
  {
    hide Wrap, AtKeyword, IdentLength, StringBody, NamedOperand, Magnitude;
    DigitsAreRead(digits, rest);
    var m := Magnitude(digits);
    assert Digits(rest, Wrap(m)) == (Wrap(m), rest);
    WrapNegated(m);
    var t := digits + rest;
    assert t[0] == digits[0];
    if negative {
      var s := "-" + digits + rest;
      assert s == "-" + t;
      assert s[0] == '-' && s[1] == t[0] && s[1..] == t;
    }
  }

  lemma NameIsRead(name: string, rest: string)
    requires IsWord(Name(name)) && !IsIdentChar(At(rest, 0))
    ensures var r := ParseOperand(name + rest);
            r.Ok? && r.rest == rest && WordMeans(Name(name), r.value)
  {
    hide Wrap, StringBody, Digits;
    var s := name + rest;
    assert s[0] == name[0];
    KeywordIsWholeName(name, rest, "and");
    KeywordIsWholeName(name, rest, "or");
    KeywordIsWholeName(name, rest, "not");
    IdentLengthOfName(name, rest);
    assert s[..|name|] == name;
    assert s[|name|..] == rest;
    hide AtKeyword, IdentLength;
  }

  lemma OperandAfterBlanks(b: string, s: string)
    requires Blank(b)
    ensures ParseOperand(b + s) == ParseOperand(s)
  {
    BlanksAreSkipped(b, s);
    hide SkipBlanks, StringBody, Digits, AtKeyword, IdentLength;
  }

  lemma WordIsRead(b: string, w: Word, rest: string)
    requires Blank(b) && IsWord(w) && Ends(w, rest)
    ensures var r := ParseOperand(b + (WordText(w) + rest));
            r.Ok? && r.rest == rest && WordMeans(w, r.value)
  {
    hide ParseOperand, IsWord, WordMeans;
    OperandAfterBlanks(b, WordText(w) + rest);
    match w {
      case Literal(letters) => LiteralIsRead(letters, rest);
      case Number(negative, digits) => NumberIsRead(negative, digits, rest);
      case Name(name) => NameIsRead(name, rest);
    }
  }

  lemma OperatorIsRead(op: Op, rest: string)
    requires At(rest, 0) != '='
    ensures OperatorAt(OpText(op) + rest) == Some((op, |OpText(op)|))
    ensures (OpText(op) + rest)[|OpText(op)|..] == rest
  {
    var s := OpText(op) + rest;
    assert s[0] == OpText(op)[0];
    assert |OpText(op)| == 2 ==> s[1] == OpText(op)[1] && s[..2] == OpText(op);
    assert |OpText(op)| == 1 ==> At(s, 1) == At(rest, 0) && s[..1] == OpText(op);
  }

  lemma TypedMeans(op: Op, lhs: Word, rhs: Word, l: Operand, r: Operand)
    requires WordMeans(lhs, l) && WordMeans(rhs, r)
    ensures Typed(op, lhs, rhs) <==> WellTyped(op, l, r)
  {
  }

  /** The text between two words: it ends the first, and its operator is read behind the blanks. */
  lemma MiddleIsRead(b1: string, op: Op, b2: string, w: Word, rest: string)
    requires Blank(b1) && Blank(b2) && IsWord(w) && Ends(w, rest)
    ensures var after := b2 + (WordText(w) + rest);
            var middle := OpText(op) + after;
            && SkipBlanks(b1 + middle) == middle
            && OperatorAt(middle) == Some((op, |OpText(op)|)) && middle[|OpText(op)|..] == after
            && !IsIdentChar(At(b1 + middle, 0)) && !IsDigit(At(b1 + middle, 0))
  {
    hide IsWord, WordText, OperatorAt;
    var after := b2 + (WordText(w) + rest);
    var middle := OpText(op) + after;
    WordNoEquals(w);
    assert At(after, 0) == if b2 == [] then WordText(w)[0] else b2[0];
    OperatorIsRead(op, after);
    assert middle[0] == OpText(op)[0];
    BlanksAreSkipped(b1, middle);
    assert At(b1 + middle, 0) == if b1 == [] then middle[0] else b1[0];
  }

  lemma WordNoEquals(w: Word)
    requires IsWord(w)
    ensures WordText(w) != [] && WordText(w)[0] != '='
  {
  }

  lemma ComparisonRegroup(b0: string, l: string, b1: string, o: string, b2: string, r: string, rest: string)
    ensures (b0 + (l + (b1 + (o + (b2 + r))))) + rest == b0 + (l + (b1 + (o + (b2 + (r + rest)))))
  {
  }

  lemma ComparisonIsRead(sp: Spelling, rest: string)
    requires sp.Comparison? && Fits(sp, rest)
    ensures var r := ParseComparison(Text(sp) + rest);
            r.Ok? && r.rest == rest && Means(sp, r.value)
  {
    hide IsWord, WordText, OperatorAt, ParseOperand, SkipBlanks, WordMeans, Typed, OpText, Blank;
    var Comparison(b0, lhs, b1, op, b2, rhs) := sp;
    var after := b2 + (WordText(rhs) + rest);
    var middle := OpText(op) + after;
    ComparisonRegroup(b0, WordText(lhs), b1, OpText(op), b2, WordText(rhs), rest);
    MiddleIsRead(b1, op, b2, rhs, rest);
    WordIsRead(b0, lhs, b1 + middle);
    WordIsRead(b2, rhs, rest);
    var l, r := ParseOperand(b0 + (WordText(lhs) + (b1 + middle))).value, ParseOperand(after).value;
    TypedMeans(op, lhs, rhs, l, r);
  }

  // ----- Levels -----

  /** Blanks do not matter in front of any level. */
  lemma NotAfterBlanks(b: string, s: string)
    requires Blank(b)
    ensures ParseNot(b + s) == ParseNot(s)
    ensures ParseAnd(b + s) == ParseAnd(s)
  {
    BlanksAreSkipped(b, s);
    hide SkipBlanks, ParsePrimary;
  }

  lemma {:induction false} SkipBlanksIdempotent(s: string)
    ensures SkipBlanks(SkipBlanks(s)) == SkipBlanks(s)
  {
    if s != [] && IsBlank(s[0]) {
      SkipBlanksIdempotent(s[1..]);
    }
  }

  lemma ComparisonStands(sp: Spelling, rest: string)
    requires sp.Comparison? && Fits(sp, rest)
    ensures var r := ParseNot(Text(sp) + rest);
            r.Ok? && r.rest == rest && Means(sp, r.value)
  {
    hide IsWord, WordText, OperatorAt, ParseOperand, WordMeans, Typed, OpText, ParseComparison, AtKeyword;
    var Comparison(b0, lhs, b1, op, b2, rhs) := sp;
    var after := b2 + (WordText(rhs) + rest);
    var middle := OpText(op) + after;
    ComparisonRegroup(b0, WordText(lhs), b1, OpText(op), b2, WordText(rhs), rest);
    MiddleIsRead(b1, op, b2, rhs, rest);
    var bare := Comparison("", lhs, b1, op, b2, rhs);
    ComparisonIsRead(bare, rest);
    ComparisonRegroup("", WordText(lhs), b1, OpText(op), b2, WordText(rhs), rest);
    var s := WordText(lhs) + (b1 + middle);
    assert Text(bare) + rest == s;
    WordHead(lhs, b1 + middle);
    BlanksAreSkipped(b0, s);
  }

  /** What may follow a spelled filter for a level to end there. */
  predicate EndsAnd(rest: string) {
    !AtKeyword(SkipBlanks(rest), "and")
  }

  predicate EndsOr(rest: string) {
    EndsAnd(rest) && !AtKeyword(SkipBlanks(rest), "or")
  }

  lemma {:induction false} NotIsRead(sp: Spelling, rest: string)
    requires Tight(sp) && Fits(sp, rest)
    ensures var r := ParseNot(Text(sp) + rest);
            r.Ok? && r.rest == rest && Means(sp, r.value)
    decreases sp, 0
  {
    hide ParseNot, AtKeyword;
    match sp {
      case Comparison(_, _, _, _, _, _) =>
        ComparisonStands(sp, rest);
      case Negation(b0, child) =>
        NotIsRead(child, rest);
        NegationIsRead(b0, Text(child), rest);
        TextIsNotEmpty(child);
      case Group(b0, inner, b1) =>
        CloseEnds(b1, rest);
        FitsByHead(inner, b1 + ")", b1 + (")" + rest));
        var f := OrIsRead(inner, b1 + (")" + rest));
        GroupIsRead(b0, Text(inner), b1, rest, f);
    }
  }

  lemma {:induction false} TextIsNotEmpty(sp: Spelling)
    ensures Text(sp) != []
  {
  }

  lemma NegationIsRead(b0: string, body: string, rest: string)
    requires Blank(b0) && body != [] && !IsIdentChar(body[0]) && ParseNot(body + rest).Ok?
    ensures var r := ParseNot(body + rest);
            ParseNot((b0 + ("not" + body)) + rest) == Ok(Not(r.value), r.rest)
  {
    var s := "not" + (body + rest);
    assert (b0 + ("not" + body)) + rest == b0 + s;
    NotAfterBlanks(b0, s);
    assert s[..3] == "not" && s[3..] == body + rest && At(s, 3) == body[0];
    assert AtKeyword(s, "not");
    assert SkipBlanks(s) == s;
  }

  lemma CloseEnds(b1: string, rest: string)
    requires Blank(b1)
    ensures var after := b1 + (")" + rest);
            EndsOr(after) && SkipBlanks(after) == ")" + rest && At(after, 0) == At(b1 + ")", 0)
  {
    var close := ")" + rest;
    BlanksAreSkipped(b1, close);
    NoKeywordByHead(close, "and");
    NoKeywordByHead(close, "or");
  }

  lemma GroupIsRead(b0: string, body: string, b1: string, rest: string, f: Filter)
    requires Blank(b0) && Blank(b1)
    requires ParseOr(body + (b1 + (")" + rest))) == ParseOrTail(f, b1 + (")" + rest))
    ensures ParseNot((b0 + ("(" + (body + (b1 + ")")))) + rest) == Ok(f, rest)
  {
    hide ParseNot, ParseOr, ParseOrTail;
    var after := b1 + (")" + rest);
    GroupRegroup(b0, body, b1, rest);
    NotAfterBlanks(b0, "(" + (body + after));
    CloseEnds(b1, rest);
    OrEnds(f, after);
    OpenIsRead(body + after, rest, f);
  }

  lemma GroupRegroup(b0: string, body: string, b1: string, rest: string)
    ensures (b0 + ("(" + (body + (b1 + ")")))) + rest == b0 + ("(" + (body + (b1 + (")" + rest))))
  {
  }

  lemma OrEnds(f: Filter, rest: string)
    requires EndsOr(rest)
    ensures ParseOrTail(f, rest) == Ok(f, SkipBlanks(rest))
  {
  }

  lemma OpenIsRead(inner: string, rest: string, f: Filter)
    requires ParseOr(inner) == Ok(f, ")" + rest)
    ensures ParseNot("(" + inner) == Ok(f, rest)
  {
    hide ParseOr, ParseComparison;
    var s := "(" + inner;
    NoKeywordByHead(s, "not");
    assert s[1..] == inner && (")" + rest)[1..] == rest;
    assert SkipBlanks(s) == s && SkipBlanks(")" + rest) == ")" + rest;
  }

  /** Only the next character matters to what stands before it. */
  lemma {:induction false} FitsByHead(sp: Spelling, rest: string, rest': string)
    requires Fits(sp, rest) && At(rest, 0) == At(rest', 0)
    ensures Fits(sp, rest')
    decreases sp
  {
    match sp {
      case Comparison(_, _, _, _, _, _) =>
      case Group(_, _, _) =>
      case Negation(_, child) => FitsByHead(child, rest, rest');
      case Both(_, _, right) => FitsByHead(right, rest, rest');
      case Either(_, _, right) => FitsByHead(right, rest, rest');
    }
  }

  lemma {:induction false} AndIsRead(sp: Spelling, rest: string) returns (f: Filter)
    requires !sp.Either? && Fits(sp, rest)
    ensures Means(sp, f) && ParseAnd(Text(sp) + rest) == ParseAndTail(f, rest)
    decreases sp, 1
  {
    hide ParseNot, ParseAndTail;
    if Tight(sp) {
      NotIsRead(sp, rest);
      f := ParseNot(Text(sp) + rest).value;
    } else {
      var Both(left, b0, right) := sp;
      var tail := b0 + ("and" + (Text(right) + rest));
      KeywordFollows(b0, "and", Text(right) + rest);
      FitsByHead(left, b0 + "and", tail);
      var l := AndIsRead(left, tail);
      NotIsRead(right, rest);
      TextIsNotEmpty(right);
      var r := ParseNot(Text(right) + rest);
      f := And(l, r.value);
      BinaryRegroup(Text(left), b0, "and", Text(right), rest);
      AndTailStep(l, b0, Text(right), rest);
    }
  }

  lemma KeywordFollows(b0: string, kw: string, s: string)
    requires kw != []
    ensures At(b0 + kw, 0) == At(b0 + (kw + s), 0)
  {
  }

  lemma BinaryRegroup(l: string, b0: string, kw: string, r: string, rest: string)
    ensures (l + (b0 + (kw + r))) + rest == l + (b0 + (kw + (r + rest)))
  {
  }

  lemma AndTailStep(lhs: Filter, b0: string, body: string, rest: string)
    requires Blank(b0) && body != [] && !IsIdentChar(body[0]) && ParseNot(body + rest).Ok?
    ensures var r := ParseNot(body + rest);
            ParseAndTail(lhs, b0 + ("and" + (body + rest))) == ParseAndTail(And(lhs, r.value), r.rest)
  {
    hide ParseNot;
    var s := "and" + (body + rest);
    BlanksAreSkipped(b0, s);
    assert s[..3] == "and" && s[3..] == body + rest && At(s, 3) == body[0];
    assert AtKeyword(s, "and") && SkipBlanks(s) == s;
  }

  lemma OrTailStep(lhs: Filter, b0: string, body: string, rest: string)
    requires Blank(b0) && body != [] && !IsIdentChar(body[0])
    ensures EndsAnd(b0 + ("or" + (body + rest)))
    ensures var r := ParseAnd(body + rest);
            r.Ok? ==> ParseOrTail(lhs, b0 + ("or" + (body + rest))) == ParseOrTail(Or(lhs, r.value), r.rest)
  {
    hide ParseAnd;
    var s := "or" + (body + rest);
    BlanksAreSkipped(b0, s);
    NoKeywordByHead(s, "and");
    assert s[..2] == "or" && s[2..] == body + rest && At(s, 2) == body[0];
    assert AtKeyword(s, "or") && SkipBlanks(s) == s;
  }

  lemma AndEnds(f: Filter, g: Filter, rest: string)
    requires EndsAnd(rest)
    ensures ParseAndTail(f, rest) == Ok(f, SkipBlanks(rest))
    ensures ParseOrTail(g, SkipBlanks(rest)) == ParseOrTail(g, rest)
  {
    SkipBlanksIdempotent(rest);
  }

  lemma {:induction false} OrIsRead(sp: Spelling, rest: string) returns (f: Filter)
    requires Fits(sp, rest) && EndsAnd(rest)
    ensures Means(sp, f) && ParseOr(Text(sp) + rest) == ParseOrTail(f, rest)
    decreases sp, 2
  {
    hide ParseAnd, ParseAndTail, ParseOrTail, SkipBlanks, EndsAnd;
    if !sp.Either? {
      f := AndIsRead(sp, rest);
      AndEnds(f, f, rest);
    } else {
      var Either(left, b0, right) := sp;
      var tail := b0 + ("or" + (Text(right) + rest));
      KeywordFollows(b0, "or", Text(right) + rest);
      FitsByHead(left, b0 + "or", tail);
      TextIsNotEmpty(right);
      var r := AndIsRead(right, rest);
      AndEnds(r, r, rest);
      BinaryRegroup(Text(left), b0, "or", Text(right), rest);
      OrTailStep(r, b0, Text(right), rest);
      var l := OrIsRead(left, tail);
      f := Or(l, r);
      OrTailStep(l, b0, Text(right), rest);
      AndEnds(r, f, rest);
    }
  }
}
