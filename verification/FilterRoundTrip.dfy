/** Parsing undoes printing, for every filter tree a source text can denote. */
module FilterRoundTrip {
  import opened Common
  import opened FilterSyntax
  import opened FilterSpelling
  import opened FilterAcceptance

  // ----- The trees a source text can denote -----

  predicate IsParamName(name: string) {
    IsIdent(name) && !IsKeyword(name) && name != "func" && name != "ret" && name != "caller"
  }

  predicate GoodOperand(o: Operand) {
    match o
    case Num(n) => LLONG_MIN <= n <= LLONG_MAX
    case Str(s) => IsCString(s)
    case Param(name) => IsParamName(name)
    case _ => true
  }

  predicate GoodFilter(f: Filter) {
    match f
    case Or(l, r) => GoodFilter(l) && GoodFilter(r)
    case And(l, r) => GoodFilter(l) && GoodFilter(r)
    case Not(g) => GoodFilter(g)
    case Cmp(op, lhs, rhs) => GoodOperand(lhs) && GoodOperand(rhs) && WellTyped(op, lhs, rhs)
  }

  // ----- The printed form -----

  function Escape(s: string): (letters: seq<Letter>)
    ensures |letters| == |s|
    ensures forall i :: 0 <= i < |s| ==>
              letters[i] == if s[i] == '"' || s[i] == '\\' then Escaped(s[i]) else Plain(s[i])
  {
    seq(|s|, i requires 0 <= i < |s| => if s[i] == '"' || s[i] == '\\' then Escaped(s[i]) else Plain(s[i]))
  }

  function Written(o: Operand): Word {
    match o
    case Num(n) => Number(n < 0, Decimal(if n < 0 then -n else n))
    case Str(s) => Literal(Escape(s))
    case Param(name) => Name(name)
    case Func => Name("func")
    case Ret => Name("ret")
    case Caller => Name("caller")
  }

  /** Single blanks, and parentheses only where the grammar's levels and left association need them. */
  function SpellOr(f: Filter, b: string): Spelling
    decreases f, 3
  {
    match f
    case Or(l, r) => Either(SpellOr(l, b), " ", SpellAnd(r, " "))
    case _ => SpellAnd(f, b)
  }

  function SpellAnd(f: Filter, b: string): Spelling
    decreases f, 2
  {
    match f
    case And(l, r) => Both(SpellAnd(l, b), " ", SpellNot(r, " "))
    case _ => SpellNot(f, b)
  }

  function SpellNot(f: Filter, b: string): Spelling
    decreases f, 1
  {
    match f
    case Cmp(op, lhs, rhs) => Comparison(b, Written(lhs), " ", op, " ", Written(rhs))
    case Not(g) => Negation(b, SpellNot(g, " "))
    case Or(l, r) => Group(b, Either(SpellOr(l, ""), " ", SpellAnd(r, " ")), "")
    case And(l, r) => Group(b, Both(SpellAnd(l, ""), " ", SpellNot(r, " ")), "")
  }

  function Print(f: Filter): string {
    Text(SpellOr(f, ""))
  }

  lemma {:induction false} DecimalMagnitude(n: nat)
    ensures Magnitude(Decimal(n)) == n
    decreases n
  {
    var s := Decimal(n);
    if n >= 10 {
      DecimalMagnitude(n / 10);
      assert s[..|s| - 1] == Decimal(n / 10);
    } else {
      assert s[..0] == [];
    }
  }

  lemma WrittenMeans(o: Operand)
    requires GoodOperand(o)
    ensures IsWord(Written(o)) && WordMeans(Written(o), o)
  {
    hide Wrap, Magnitude, Decimal;
    if o.Num? {
      DecimalMagnitude(if o.n < 0 then -o.n else o.n);
    }
  }

  /** What may follow a printed filter. */
  predicate Stops(rest: string) {
    At(rest, 0) == '\0' || At(rest, 0) == ' ' || At(rest, 0) == ')'
  }

  /** A printed level starts with the blank it was given and is well spelled. */
  ghost predicate Printed(sp: Spelling, b: string, rest: string, f: Filter) {
    Fits(sp, rest) && Means(sp, f) && (b == " " ==> AfterKeyword(sp))
  }

  lemma {:induction false} NotIsPrinted(f: Filter, b: string, rest: string)
    requires GoodFilter(f) && Stops(rest) && (b == "" || b == " ")
    ensures Tight(SpellNot(f, b)) && Printed(SpellNot(f, b), b, rest, f)
    decreases f, 1
  {
    hide IsWord, WordMeans, Typed, Written;
    assert "" + ")" == ")";
    match f {
      case Cmp(op, lhs, rhs) =>
        WrittenMeans(lhs);
        WrittenMeans(rhs);
        TypedMeans(op, Written(lhs), Written(rhs), lhs, rhs);
      case Not(g) =>
        NotIsPrinted(g, " ", rest);
      case Or(l, r) =>
        OrPairIsPrinted(f, "", ")");
      case And(l, r) =>
        AndPairIsPrinted(f, "", ")");
    }
  }

  lemma {:induction false} AndPairIsPrinted(f: Filter, b: string, rest: string)
    requires GoodFilter(f) && f.And? && Stops(rest) && (b == "" || b == " ")
    ensures var sp := Both(SpellAnd(f.left, b), " ", SpellNot(f.right, " "));
            Printed(sp, b, rest, f)
    decreases f, 0
  {
    assert " " + "and" == " and";
    AndIsPrinted(f.left, b, " and");
    NotIsPrinted(f.right, " ", rest);
    TextIsNotEmpty(SpellAnd(f.left, b));
  }

  lemma {:induction false} AndIsPrinted(f: Filter, b: string, rest: string)
    requires GoodFilter(f) && Stops(rest) && (b == "" || b == " ")
    ensures !SpellAnd(f, b).Either? && Printed(SpellAnd(f, b), b, rest, f)
    decreases f, 2
  {
    hide Printed, SpellNot;
    if f.And? {
      AndPairIsPrinted(f, b, rest);
    } else {
      NotIsPrinted(f, b, rest);
    }
  }

  lemma {:induction false} OrPairIsPrinted(f: Filter, b: string, rest: string)
    requires GoodFilter(f) && f.Or? && Stops(rest) && (b == "" || b == " ")
    ensures var sp := Either(SpellOr(f.left, b), " ", SpellAnd(f.right, " "));
            Printed(sp, b, rest, f)
    decreases f, 0
  {
    assert " " + "or" == " or";
    OrIsPrinted(f.left, b, " or");
    AndIsPrinted(f.right, " ", rest);
    TextIsNotEmpty(SpellOr(f.left, b));
  }

  lemma {:induction false} OrIsPrinted(f: Filter, b: string, rest: string)
    requires GoodFilter(f) && Stops(rest) && (b == "" || b == " ")
    ensures Printed(SpellOr(f, b), b, rest, f)
    decreases f, 3
  {
    hide Printed, SpellAnd;
    if f.Or? {
      OrPairIsPrinted(f, b, rest);
    } else {
      AndIsPrinted(f, b, rest);
    }
  }

  /** Parsing undoes printing. */
  lemma ParseUndoesPrint(f: Filter)
    requires GoodFilter(f)
    ensures ParseFilter(Print(f)) == Ok(f, [])
  {
    OrIsPrinted(f, "", "");
    assert Print(f) + "" == Print(f);
    assert Spells(Print(f), f, SpellOr(f, ""), "");
    hide ParseFilter, SpellOr;
    AcceptsIffSpelled(Print(f), f);
  }

  // ----- Parsing, then printing, then parsing -----

  lemma {:induction false} LettersAreCString(letters: seq<Letter>)
    requires IsCString(LettersText(letters))
    ensures forall i :: 0 <= i < |letters| ==> letters[i].c != '\0'
  {
    if letters != [] {
      var head := if letters[0].Plain? then [letters[0].c] else ['\\', letters[0].c];
      PartsAreCStrings(head, LettersText(letters[1..]));
      assert letters[0].c == head[|head| - 1];
      LettersAreCString(letters[1..]);
    }
  }

  lemma PartsAreCStrings(a: string, b: string)
    requires IsCString(a + b)
    ensures IsCString(a) && IsCString(b)
  {
    forall i | 0 <= i < |a| ensures a[i] != '\0' {
      assert (a + b)[i] == a[i];
    }
    forall i | 0 <= i < |b| ensures b[i] != '\0' {
      assert (a + b)[|a| + i] == b[i];
    }
  }

  lemma WordIsGood(w: Word, o: Operand)
    requires IsWord(w) && WordMeans(w, o) && IsCString(WordText(w))
    ensures GoodOperand(o)
  {
    hide Magnitude, LettersText;
    if w.Literal? {
      PartsAreCStrings("\"" + LettersText(w.letters), "\"");
      PartsAreCStrings("\"", LettersText(w.letters));
      LettersAreCString(w.letters);
    }
  }

  lemma {:induction false} SpelledIsGood(sp: Spelling, rest: string, f: Filter)
    requires Fits(sp, rest) && Means(sp, f) && IsCString(Text(sp))
    ensures GoodFilter(f)
    decreases sp
  {
    hide IsWord, WordMeans, WordText, Typed, OpText, GoodOperand, WellTyped;
    match sp {
      case Comparison(b0, lhs, b1, op, b2, rhs) =>
        var tail := b1 + (OpText(op) + (b2 + WordText(rhs)));
        PartsAreCStrings(b0, WordText(lhs) + tail);
        PartsAreCStrings(WordText(lhs), tail);
        PartsAreCStrings(b1, OpText(op) + (b2 + WordText(rhs)));
        PartsAreCStrings(OpText(op), b2 + WordText(rhs));
        PartsAreCStrings(b2, WordText(rhs));
        WordIsGood(lhs, f.lhs);
        WordIsGood(rhs, f.rhs);
        TypedMeans(op, lhs, rhs, f.lhs, f.rhs);
      case Group(b0, inner, b1) =>
        PartsAreCStrings(b0, "(" + (Text(inner) + (b1 + ")")));
        PartsAreCStrings("(", Text(inner) + (b1 + ")"));
        PartsAreCStrings(Text(inner), b1 + ")");
        SpelledIsGood(inner, b1 + ")", f);
      case Negation(b0, child) =>
        PartsAreCStrings(b0, "not" + Text(child));
        PartsAreCStrings("not", Text(child));
        SpelledIsGood(child, rest, f.child);
      case Both(left, b0, right) =>
        PairParts(Text(left), b0, "and", Text(right));
        SpelledIsGood(left, b0 + "and", f.left);
        SpelledIsGood(right, rest, f.right);
      case Either(left, b0, right) =>
        PairParts(Text(left), b0, "or", Text(right));
        SpelledIsGood(left, b0 + "or", f.left);
        SpelledIsGood(right, rest, f.right);
    }
  }

  lemma PairParts(l: string, b: string, kw: string, r: string)
    requires IsCString(l + (b + (kw + r)))
    ensures IsCString(l) && IsCString(r)
  {
    PartsAreCStrings(l, b + (kw + r));
    PartsAreCStrings(b, kw + r);
    PartsAreCStrings(kw, r);
  }

  /**
   Every accepted source text denotes a well-formed tree, and printing that tree gives a
   canonical text with the same meaning.
   */
  lemma PrintIsCanonical(source: string)
    requires IsCString(source)
    requires ParseFilter(source).Ok?
    ensures GoodFilter(ParseFilter(source).value)
    ensures ParseFilter(Print(ParseFilter(source).value)) == ParseFilter(source)
  {
    var f := ParseFilter(source).value;
    hide ParseOr, Text, Fits, Means, SkipBlanks, Print;
    AcceptsIffSpelled(source, f);
    var sp, b :| Spells(source, f, sp, b);
    PartsAreCStrings(Text(sp), b);
    SpelledIsGood(sp, b, f);
    ParseUndoesPrint(f);
  }
}
