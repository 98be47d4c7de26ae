/**
 The recursive-descent parser: one cursor over the source, one sticky first error, and the
 unescaping copy into an exactly sized buffer. Each method reads off what the grammar
 function of the same level denotes on the remaining input.
 */
module FilterParser {
  import opened Common
  import opened FilterSyntax

  class Parser {
    const src: string
    var pos: nat
    var error: Option<(nat, Fault)>

    ghost predicate Valid()
      reads this
    {
      IsCString(src) && pos <= |src|
    }

    ghost predicate Ready()
      reads this
    {
      Valid() && error.None?
    }

    /** The cursor and the error are where the grammar says they are. */
    ghost predicate Agrees<T>(r: Option<T>, spec: Parsed<T>)
      reads this
    {
      && Valid()
      && match spec
         case Ok(value, rest) => r == Some(value) && error.None? && src[pos..] == rest
         case Bad(left, why) => r.None? && left <= |src| && error == Some((|src| - left, why))
    }

    constructor (expr: string)
      requires IsCString(expr)
      ensures Ready() && src == expr && pos == 0
    {
      src := expr;
      pos := 0;
      error := None;
    }

    /** Only the first fault is kept. */
    method Fail(at: nat, why: Fault)
      modifies this`error
      ensures error == if old(error).None? then Some((at, why)) else old(error)
    {
      if error.None? {
        error := Some((at, why));
      }
    }

    method SkipWs()
      requires Valid()
      modifies this`pos
      ensures Valid() && old(pos) <= pos
      ensures src[pos..] == SkipBlanks(src[old(pos)..])
    {
      while At(src, pos) == ' ' || At(src, pos) == '\t'
        invariant pos <= |src| && old(pos) <= pos
        invariant SkipBlanks(src[pos..]) == SkipBlanks(src[old(pos)..])
        decreases |src| - pos
      {
        assert src[pos..][1..] == src[pos + 1..];
        pos := pos + 1;
      }
    }

    /** `strncmp` of the remaining input with a keyword, and no identifier character after it. */
    method AtWord(kw: string) returns (yes: bool)
      requires Valid() && IsCString(kw)
      ensures yes == AtKeyword(src[pos..], kw)
    {
      var k := 0;
      while k < |kw|
        invariant 0 <= k <= |kw|
        invariant pos + k <= |src| && kw[..k] == src[pos..pos + k]
      {
        if At(src, pos + k) != kw[k] {
          return false;
        }
        assert kw[..k + 1] == kw[..k] + [kw[k]];
        assert src[pos..pos + (k + 1)] == src[pos..pos + k] + [src[pos + k]];
        k := k + 1;
      }
      assert src[pos..][..|kw|] == kw;
      return !IsIdentChar(At(src, pos + |kw|));
    }

    /** The closing quote of the literal whose body starts at the cursor, and the unescaped length. */
    method FindClose() returns (len: nat)
      requires Valid()
      modifies this`pos
      ensures Valid() && old(pos) <= pos
      ensures var body := StringBody(src[old(pos)..]);
              if body.Some? then pos < |src| && src[pos] == '"' && body.value.1 == src[pos + 1..] && |body.value.0| == len
              else pos == |src|
    {
      len := 0;
      ghost var body := StringBody(src[pos..]);
      while At(src, pos) != '"'
        invariant pos <= |src| && old(pos) <= pos
        invariant StringBody(src[pos..]).Some? == body.Some?
        invariant body.Some? ==>
                    && StringBody(src[pos..]).value.1 == body.value.1
                    && |body.value.0| == len + |StringBody(src[pos..]).value.0|
        decreases |src| - pos
      {
        if At(src, pos) == '\\' && At(src, pos + 1) != '\0' {
          assert src[pos..][2..] == src[pos + 2..];
          pos := pos + 2;
          len := len + 1;
          continue;
        }
        if At(src, pos) == '\0' {
          return;
        }
        assert src[pos..][1..] == src[pos + 1..];
        pos := pos + 1;
        len := len + 1;
      }
      assert src[pos..][1..] == src[pos + 1..];
    }

    /** The second pass: the unescaped bytes fill a buffer of exactly `len` characters. */
    method CopyBody(start: nat, len: nat) returns (text: string)
      requires Valid() && start <= pos < |src|
      requires StringBody(src[start..]).Some?
      requires StringBody(src[start..]).value.1 == src[pos + 1..]
      requires |StringBody(src[start..]).value.0| == len
      requires src[pos] == '"'
      ensures text == StringBody(src[start..]).value.0
    {
      hide StringBody;
      var dst := new char[len + 1];
      var r, w := start, 0;
      ghost var whole := StringBody(src[start..]).value.0;
      while r < pos
        invariant start <= r <= pos && 0 <= w <= len
        invariant BodyEndsAt(src, r, pos)
        invariant |whole| == len
        invariant whole == dst[..w] + StringBody(src[r..]).value.0
      {
        BodyStep(src, r, pos);
        var next := if At(src, r) == '\\' && At(src, r + 1) != '\0' then r + 2 else r + 1;
        dst[w] := src[next - 1];
        r, w := next, w + 1;
      }
      BodyEnd(src, r);
      dst[w] := '\0';
      text := dst[..w];
    }

    /** The loop over digits, in 64-bit arithmetic. */
    method ReadDigits() returns (value: int)
      requires Valid()
      modifies this`pos
      ensures Valid()
      ensures (value, src[pos..]) == Digits(src[old(pos)..], 0)
    {
      hide Wrap;
      value := 0;
      while IsDigit(At(src, pos))
        invariant pos <= |src|
        invariant Digits(src[pos..], value) == Digits(src[old(pos)..], 0)
        decreases |src| - pos
      {
        assert src[pos..][1..] == src[pos + 1..];
        value := Wrap(value * 10 + DigitValue(src[pos]));
        pos := pos + 1;
      }
    }

    method ReadName() returns (name: string)
      requires Valid()
      modifies this`pos
      ensures Valid()
      ensures name == src[old(pos)..][..IdentLength(src[old(pos)..])]
      ensures src[pos..] == src[old(pos)..][IdentLength(src[old(pos)..])..]
    {
      var start := pos;
      while IsIdentChar(At(src, pos))
        invariant start <= pos <= |src|
        invariant IdentLength(src[start..]) == (pos - start) + IdentLength(src[pos..])
        decreases |src| - pos
      {
        assert src[pos..][1..] == src[pos + 1..];
        pos := pos + 1;
      }
      name := src[start..pos];
    }

    /** The string branch, with the cursor on the opening quote. */
    method ReadString() returns (r: Option<string>)
      requires Ready() && At(src, pos) == '"'
      modifies this
      ensures Valid()
      ensures var body := StringBody(src[old(pos) + 1..]);
              if body.Some? then r == Some(body.value.0) && src[pos..] == body.value.1 && error.None?
              else r.None? && error == Some((|src|, UnterminatedString))
    {
      var start := pos + 1;
      pos := start;
      var len := FindClose();
      if At(src, pos) == '\0' {
        Fail(pos, UnterminatedString);
        return None;
      }
      var text := CopyBody(start, len);
      pos := pos + 1;
      return Some(text);
    }

    method ReadNumber() returns (n: int)
      requires Ready() && (IsDigit(At(src, pos)) || (At(src, pos) == '-' && IsDigit(At(src, pos + 1))))
      modifies this`pos
      ensures Valid()
      ensures var negative := src[old(pos)] == '-';
              var spec := Digits(src[if negative then old(pos) + 1 else old(pos)..], 0);
              n == (if negative then Wrap(-spec.0) else spec.0) && src[pos..] == spec.1
    {
      hide Wrap;
      var negative := src[pos] == '-';
      if negative {
        pos := pos + 1;
      }
      var value := ReadDigits();
      n := if negative then Wrap(-value) else value;
    }

    method ReadOperand() returns (r: Option<Operand>)
      requires Ready()
      modifies this
      ensures Agrees(r, ParseOperand(src[old(pos)..]))
    {
      hide AtKeyword, SkipBlanks, StringBody, Digits, IdentLength, NamedOperand, Wrap;
      SkipWs();
      ghost var s := src[pos..];
      assert |s| == |src| - pos;
      assert forall k: nat :: k < |s| ==> s[k] == src[pos + k];
      if At(src, pos) == '"' {
        assert s[1..] == src[pos + 1..];
        var text := ReadString();
        r := if text.Some? then Some(Str(text.value)) else None;
        return;
      }
      if IsDigit(At(src, pos)) || (At(src, pos) == '-' && IsDigit(At(src, pos + 1))) {
        assert s[1..] == src[pos + 1..];
        var n := ReadNumber();
        return Some(Num(n));
      }
      var word := AtWord("and");
      if !word {
        word := AtWord("or");
      }
      if !word {
        word := AtWord("not");
      }
      if word {
        Fail(pos, ExpectedOperand);
        return None;
      }
      if IsAlpha(At(src, pos)) || At(src, pos) == '_' {
        var name := ReadName();
        return Some(NamedOperand(name));
      }
      Fail(pos, ExpectedOperand);
      return None;
    }

    /** The operator at the cursor, longest form first. */
    method ReadOperator() returns (r: Option<Op>)
      requires Ready()
      modifies this
      ensures Valid()
      ensures var spec := OperatorAt(src[old(pos)..]);
              if spec.Some? then r == Some(spec.value.0) && pos == old(pos) + spec.value.1 && error.None?
              else r.None? && error == Some((old(pos), ExpectedOperator))
    {
      ghost var s := src[pos..];
      var c, d := At(src, pos), At(src, pos + 1);
      PrefixByHead(s, c, d);
      if c == '=' && d == '=' {
        pos := pos + 2;
        return Some(Eq);
      } else if c == '!' && d == '=' {
        pos := pos + 2;
        return Some(Ne);
      } else if c == '<' && d == '=' {
        pos := pos + 2;
        return Some(Le);
      } else if c == '>' && d == '=' {
        pos := pos + 2;
        return Some(Ge);
      } else if c == '<' {
        pos := pos + 1;
        return Some(Lt);
      } else if c == '>' {
        pos := pos + 1;
        return Some(Gt);
      } else if c == '!' && d == '~' {
        pos := pos + 2;
        return Some(NotGlob);
      } else if c == '~' {
        pos := pos + 1;
        return Some(Glob);
      }
      Fail(pos, ExpectedOperator);
      return None;
    }

    method ReadComparison() returns (r: Option<Filter>)
      requires Ready()
      modifies this
      ensures Agrees(r, ParseComparison(src[old(pos)..]))
    {
      hide ParseOperand, OperatorAt;
      var lhs := ReadOperand();
      if lhs.None? {
        return None;
      }
      SkipWs();
      ghost var s1, at := src[pos..], pos;
      var op := ReadOperator();
      if op.None? {
        return None;
      }
      assert s1[pos - at..] == src[pos..];
      var rhs := ReadOperand();
      if rhs.None? {
        return None;
      }
      if IsRelational(op.value) && (IsTextual(lhs.value) || IsTextual(rhs.value)) {
        Fail(pos, RelationNeedsNumbers);
        return None;
      }
      if (op.value.Glob? || op.value.NotGlob?) && !rhs.value.Str? {
        Fail(pos, GlobNeedsLiteral);
        return None;
      }
      return Some(Cmp(op.value, lhs.value, rhs.value));
    }

    method ReadPrimary() returns (r: Option<Filter>)
      requires Ready()
      modifies this
      ensures Agrees(r, ParsePrimary(src[old(pos)..]))
      decreases |src| - pos, 0
    {
      hide ParseComparison, ParseOr, SkipBlanks;
      SkipWs();
      ghost var s := src[pos..];
      if At(src, pos) == '(' {
        assert "(" <= s && s[1..] == src[pos + 1..];
        pos := pos + 1;
        var inner := ReadOr();
        SkipWs();
        ghost var s1 := src[pos..];
        if At(src, pos) != ')' {
          Fail(pos, ExpectedParen);
          return None;
        }
        assert ")" <= s1 && s1[1..] == src[pos + 1..];
        pos := pos + 1;
        return inner;
      }
      assert !("(" <= s);
      r := ReadComparison();
    }

    method ReadNot() returns (r: Option<Filter>)
      requires Ready()
      modifies this
      ensures Agrees(r, ParseNot(src[old(pos)..]))
      decreases |src| - pos, 1
    {
      SkipWs();
      ghost var s := src[pos..];
      var negated := AtWord("not");
      if negated {
        assert s[3..] == src[pos + 3..];
        pos := pos + 3;
        var child := ReadNot();
        return if child.Some? then Some(Not(child.value)) else None;
      }
      r := ReadPrimary();
    }

    method ReadAnd() returns (r: Option<Filter>)
      requires Ready()
      modifies this
      ensures Agrees(r, ParseAnd(src[old(pos)..]))
      decreases |src| - pos, 3
    {
      hide ParseNot, SkipBlanks, AtKeyword;
      ghost var spec := ParseAnd(src[pos..]);
      ghost var before := |src| - pos;
      r := ReadNot();
      if r.None? {
        return;
      }
      while true
        invariant Ready() && r.Some?
        invariant |src| - pos < before
        invariant spec == ParseAndTail(r.value, src[pos..])
        decreases |src| - pos
      {
        SkipWs();
        ghost var s := src[pos..];
        var more := AtWord("and");
        if !more {
          return;
        }
        KeywordFits(s, "and");
        assert s[3..] == src[pos + 3..];
        pos := pos + 3;
        var rhs := ReadNot();
        if rhs.None? {
          return None;
        }
        r := Some(And(r.value, rhs.value));
      }
    }

    method ReadOr() returns (r: Option<Filter>)
      requires Ready()
      modifies this
      ensures Agrees(r, ParseOr(src[old(pos)..]))
      decreases |src| - pos, 5
    {
      hide ParseAnd, SkipBlanks, AtKeyword;
      ghost var spec := ParseOr(src[pos..]);
      ghost var before := |src| - pos;
      r := ReadAnd();
      if r.None? {
        return;
      }
      while true
        invariant Ready() && r.Some?
        invariant |src| - pos < before
        invariant spec == ParseOrTail(r.value, src[pos..])
        decreases |src| - pos
      {
        SkipWs();
        ghost var s := src[pos..];
        var more := AtWord("or");
        if !more {
          return;
        }
        KeywordFits(s, "or");
        assert s[2..] == src[pos + 2..];
        pos := pos + 2;
        var rhs := ReadAnd();
        if rhs.None? {
          return None;
        }
        r := Some(Or(r.value, rhs.value));
      }
    }
  }

  // ----- String bodies by position -----

  ghost predicate BodyEndsAt(src: string, r: nat, close: nat)
    requires r <= close < |src|
  {
    StringBody(src[r..]).Some? && StringBody(src[r..]).value.1 == src[close + 1..]
  }

  lemma BodyStep(src: string, r: nat, close: nat)
    requires IsCString(src) && r < close < |src|
    requires BodyEndsAt(src, r, close)
    ensures var next := if At(src, r) == '\\' && At(src, r + 1) != '\0' then r + 2 else r + 1;
            && next <= close
            && BodyEndsAt(src, next, close)
            && StringBody(src[r..]).value.0 == [src[next - 1]] + StringBody(src[next..]).value.0
  {
    var s := src[r..];
    assert s[1..] == src[r + 1..];
    assert |StringBody(s).value.1| == |src| - close - 1;
    if At(src, r) == '\\' && At(src, r + 1) != '\0' {
      assert s[2..] == src[r + 2..];
      assert |StringBody(src[r + 2..]).value.1| < |src[r + 2..]|;
    }
  }

  lemma BodyEnd(src: string, close: nat)
    requires close < |src| && src[close] == '"'
    ensures StringBody(src[close..]).Some? && StringBody(src[close..]).value.0 == []
  {
    assert src[close..][0] == '"';
  }

  lemma KeywordFits(s: string, kw: string)
    requires AtKeyword(s, kw)
    ensures |kw| <= |s|
  {
  }

  /** Comparing two characters is comparing prefixes. */
  lemma PrefixByHead(s: string, c: char, d: char)
    requires IsCString(s) && c == At(s, 0) && d == At(s, 1)
    ensures forall x: char | x != '\0' :: [x] <= s <==> c == x
    ensures forall x: char, y: char | x != '\0' && y != '\0' :: [x, y] <= s <==> c == x && d == y
  {
  }

  /** Compilation of a whole expression; a null or empty expression is a fault at the start. */
  method Compile(expr: Option<string>) returns (r: Option<Filter>, error: Option<(nat, Fault)>)
    requires expr.Some? ==> IsCString(expr.value)
    ensures var source := if expr.Some? then expr.value else [];
            match ParseFilter(source)
            case Ok(f, _) => r == Some(f) && error.None?
            case Bad(left, why) => r.None? && error == Some((|source| - left, why))
  {
    if expr.None? || expr.value == [] {
      return None, Some((0, EmptyExpression));
    }
    var p := new Parser(expr.value);
    assert p.src[0..] == expr.value;
    r := p.ReadOr();
    if r.None? {
      return None, p.error;
    }
    p.SkipWs();
    if At(p.src, p.pos) != '\0' {
      p.Fail(p.pos, TrailingInput);
      return None, p.error;
    }
    error := None;
  }
}
