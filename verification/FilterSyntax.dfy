/**
 The filter expression language: its trees and its grammar as a function of the remaining
 input.
 */
module FilterSyntax {
  import opened Common

  // ----- Trees -----

  datatype Op = Eq | Ne | Lt | Le | Gt | Ge | Glob | NotGlob

  datatype Operand =
    | Num(n: int)
    | Str(s: string)
    | Param(name: string)
    | Func
    | Ret
    | Caller

  datatype Filter =
    | Or(left: Filter, right: Filter)
    | And(left: Filter, right: Filter)
    | Not(child: Filter)
    | Cmp(op: Op, lhs: Operand, rhs: Operand)

  predicate IsTextual(o: Operand) {
    o.Str? || o.Func? || o.Caller?
  }

  predicate IsRelational(op: Op) {
    op.Lt? || op.Le? || op.Gt? || op.Ge?
  }

  /** The type rule: relations need numeric operands, a glob needs a literal pattern. */
  predicate WellTyped(op: Op, lhs: Operand, rhs: Operand) {
    && (IsRelational(op) ==> !IsTextual(lhs) && !IsTextual(rhs))
    && (op.Glob? || op.NotGlob? ==> rhs.Str?)
  }

  // ----- Characters -----

  predicate IsDigit(c: char) {
    '0' <= c <= '9'
  }

  predicate IsAlpha(c: char) {
    'a' <= c <= 'z' || 'A' <= c <= 'Z'
  }

  predicate IsIdentChar(c: char) {
    IsAlpha(c) || IsDigit(c) || c == '_'
  }

  predicate IsBlank(c: char) {
    c == ' ' || c == '\t'
  }

  function DigitValue(c: char): (d: nat)
    requires IsDigit(c)
    ensures d < 10
  {
    c as int - '0' as int
  }

  const LLONG_MAX: int := 0x7fff_ffff_ffff_ffff
  const LLONG_MIN: int := -0x8000_0000_0000_0000

  /** A 64-bit signed result: what does not fit wraps round. */
  function Wrap(x: int): (w: int)
    ensures LLONG_MIN <= w <= LLONG_MAX
    ensures LLONG_MIN <= x <= LLONG_MAX ==> w == x
  {
    (x - LLONG_MIN) % 0x1_0000_0000_0000_0000 + LLONG_MIN
  }

  // ----- The grammar, on the remaining input -----

  datatype Fault =
    | EmptyExpression
    | UnterminatedString
    | ExpectedOperand
    | ExpectedOperator
    | ExpectedParen
    | RelationNeedsNumbers
    | GlobNeedsLiteral
    | TrailingInput

  /** A parse: the value and the input left, or how much input was left at the first fault. */
  datatype Parsed<+T> = Ok(value: T, rest: string) | Bad(left: nat, why: Fault)

  function SkipBlanks(s: string): (r: string)
    ensures |r| <= |s|
  {
    if s != [] && IsBlank(s[0]) then SkipBlanks(s[1..]) else s
  }

  predicate AtKeyword(s: string, kw: string) {
    kw <= s && !IsIdentChar(At(s, |kw|))
  }

  /** The unescaped body of a string literal and the input after its closing quote. */
  function StringBody(s: string): (r: Option<(string, string)>)
    ensures r.Some? ==> |r.value.1| < |s|
  {
    if s == [] then
      None
    else if s[0] == '"' then
      Some(([], s[1..]))
    else if s[0] == '\\' && 1 < |s| then
      var r := StringBody(s[2..]);
      if r.None? then None else Some(([s[1]] + r.value.0, r.value.1))
    else
      var r := StringBody(s[1..]);
      if r.None? then None else Some(([s[0]] + r.value.0, r.value.1))
  }

  /** The digits at the front, continuing the value `v`, and what follows them. */
  function Digits(s: string, v: int): (r: (int, string))
    ensures |r.1| <= |s|
    ensures s != [] && IsDigit(s[0]) ==> |r.1| < |s|
  {
    if s == [] || !IsDigit(s[0]) then (v, s) else Digits(s[1..], Wrap(v * 10 + DigitValue(s[0])))
  }

  function IdentLength(s: string): (n: nat)
    ensures n <= |s|
    ensures forall k :: 0 <= k < n ==> IsIdentChar(s[k])
    ensures n < |s| ==> !IsIdentChar(s[n])
  {
    if s == [] || !IsIdentChar(s[0]) then 0 else 1 + IdentLength(s[1..])
  }

  function NamedOperand(name: string): Operand {
    if name == "func" then Func
    else if name == "ret" then Ret
    else if name == "caller" then Caller
    else Param(name)
  }

  /** A number, perhaps negated. */
  function NumberAt(s: string): (r: (int, string))
    requires s != [] && (s[0] == '-' || IsDigit(s[0]))
    ensures IsDigit(s[0]) || (|s| > 1 && IsDigit(s[1])) ==> |r.1| < |s|
  {
    var negative := s[0] == '-';
    var value := Digits(if negative then s[1..] else s, 0);
    (if negative then Wrap(-value.0) else value.0, value.1)
  }

  function ParseOperand(s0: string): (r: Parsed<Operand>)
    ensures r.Ok? ==> |r.rest| < |s0|
    ensures r.Bad? ==> r.left <= |s0| && r.why != TrailingInput
  {
    var s := SkipBlanks(s0);
    if At(s, 0) == '"' && s != [] then
      var body := StringBody(s[1..]);
      if body.None? then Bad(0, UnterminatedString) else Ok(Str(body.value.0), body.value.1)
    else if IsDigit(At(s, 0)) || (At(s, 0) == '-' && IsDigit(At(s, 1))) then
      var (n, rest) := NumberAt(s);
      Ok(Num(n), rest)
    else if AtKeyword(s, "and") || AtKeyword(s, "or") || AtKeyword(s, "not") then
      Bad(|s|, ExpectedOperand)
    else if IsAlpha(At(s, 0)) || At(s, 0) == '_' then
      Ok(NamedOperand(s[..IdentLength(s)]), s[IdentLength(s)..])
    else
      Bad(|s|, ExpectedOperand)
  }

  /** The operator at the front and its length; the two-character forms are tried first. */
  function OperatorAt(s: string): (r: Option<(Op, nat)>)
    ensures r.Some? ==> 0 < r.value.1 <= |s|
  {
    if "==" <= s then Some((Eq, 2))
    else if "!=" <= s then Some((Ne, 2))
    else if "<=" <= s then Some((Le, 2))
    else if ">=" <= s then Some((Ge, 2))
    else if "<" <= s then Some((Lt, 1))
    else if ">" <= s then Some((Gt, 1))
    else if "!~" <= s then Some((NotGlob, 2))
    else if "~" <= s then Some((Glob, 1))
    else None
  }

  function ParseComparison(s: string): (r: Parsed<Filter>)
    ensures r.Ok? ==> |r.rest| < |s|
    ensures r.Bad? ==> r.left <= |s| && r.why != TrailingInput
  {
    var lhs := ParseOperand(s);
    if lhs.Bad? then Bad(lhs.left, lhs.why) else
    var s1 := SkipBlanks(lhs.rest);
    var op := OperatorAt(s1);
    if op.None? then Bad(|s1|, ExpectedOperator) else
    var rhs := ParseOperand(s1[op.value.1..]);
    if rhs.Bad? then Bad(rhs.left, rhs.why)
    else if IsRelational(op.value.0) && (IsTextual(lhs.value) || IsTextual(rhs.value)) then
      Bad(|rhs.rest|, RelationNeedsNumbers)
    else if (op.value.0.Glob? || op.value.0.NotGlob?) && !rhs.value.Str? then
      Bad(|rhs.rest|, GlobNeedsLiteral)
    else
      Ok(Cmp(op.value.0, lhs.value, rhs.value), rhs.rest)
  }

  function ParsePrimary(s0: string): (r: Parsed<Filter>)
    ensures r.Ok? ==> |r.rest| < |s0|
    ensures r.Bad? ==> r.left <= |s0| && r.why != TrailingInput
    decreases |s0|, 0
  {
    var s := SkipBlanks(s0);
    if "(" <= s then
      var inner := ParseOr(s[1..]);
      if inner.Bad? then inner else
      var s1 := SkipBlanks(inner.rest);
      if ")" <= s1 then Ok(inner.value, s1[1..]) else Bad(|s1|, ExpectedParen)
    else
      ParseComparison(s)
  }

  function ParseNot(s0: string): (r: Parsed<Filter>)
    ensures r.Ok? ==> |r.rest| < |s0|
    ensures r.Bad? ==> r.left <= |s0| && r.why != TrailingInput
    decreases |s0|, 1
  {
    var s := SkipBlanks(s0);
    if AtKeyword(s, "not") then
      var child := ParseNot(s[3..]);
      if child.Bad? then child else Ok(Not(child.value), child.rest)
    else
      ParsePrimary(s)
  }

  function ParseAndTail(lhs: Filter, s0: string): (r: Parsed<Filter>)
    ensures r.Ok? ==> |r.rest| <= |s0|
    ensures r.Bad? ==> r.left <= |s0| && r.why != TrailingInput
    decreases |s0|, 2
  {
    var s := SkipBlanks(s0);
    if AtKeyword(s, "and") then
      var rhs := ParseNot(s[3..]);
      if rhs.Bad? then rhs else ParseAndTail(And(lhs, rhs.value), rhs.rest)
    else
      Ok(lhs, s)
  }

  function ParseAnd(s: string): (r: Parsed<Filter>)
    ensures r.Ok? ==> |r.rest| < |s|
    ensures r.Bad? ==> r.left <= |s| && r.why != TrailingInput
    decreases |s|, 3
  {
    var lhs := ParseNot(s);
    if lhs.Bad? then lhs else ParseAndTail(lhs.value, lhs.rest)
  }

  function ParseOrTail(lhs: Filter, s0: string): (r: Parsed<Filter>)
    ensures r.Ok? ==> |r.rest| <= |s0|
    ensures r.Bad? ==> r.left <= |s0| && r.why != TrailingInput
    decreases |s0|, 4
  {
    var s := SkipBlanks(s0);
    if AtKeyword(s, "or") then
      var rhs := ParseAnd(s[2..]);
      if rhs.Bad? then rhs else ParseOrTail(Or(lhs, rhs.value), rhs.rest)
    else
      Ok(lhs, s)
  }

  function ParseOr(s: string): (r: Parsed<Filter>)
    ensures r.Ok? ==> |r.rest| < |s|
    ensures r.Bad? ==> r.left <= |s| && r.why != TrailingInput
    decreases |s|, 5
  {
    var lhs := ParseAnd(s);
    if lhs.Bad? then lhs else ParseOrTail(lhs.value, lhs.rest)
  }

  /** A whole expression: nothing but blanks may follow. */
  function ParseFilter(s: string): (r: Parsed<Filter>)
    ensures r.Ok? ==> r.rest == []
    ensures r.Bad? ==> r.left <= |s|
  {
    if s == [] then Bad(0, EmptyExpression) else
    var r := ParseOr(s);
    if r.Bad? then r else
    var s1 := SkipBlanks(r.rest);
    if s1 == [] then Ok(r.value, []) else Bad(|s1|, TrailingInput)
  }
}
