/**
 The log file and its reader. Each entry is one serialised JSON object; the writer frames entries as a JSON
 array or one per line, and the scanner that the trace tools share cuts them out again by tracking braces and
 string literals.
 */
module LogStream {
  import opened Common

  // ----- Serialisation -----

  /** No character outside a string literal that the scanner looks for. */
  predicate Plain(s: string) {
    forall i :: 0 <= i < |s| ==> s[i] !in ['"', '{', '}']
  }

  predicate IsDigit(c: char) {
    '0' <= c <= '9'
  }

  predicate IsNumberChar(c: char) {
    IsDigit(c) || c == '-' || c == '+' || c == '.' || c == 'e' || c == 'E'
  }

  /** The length of the digits at the front. */
  function DigitRun(s: string): (n: nat)
    ensures n <= |s| && forall i :: 0 <= i < n ==> IsDigit(s[i])
  {
    if s == [] || !IsDigit(s[0]) then 0 else 1 + DigitRun(s[1..])
  }

  /** The rest of a number after its fraction: nothing, or a signed or unsigned exponent. */
  predicate IsExponent(s: string) {
    s == [] ||
    ((s[0] == 'e' || s[0] == 'E') &&
     var t := if |s| > 1 && (s[1] == '+' || s[1] == '-') then s[2..] else s[1..];
     t != [] && DigitRun(t) == |t|)
  }

  predicate IsFraction(s: string) {
    if s != [] && s[0] == '.' then DigitRun(s[1..]) > 0 && IsExponent(s[1..][DigitRun(s[1..])..]) else IsExponent(s)
  }

  /** A zero at the front is followed by a point or by nothing. */
  predicate IsDecimal(s: string) {
    && !(|s| > 1 && s[0] == '0' && s[1] != '.')
    && !(|s| > 2 && s[0] == '-' && s[1] == '0' && s[2] != '.')
  }

  /** A number as section 6 of RFC 8259 spells it; zero has no exponent. */
  predicate IsNumeral(s: string) {
    && IsDecimal(s)
    && (forall i :: 0 <= i < |s| ==> IsNumberChar(s[i]))
    && var t := if s != [] && s[0] == '-' then s[1..] else s;
       DigitRun(t) > 0 && IsFraction(t[DigitRun(t)..])
  }

  /** A printed number. */
  type Numeral = s: string | IsNumeral(s) witness "0"

  /** Text that a terminated string can hold. */
  type Text = s: string | IsCString(s) witness ""

  datatype Json =
    | Null
    | Bool(b: bool)
    | Number(numeral: Numeral)
    | String(s: Text)
    | Array(items: seq<Json>)
    | Object(members: seq<Member>)

  datatype Member = Member(name: Text, value: Json)

  function Hex(n: nat): char
    requires n < 16
  {
    "0123456789abcdef"[n]
  }

  /** String escapes, as in section 7 of RFC 8259; a slash is escaped too. */
  function Escape(c: char): string {
    if c == '"' then "\\\""
    else if c == '\\' then "\\\\"
    else if c == '/' then "\\/"
    else if c as int == 8 then "\\b"
    else if c as int == 12 then "\\f"
    else if c == '\n' then "\\n"
    else if c == '\r' then "\\r"
    else if c == '\t' then "\\t"
    else if c as int < 32 then "\\u00" + [Hex(c as int / 16), Hex(c as int % 16)]
    else [c]
  }

  function EscapeAll(s: string): string {
    if s == [] then [] else Escape(s[0]) + EscapeAll(s[1..])
  }

  function Quote(s: string): string {
    "\"" + EscapeAll(s) + "\""
  }

  /** White space written only by the pretty printer. */
  function Newline(pretty: bool): string {
    if pretty then "\n" else ""
  }

  function Indent(pretty: bool, level: nat): (s: string)
    ensures Plain(s)
  {
    if !pretty || level == 0 then "" else "    " + Indent(pretty, level - 1)
  }

  function Comma(more: bool): string {
    if more then "," else ""
  }

  function Colon(pretty: bool): string {
    if pretty then ": " else ":"
  }

  function Serialize(v: Json, pretty: bool, level: nat): string
    decreases v
  {
    match v
    case Null => "null"
    case Bool(b) => if b then "true" else "false"
    case Number(numeral) => numeral
    case String(s) => Quote(s)
    case Array(items) =>
      "[" + Newline(pretty && items != []) + SerializeItems(items, pretty, level)
      + Indent(pretty && items != [], level) + "]"
    case Object(members) => "{" + ObjectBody(members, pretty, level) + "}"
  }

  function ObjectBody(members: seq<Member>, pretty: bool, level: nat): string
    decreases members, 1
  {
    Newline(pretty && members != []) + SerializeMembers(members, pretty, level)
    + Indent(pretty && members != [], level)
  }

  function SerializeItems(items: seq<Json>, pretty: bool, level: nat): string
    decreases items
  {
    if items == [] then []
    else Indent(pretty, level + 1) + Serialize(items[0], pretty, level + 1) + Comma(|items| > 1)
         + Newline(pretty) + SerializeItems(items[1..], pretty, level)
  }

  function SerializeMembers(members: seq<Member>, pretty: bool, level: nat): string
    decreases members, 0
  {
    if members == [] then []
    else Indent(pretty, level + 1) + Quote(members[0].name) + Colon(pretty)
         + Serialize(members[0].value, pretty, level + 1) + Comma(|members| > 1) + Newline(pretty)
         + SerializeMembers(members[1..], pretty, level)
  }

  // ----- The scanner -----

  datatype Cursor = Cursor(depth: nat, inString: bool, escaped: bool)

  const IDLE := Cursor(0, false, false)

  function Within(depth: nat): Cursor {
    Cursor(depth, false, false)
  }

  /** One character inside an entry. */
  function Step(st: Cursor, c: char): Cursor
    requires st.depth > 0
  {
    if st.inString then
      if st.escaped then st.(escaped := false)
      else if c == '\\' then st.(escaped := true)
      else if c == '"' then st.(inString := false)
      else st
    else if c == '"' then st.(inString := true)
    else if c == '{' then st.(depth := st.depth + 1)
    else if c == '}' then st.(depth := st.depth - 1)
    else st
  }

  /** The entries cut out of `rest`, when `sofar` of the current entry has been read. */
  function Entries(rest: string, st: Cursor, sofar: string): seq<string> {
    if rest == [] then []
    else if st.depth == 0 then
      if rest[0] == '{' then Entries(rest[1..], Within(1), "{") else Entries(rest[1..], st, [])
    else
      var st' := Step(st, rest[0]);
      if st'.depth == 0 then [sofar + [rest[0]]] + Entries(rest[1..], IDLE, [])
      else Entries(rest[1..], st', sofar + [rest[0]])
  }

  /** The entries that parse, in order. */
  function Parsed(slices: seq<string>, parse: string -> Option<Json>): seq<Json> {
    if slices == [] then []
    else (if parse(slices[0]).Some? then [parse(slices[0]).value] else []) + Parsed(slices[1..], parse)
  }

  lemma {:induction false} ParsedConcat(a: seq<string>, b: seq<string>, parse: string -> Option<Json>)
    ensures Parsed(a + b, parse) == Parsed(a, parse) + Parsed(b, parse)
    decreases |a|
  {
    if a == [] {
      assert a + b == b;
    } else {
      var first := if parse(a[0]).Some? then [parse(a[0]).value] else [];
      assert (a + b)[1..] == a[1..] + b && (a + b)[0] == a[0];
      ParsedConcat(a[1..], b, parse);
      Assoc(first, Parsed(a[1..], parse), Parsed(b, parse));
    }
  }

  /** One pass over the text; `seen` is what the callback received. */
  method Scan(text: Option<string>, hasCallback: bool, parse: string -> Option<Json>)
    returns (seen: seq<Json>, count: nat, skipped: nat)
    ensures text.None? || !hasCallback ==> seen == [] && skipped == 0
    ensures text.Some? && hasCallback ==> seen == Parsed(Entries(text.value, IDLE, []), parse)
    ensures text.Some? && hasCallback ==> |seen| + skipped == |Entries(text.value, IDLE, [])|
    ensures count == |seen|
  {
    seen, count, skipped := [], 0, 0;
    if text.None? || text.value == [] || !hasCallback {
      return;
    }
    var t := text.value;
    var depth: nat, start: nat, i: nat := 0, 0, 0;
    var inString, escaped := false, false;
    ghost var all := Entries(t, IDLE, []);
    ghost var slices: seq<string> := [];
    assert t[0..] == t;
    while i < |t|
      invariant start <= i <= |t| && count == |seen| && |seen| + skipped == |slices|
      invariant seen == Parsed(slices, parse)
      invariant depth == 0 ==> all == slices + Entries(t[i..], IDLE, [])
      invariant depth > 0 ==> all == slices + Entries(t[i..], Cursor(depth, inString, escaped), t[start..i])
    {
      var c := t[i];
      i := i + 1;
      assert t[i - 1..][1..] == t[i..];
      if depth == 0 {
        if c == '{' {
          depth, start, inString, escaped := 1, i - 1, false, false;
          assert t[start..i] == "{";
        }
        continue;
      }
      assert t[start..i - 1] + [c] == t[start..i];
      if inString {
        if escaped {
          escaped := false;
        } else if c == '\\' {
          escaped := true;
        } else if c == '"' {
          inString := false;
        }
        continue;
      }
      if c == '"' {
        inString := true;
      } else if c == '{' {
        depth := depth + 1;
      } else if c == '}' {
        depth := depth - 1;
        if depth == 0 {
          var slice := t[start..i];
          ParsedConcat(slices, [slice], parse);
          Assoc(slices, [slice], Entries(t[i..], IDLE, []));
          slices := slices + [slice];
          var v := parse(slice);
          if v.Some? {
            seen := seen + [v.value];
            count := count + 1;
          } else {
            skipped := skipped + 1;
          }
        }
      }
    }
    assert t[i..] == [] && slices + [] == slices;
  }

  // ----- Reading a serialised value -----

  /** The cursor after `s`. */
  function Read(st: Cursor, s: string): Cursor
    requires Deep(st, s)
    decreases |s|
  {
    if s == [] then st else Read(Step(st, s[0]), s[1..])
  }

  /** The entry does not end within `s`. */
  predicate Deep(st: Cursor, s: string)
    decreases |s|
  {
    st.depth > 0 && (s != [] ==> Deep(Step(st, s[0]), s[1..]))
  }

  lemma {:induction false} ReadConcat(st: Cursor, a: string, b: string)
    requires Deep(st, a) && Deep(Read(st, a), b)
    ensures Deep(st, a + b) && Read(st, a + b) == Read(Read(st, a), b)
    decreases a
  {
    if a == [] {
      assert a + b == b;
    } else {
      assert (a + b)[1..] == a[1..] + b;
      ReadConcat(Step(st, a[0]), a[1..], b);
    }
  }

  /** Reading `s` from `st` never leaves the entry and comes back to `st`. */
  predicate Neutral(st: Cursor, s: string) {
    Deep(st, s) && Read(st, s) == st
  }

  lemma NeutralConcat(st: Cursor, a: string, b: string)
    requires Neutral(st, a) && Neutral(st, b)
    ensures Neutral(st, a + b)
  {
    ReadConcat(st, a, b);
  }

  lemma {:induction false} PlainIsNeutral(depth: nat, s: string)
    requires depth > 0 && Plain(s)
    ensures Neutral(Within(depth), s)
    decreases s
  {
    if s != [] {
      assert s[0] !in ['"', '{', '}'];
      assert Plain(s[1..]);
      PlainIsNeutral(depth, s[1..]);
    }
  }

  lemma EscapeIsNeutral(depth: nat, c: char)
    requires depth > 0
    ensures Neutral(Cursor(depth, true, false), Escape(c))
  {
    var st := Cursor(depth, true, false);
    var e := Escape(c);
    assert Deep(st, []);
    if |e| == 1 {
      assert e[1..] == [] && Step(st, e[0]) == st;
    } else {
      assert e[0] == '\\' && Step(Step(st, e[0]), e[1]) == st;
      assert e[1..][1..] == e[2..];
      TameIsNeutral(st, e[2..]);
    }
  }

  /** Inside a string, characters other than a quote or a backslash change nothing. */
  lemma {:induction false} TameIsNeutral(st: Cursor, s: string)
    requires st.depth > 0 && st.inString && !st.escaped
    requires forall i :: 0 <= i < |s| ==> s[i] != '"' && s[i] != '\\'
    ensures Neutral(st, s)
    decreases s
  {
    if s != [] {
      TameIsNeutral(st, s[1..]);
    }
  }

  lemma {:induction false} EscapeAllIsNeutral(depth: nat, s: string)
    requires depth > 0
    ensures Neutral(Cursor(depth, true, false), EscapeAll(s))
    decreases s
  {
    if s != [] {
      EscapeIsNeutral(depth, s[0]);
      EscapeAllIsNeutral(depth, s[1..]);
      NeutralConcat(Cursor(depth, true, false), Escape(s[0]), EscapeAll(s[1..]));
    }
  }

  lemma QuoteIsNeutral(depth: nat, s: string)
    requires depth > 0
    ensures Neutral(Within(depth), Quote(s))
  {
    EscapeAllIsNeutral(depth, s);
    Wrap(Within(depth), Cursor(depth, true, false), '"', EscapeAll(s), '"');
  }

  /** One character out of `st` into `inner`, a neutral stretch, one character back. */
  lemma Wrap(st: Cursor, inner: Cursor, first: char, s: string, last: char)
    requires st.depth > 0 && Step(st, first) == inner && Neutral(inner, s)
    requires inner.depth > 0 && Step(inner, last) == st
    ensures Neutral(st, [first] + s + [last])
  {
    One(st, first);
    One(inner, last);
    ReadConcat(st, [first], s);
    ReadConcat(st, [first] + s, [last]);
  }

  lemma One(st: Cursor, c: char)
    requires st.depth > 0 && Step(st, c).depth > 0
    ensures Deep(st, [c]) && Read(st, [c]) == Step(st, c)
  {
    assert [c][1..] == [];
    assert Deep(Step(st, c), []);
  }

  lemma NeutralConcat3(st: Cursor, a: string, b: string, c: string)
    requires Neutral(st, a) && Neutral(st, b) && Neutral(st, c)
    ensures Neutral(st, a + b + c)
  {
    NeutralConcat(st, a, b);
    NeutralConcat(st, a + b, c);
  }

  lemma {:induction false} SerializeIsNeutral(depth: nat, v: Json, pretty: bool, level: nat)
    requires depth > 0
    ensures Neutral(Within(depth), Serialize(v, pretty, level))
    decreases v
  {
    hide Neutral, Deep, Read;
    match v
    case Null => PlainIsNeutral(depth, "null");
    case Bool(b) => PlainIsNeutral(depth, if b then "true" else "false");
    case Number(numeral) => PlainIsNeutral(depth, numeral);
    case String(s) => QuoteIsNeutral(depth, s);
    case Array(items) =>
      ItemsAreNeutral(depth, items, pretty, level);
      ArrayIsNeutral(depth, items, pretty, level);
    case Object(members) =>
      MembersAreNeutral(depth + 1, members, pretty, level);
      BodyIsNeutral(depth + 1, members, pretty, level);
      Wrap(Within(depth), Within(depth + 1), '{', ObjectBody(members, pretty, level), '}');
  }

  lemma ArrayIsNeutral(depth: nat, items: seq<Json>, pretty: bool, level: nat)
    requires depth > 0 && Neutral(Within(depth), SerializeItems(items, pretty, level))
    ensures Neutral(Within(depth), Serialize(Array(items), pretty, level))
  {
    hide Neutral, SerializeItems, Indent;
    var st := Within(depth);
    PlainIsNeutral(depth, "[" + Newline(pretty && items != []));
    PlainIsNeutral(depth, Indent(pretty && items != [], level));
    PlainIsNeutral(depth, "]");
    NeutralConcat3(st, "[" + Newline(pretty && items != []), SerializeItems(items, pretty, level),
                   Indent(pretty && items != [], level));
    NeutralConcat(st, "[" + Newline(pretty && items != []) + SerializeItems(items, pretty, level)
                      + Indent(pretty && items != [], level), "]");
  }

  lemma BodyIsNeutral(depth: nat, members: seq<Member>, pretty: bool, level: nat)
    requires depth > 0 && Neutral(Within(depth), SerializeMembers(members, pretty, level))
    ensures Neutral(Within(depth), ObjectBody(members, pretty, level))
  {
    hide Neutral, SerializeMembers, Indent;
    PlainIsNeutral(depth, Newline(pretty && members != []));
    PlainIsNeutral(depth, Indent(pretty && members != [], level));
    NeutralConcat3(Within(depth), Newline(pretty && members != []), SerializeMembers(members, pretty, level),
                   Indent(pretty && members != [], level));
  }

  lemma {:induction false} ItemsAreNeutral(depth: nat, items: seq<Json>, pretty: bool, level: nat)
    requires depth > 0
    ensures Neutral(Within(depth), SerializeItems(items, pretty, level))
    decreases items
  {
    hide Neutral, Serialize, Indent;
    var st := Within(depth);
    if items == [] {
      PlainIsNeutral(depth, []);
    } else {
      var a, b, c, d := Indent(pretty, level + 1), Serialize(items[0], pretty, level + 1), Comma(|items| > 1),
                        Newline(pretty);
      PlainIsNeutral(depth, a);
      SerializeIsNeutral(depth, items[0], pretty, level + 1);
      PlainIsNeutral(depth, c);
      PlainIsNeutral(depth, d);
      ItemsAreNeutral(depth, items[1..], pretty, level);
      NeutralConcat3(st, a, b, c);
      NeutralConcat3(st, a + b + c, d, SerializeItems(items[1..], pretty, level));
    }
  }

  lemma {:induction false} MembersAreNeutral(depth: nat, members: seq<Member>, pretty: bool, level: nat)
    requires depth > 0
    ensures Neutral(Within(depth), SerializeMembers(members, pretty, level))
    decreases members
  {
    hide Neutral, Serialize, Indent, Quote;
    var st := Within(depth);
    if members == [] {
      PlainIsNeutral(depth, []);
    } else {
      var a, b, c, d := Indent(pretty, level + 1), Quote(members[0].name), Colon(pretty),
                        Serialize(members[0].value, pretty, level + 1);
      var e, f := Comma(|members| > 1), Newline(pretty);
      PlainIsNeutral(depth, a);
      QuoteIsNeutral(depth, members[0].name);
      PlainIsNeutral(depth, c);
      SerializeIsNeutral(depth, members[0].value, pretty, level + 1);
      PlainIsNeutral(depth, e);
      PlainIsNeutral(depth, f);
      MembersAreNeutral(depth, members[1..], pretty, level);
      NeutralConcat3(st, a, b, c);
      NeutralConcat3(st, a + b + c, d, e);
      NeutralConcat3(st, a + b + c + d + e, f, SerializeMembers(members[1..], pretty, level));
    }
  }

  // ----- Cutting entries out -----

  lemma {:induction false} EntriesInside(a: string, b: string, st: Cursor, sofar: string)
    requires Deep(st, a)
    ensures Entries(a + b, st, sofar) == Entries(b, Read(st, a), sofar + a)
    decreases a
  {
    if a == [] {
      assert a + b == b && sofar + a == sofar;
    } else {
      assert (a + b)[1..] == a[1..] + b;
      assert sofar + [a[0]] + a[1..] == sofar + a;
      EntriesInside(a[1..], b, Step(st, a[0]), sofar + [a[0]]);
    }
  }

  lemma {:induction false} EntriesGap(gap: string, b: string)
    requires '{' !in gap
    ensures Entries(gap + b, IDLE, []) == Entries(b, IDLE, [])
    decreases gap
  {
    if gap == [] {
      assert gap + b == b;
    } else {
      assert (gap + b)[1..] == gap[1..] + b && (gap + b)[0] == gap[0];
      EntriesGap(gap[1..], b);
    }
  }

  /** The text of an entry: an object, printed either way. */
  function EntryText(members: seq<Member>, pretty: bool): string {
    Serialize(Object(members), pretty, 0)
  }

  lemma EntryIsCut(members: seq<Member>, pretty: bool, b: string)
    ensures Entries(EntryText(members, pretty) + b, IDLE, []) == [EntryText(members, pretty)] + Entries(b, IDLE, [])
  {
    var body := ObjectBody(members, pretty, 0);
    hide Neutral, Serialize;
    MembersAreNeutral(1, members, pretty, 0);
    BodyIsNeutral(1, members, pretty, 0);
    WrappedIsCut(body, b);
    assert EntryText(members, pretty) == "{" + body + "}" by {
      EntryShape(members, pretty);
    }
  }

  lemma EntryShape(members: seq<Member>, pretty: bool)
    ensures EntryText(members, pretty) == "{" + ObjectBody(members, pretty, 0) + "}"
  {
  }

  lemma WrappedIsCut(body: string, b: string)
    requires Neutral(Within(1), body)
    ensures Entries("{" + body + "}" + b, IDLE, []) == ["{" + body + "}"] + Entries(b, IDLE, [])
  {
    var text := "{" + body + "}" + b;
    assert text[1..] == body + ("}" + b);
    EntriesInside(body, "}" + b, Within(1), "{");
    assert ("}" + b)[1..] == b;
  }

  /** A proper prefix of an entry yields nothing. */
  lemma PrefixYieldsNothing(members: seq<Member>, pretty: bool, k: nat)
    requires k < |EntryText(members, pretty)|
    ensures Entries(EntryText(members, pretty)[..k], IDLE, []) == []
  {
    hide Neutral, Serialize, ObjectBody;
    var body := ObjectBody(members, pretty, 0);
    EntryShape(members, pretty);
    MembersAreNeutral(1, members, pretty, 0);
    BodyIsNeutral(1, members, pretty, 0);
    if k > 0 {
      var part := body[..k - 1];
      DeepPrefix(Within(1), part, body[k - 1..]) by {
        NeutralIsDeep(body);
        assert part + body[k - 1..] == body;
      }
      assert EntryText(members, pretty)[..k] == "{" + part;
      assert ("{" + part)[1..] == part && part + [] == part;
      EntriesInside(part, [], Within(1), "{");
    }
  }

  lemma NeutralIsDeep(body: string)
    requires Neutral(Within(1), body)
    ensures Deep(Within(1), body)
  {
  }

  lemma {:induction false} DeepPrefix(st: Cursor, a: string, b: string)
    requires Deep(st, a + b)
    ensures Deep(st, a)
    decreases a
  {
    if a != [] {
      assert (a + b)[1..] == a[1..] + b && (a + b)[0] == a[0];
      DeepPrefix(Step(st, a[0]), a[1..], b);
    }
  }
}
