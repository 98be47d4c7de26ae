/**
 Reading JSON back: the parser that the scanner hands each entry to. A value nested too deeply, and an object that
 repeats a name, are refused; everything else that the serialiser prints is read back as it was.
 */
module JsonReader {
  import opened Common
  import opened LogStream

  const MAX_NESTING: nat := 2048

  // ----- The parser -----

  /** What was read, and the text after it. */
  datatype Got<+T> = Fail | Got(value: T, rest: string)

  predicate IsSpace(c: char) {
    c == ' ' || 9 <= c as int <= 13
  }

  function SkipSpace(s: string): (t: string)
    ensures |t| <= |s|
  {
    if s == [] || !IsSpace(s[0]) then s else SkipSpace(s[1..])
  }

  function HexValue(c: char): Option<nat> {
    if '0' <= c <= '9' then Some(c as nat - '0' as nat)
    else if 'a' <= c <= 'f' then Some(c as nat - 'a' as nat + 10)
    else if 'A' <= c <= 'F' then Some(c as nat - 'A' as nat + 10)
    else None
  }

  /** A character escaped as two zeros and two hexadecimal digits; NUL and wider characters are not read here. */
  function UnescapeHex(s: string): Option<char> {
    if |s| < 4 || s[0] != '0' || s[1] != '0' then None
    else
      var a, b := HexValue(s[2]), HexValue(s[3]);
      if a.None? || b.None? || a.value >= 8 || 16 * a.value + b.value == 0 then None
      else Some((16 * a.value + b.value) as char)
  }

  function Unescape(c: char): Option<char> {
    if c == '"' || c == '\\' || c == '/' then Some(c)
    else if c == 'b' then Some(8 as char)
    else if c == 'f' then Some(12 as char)
    else if c == 'n' then Some('\n')
    else if c == 'r' then Some('\r')
    else if c == 't' then Some('\t')
    else None
  }

  function Prepend(c: char, g: Got<Text>): Got<Text>
    requires c != '\0'
  {
    if g.Fail? then Fail else Got([c] + g.value, g.rest)
  }

  /** A string, after its opening quote. */
  function ReadString(s: string): (g: Got<Text>)
    ensures g.Got? ==> |g.rest| < |s|
  {
    if s == [] then Fail
    else if s[0] == '"' then Got("", s[1..])
    else if s[0] == '\\' then
      if |s| < 2 then Fail
      else if s[1] == 'u' then
        var c := UnescapeHex(s[2..]);
        if c.None? then Fail else Prepend(c.value, ReadString(s[6..]))
      else
        var c := Unescape(s[1]);
        if c.None? then Fail else Prepend(c.value, ReadString(s[2..]))
    else if s[0] as int < 32 then Fail
    else Prepend(s[0], ReadString(s[1..]))
  }

  /** The length of the number characters at the front. */
  function NumberRun(s: string): (n: nat)
    ensures n <= |s|
  {
    if s == [] || !IsNumberChar(s[0]) then 0 else 1 + NumberRun(s[1..])
  }

  function ReadNumber(s: string): (g: Got<Json>)
    ensures g.Got? ==> |g.rest| < |s|
  {
    var n := NumberRun(s);
    if n > 0 && IsNumeral(s[..n]) then Got(Number(s[..n]), s[n..]) else Fail
  }

  function ReadValue(s: string, nesting: nat): (g: Got<Json>)
    ensures g.Got? ==> |g.rest| < |s|
    decreases |s|, 1
  {
    var t := SkipSpace(s);
    if nesting > MAX_NESTING || t == [] then Fail
    else if t[0] == '{' then ReadObject(t[1..], nesting + 1)
    else if t[0] == '[' then ReadArray(t[1..], nesting + 1)
    else if t[0] == '"' then
      var g := ReadString(t[1..]);
      if g.Fail? then Fail else Got(String(g.value), g.rest)
    else if "null" <= t then Got(Null, t[4..])
    else if "true" <= t then Got(Bool(true), t[4..])
    else if "false" <= t then Got(Bool(false), t[5..])
    else if t[0] == '-' || IsDigit(t[0]) then ReadNumber(t)
    else Fail
  }

  /** An array, after its opening bracket. */
  function ReadArray(s: string, nesting: nat): (g: Got<Json>)
    ensures g.Got? ==> |g.rest| < |s|
    decreases |s|, 3
  {
    var t := SkipSpace(s);
    if t != [] && t[0] == ']' then Got(Array([]), t[1..])
    else
      var g := ReadItems(t, nesting);
      if g.Fail? then Fail else Got(Array(g.value), g.rest)
  }

  function ReadItems(s: string, nesting: nat): (g: Got<seq<Json>>)
    ensures g.Got? ==> |g.rest| < |s|
    decreases |s|, 2
  {
    var g := ReadValue(s, nesting);
    if g.Fail? then Fail
    else
      var t := SkipSpace(g.rest);
      if t == [] then Fail
      else if t[0] == ',' then
        var more := ReadItems(t[1..], nesting);
        if more.Fail? then Fail else Got([g.value] + more.value, more.rest)
      else if t[0] == ']' then Got([g.value], t[1..])
      else Fail
  }

  /** An object, after its opening brace. */
  function ReadObject(s: string, nesting: nat): (g: Got<Json>)
    ensures g.Got? ==> |g.rest| < |s|
    decreases |s|, 3
  {
    var t := SkipSpace(s);
    if t != [] && t[0] == '}' then Got(Object([]), t[1..])
    else
      var g := ReadMembers(t, nesting, {});
      if g.Fail? then Fail else Got(Object(g.value), g.rest)
  }

  /** Members up to the closing brace; `names` are those already read. */
  function ReadMembers(s: string, nesting: nat, names: set<string>): (g: Got<seq<Member>>)
    ensures g.Got? ==> |g.rest| < |s|
    decreases |s|, 2
  {
    var k := ReadName(s);
    if k.Fail? then Fail
    else
      var g := ReadValue(k.rest, nesting);
      if g.Fail? || k.value in names then Fail
      else
        var t := SkipSpace(g.rest);
        if t == [] then Fail
        else if t[0] == ',' then
          var more := ReadMembers(t[1..], nesting, names + {k.value});
          if more.Fail? then Fail else Got([Member(k.value, g.value)] + more.value, more.rest)
        else if t[0] == '}' then Got([Member(k.value, g.value)], t[1..])
        else Fail
  }

  /** A member's name and its colon. */
  function ReadName(s: string): (g: Got<Text>)
    ensures g.Got? ==> |g.rest| < |s|
  {
    var t := SkipSpace(s);
    if t == [] || t[0] != '"' then Fail
    else
      var k := ReadString(t[1..]);
      if k.Fail? then Fail
      else
        var c := SkipSpace(k.rest);
        if c == [] || c[0] != ':' then Fail else Got(k.value, c[1..])
  }

  function Parse(s: string): Option<Json> {
    var g := ReadValue(s, 0);
    if g.Fail? then None else Some(g.value)
  }

  // ----- What can be read -----

  predicate Distinct(members: seq<Member>) {
    forall i, j :: 0 <= i < j < |members| ==> members[i].name != members[j].name
  }

  /** Nested within the limit, counted from `nesting`, and without a repeated name in any object. */
  predicate Readable(v: Json, nesting: nat)
    decreases v
  {
    nesting <= MAX_NESTING &&
    match v
    case Array(items) => forall i :: 0 <= i < |items| ==> Readable(items[i], nesting + 1)
    case Object(members) =>
      Distinct(members) && forall i :: 0 <= i < |members| ==> Readable(members[i].value, nesting + 1)
    case _ => true
  }

  // ----- Whatever is read is readable -----

  lemma {:induction false} ReadIsReadable(s: string, nesting: nat)
    requires ReadValue(s, nesting).Got?
    ensures Readable(ReadValue(s, nesting).value, nesting)
    decreases |s|, 1
  {
    hide ReadString, ReadNumber, SkipSpace, IsNumeral;
    var t := SkipSpace(s);
    if t[0] == '{' {
      ObjectIsReadable(t[1..], nesting + 1);
    } else if t[0] == '[' {
      ArrayIsReadable(t[1..], nesting + 1);
    } else if t[0] != '"' && !("null" <= t) && !("true" <= t) && !("false" <= t) {
      NumberIsNumber(t);
    }
  }

  lemma NumberIsNumber(t: string)
    ensures ReadNumber(t).Got? ==> ReadNumber(t).value.Number?
  {
  }

  lemma {:induction false} ArrayIsReadable(s: string, nesting: nat)
    requires ReadArray(s, nesting).Got? && 0 < nesting <= MAX_NESTING + 1
    ensures Readable(ReadArray(s, nesting).value, nesting - 1)
    decreases |s|, 3
  {
    hide ReadItems, SkipSpace;
    var t := SkipSpace(s);
    if !(t != [] && t[0] == ']') {
      ItemsAreReadable(t, nesting);
    }
  }

  lemma {:induction false} ItemsAreReadable(s: string, nesting: nat)
    requires ReadItems(s, nesting).Got?
    ensures forall i :: 0 <= i < |ReadItems(s, nesting).value| ==> Readable(ReadItems(s, nesting).value[i], nesting)
    decreases |s|, 2
  {
    hide ReadValue, SkipSpace, Readable;
    var g := ReadValue(s, nesting);
    ReadIsReadable(s, nesting);
    var t := SkipSpace(g.rest);
    if t[0] == ',' {
      ItemsAreReadable(t[1..], nesting);
    }
  }

  lemma {:induction false} ObjectIsReadable(s: string, nesting: nat)
    requires ReadObject(s, nesting).Got? && 0 < nesting <= MAX_NESTING + 1
    ensures Readable(ReadObject(s, nesting).value, nesting - 1)
    decreases |s|, 3
  {
    hide ReadMembers, SkipSpace;
    var t := SkipSpace(s);
    if !(t != [] && t[0] == '}') {
      MembersAreReadable(t, nesting, {});
    }
  }

  predicate Fresh(members: seq<Member>, names: set<string>) {
    forall i :: 0 <= i < |members| ==> members[i].name !in names
  }

  lemma {:induction false} MembersAreReadable(s: string, nesting: nat, names: set<string>)
    requires ReadMembers(s, nesting, names).Got?
    ensures var ms := ReadMembers(s, nesting, names).value;
            && Distinct(ms) && Fresh(ms, names)
            && forall i :: 0 <= i < |ms| ==> Readable(ms[i].value, nesting)
    decreases |s|, 2
  {
    hide ReadValue, ReadName, SkipSpace, Readable;
    var k := ReadName(s);
    var g := ReadValue(k.rest, nesting);
    ReadIsReadable(k.rest, nesting);
    var t := SkipSpace(g.rest);
    if t[0] == ',' {
      MembersAreReadable(t[1..], nesting, names + {k.value});
    }
  }

  // ----- Printed text is read back -----

  predicate Space(s: string) {
    forall i :: 0 <= i < |s| ==> IsSpace(s[i])
  }

  lemma {:induction false} SkipMore(space: string, s: string)
    requires Space(space)
    ensures SkipSpace(space + s) == SkipSpace(s)
    decreases |space|
  {
    if space == [] {
      assert space + s == s;
    } else {
      assert (space + s)[0] == space[0] && (space + s)[1..] == space[1..] + s;
      SkipMore(space[1..], s);
    }
  }

  lemma {:induction false} IndentIsSpace(pretty: bool, level: nat)
    ensures Space(Indent(pretty, level))
    decreases level
  {
    if pretty && level > 0 {
      IndentIsSpace(pretty, level - 1);
    }
  }

  /** Reading does not mind leading space. */
  lemma ValueAfterSpace(space: string, s: string, nesting: nat)
    requires Space(space)
    ensures ReadValue(space + s, nesting) == ReadValue(s, nesting)
  {
    hide ReadString, ReadNumber;
    SkipMore(space, s);
  }

  lemma ItemsAfterSpace(space: string, s: string, nesting: nat)
    requires Space(space)
    ensures ReadItems(space + s, nesting) == ReadItems(s, nesting)
  {
    ValueAfterSpace(space, s, nesting);
    hide ReadValue;
  }

  lemma NameAfterSpace(space: string, s: string)
    requires Space(space)
    ensures ReadName(space + s) == ReadName(s)
  {
    hide ReadString;
    SkipMore(space, s);
  }

  lemma MembersAfterSpace(space: string, s: string, nesting: nat, names: set<string>)
    requires Space(space)
    ensures ReadMembers(space + s, nesting, names) == ReadMembers(s, nesting, names)
  {
    NameAfterSpace(space, s);
    hide ReadName, ReadValue;
  }

  lemma HexDigit(n: nat)
    requires n < 16
    ensures HexValue(LogStream.Hex(n)) == Some(n)
  {
  }

  lemma HexRoundTrip(c: char, rest: string)
    requires 0 < c as int < 32
    ensures UnescapeHex("00" + [LogStream.Hex(c as int / 16), LogStream.Hex(c as int % 16)] + rest) == Some(c)
  {
    hide LogStream.Hex, HexValue;
    var a, b := c as int / 16, c as int % 16;
    var s := "00" + [LogStream.Hex(a), LogStream.Hex(b)] + rest;
    HexDigit(a);
    HexDigit(b);
    assert s[0] == '0' && s[1] == '0' && s[2] == LogStream.Hex(a) && s[3] == LogStream.Hex(b);
  }

  lemma PlainChar(c: char, tail: string)
    requires c as int >= 32 && c != '"' && c != '\\'
    ensures ReadString([c] + tail) == Prepend(c, ReadString(tail))
  {
    assert ([c] + tail)[1..] == tail;
  }

  lemma ShortEscape(d: char, c: char, tail: string)
    requires d != 'u' && Unescape(d) == Some(c) && c != '\0'
    ensures ReadString(['\\', d] + tail) == Prepend(c, ReadString(tail))
  {
    assert (['\\', d] + tail)[2..] == tail;
  }

  lemma LongEscape(c: char, tail: string)
    requires 0 < c as int < 32
    ensures ReadString("\\u00" + [LogStream.Hex(c as int / 16), LogStream.Hex(c as int % 16)] + tail)
         == Prepend(c, ReadString(tail))
  {
    hide UnescapeHex, LogStream.Hex;
    var hex := [LogStream.Hex(c as int / 16), LogStream.Hex(c as int % 16)];
    var s := "\\u00" + hex + tail;
    assert s[0] == '\\' && s[1] == 'u' && s[2..] == "00" + hex + tail && s[6..] == tail;
    HexRoundTrip(c, tail);
  }

  lemma CharRoundTrip(c: char, tail: string)
    requires c != '\0' && ReadString(tail).Got?
    ensures ReadString(Escape(c) + tail) == Got([c] + ReadString(tail).value, ReadString(tail).rest)
  {
    hide ReadString, LogStream.Hex;
    var e := Escape(c);
    if |e| == 1 {
      PlainChar(c, tail);
    } else if |e| == 2 {
      assert e == ['\\', e[1]];
      ShortEscape(e[1], c, tail);
    } else {
      LongEscape(c, tail);
    }
  }

  lemma {:induction false} StringRoundTrip(t: Text, rest: string)
    ensures ReadString(EscapeAll(t) + ("\"" + rest)) == Got(t, rest)
    decreases |t|
  {
    hide ReadString, Escape;
    var end := "\"" + rest;
    if t == [] {
      assert EscapeAll(t) + end == end;
      StringEnds(rest);
    } else {
      StringRoundTrip(t[1..], rest);
      Assoc(Escape(t[0]), EscapeAll(t[1..]), end);
      CharRoundTrip(t[0], EscapeAll(t[1..]) + end);
      assert [t[0]] + t[1..] == t;
    }
  }

  lemma StringEnds(rest: string)
    ensures ReadString("\"" + rest) == Got("", rest)
  {
    assert ("\"" + rest)[1..] == rest;
  }

  lemma QuoteRoundTrip(t: Text, rest: string, nesting: nat)
    requires nesting <= MAX_NESTING
    ensures ReadValue(Quote(t) + rest, nesting) == Got(String(t), rest)
  {
    hide ReadString, EscapeAll;
    var s := Quote(t) + rest;
    assert s[0] == '"' && s[1..] == EscapeAll(t) + ("\"" + rest);
    StringRoundTrip(t, rest);
  }

  lemma NameRoundTrip(t: Text, pretty: bool, rest: string)
    ensures ReadName(Quote(t) + Colon(pretty) + rest) == Got(t, (if pretty then " " else "") + rest)
  {
    hide ReadString, EscapeAll;
    var after := Colon(pretty) + rest;
    var s := Quote(t) + Colon(pretty) + rest;
    assert s[0] == '"' && s[1..] == EscapeAll(t) + ("\"" + after);
    StringRoundTrip(t, after);
    assert after[0] == ':' && after[1..] == (if pretty then " " else "") + rest;
  }

  /** What may follow a value: nothing that continues a number. */
  predicate Ends(rest: string) {
    rest == [] || !IsNumberChar(rest[0])
  }

  lemma {:induction false} RunOfNumber(s: string, rest: string)
    requires (forall i :: 0 <= i < |s| ==> IsNumberChar(s[i])) && Ends(rest)
    ensures NumberRun(s + rest) == |s|
    decreases |s|
  {
    if s == [] {
      assert s + rest == rest;
    } else {
      assert (s + rest)[0] == s[0] && (s + rest)[1..] == s[1..] + rest;
      RunOfNumber(s[1..], rest);
    }
  }

  lemma NumeralStart(s: Numeral)
    ensures s != [] && (s[0] == '-' || IsDigit(s[0]))
  {
  }

  lemma NumberBranch(t: string, nesting: nat)
    requires t != [] && (t[0] == '-' || IsDigit(t[0])) && nesting <= MAX_NESTING
    ensures ReadValue(t, nesting) == ReadNumber(t)
  {
    hide ReadNumber, ReadString;
    assert SkipSpace(t) == t;
    assert "null"[0] == 'n' && "true"[0] == 't' && "false"[0] == 'f';
  }

  lemma NumberRoundTrip(s: Numeral, rest: string, nesting: nat)
    requires Ends(rest) && nesting <= MAX_NESTING
    ensures ReadValue(s + rest, nesting) == Got(Number(s), rest)
  {
    hide ReadValue;
    NumeralStart(s);
    RunOfNumber(s, rest);
    var t := s + rest;
    assert t[0] == s[0] && t[..|s|] == s && t[|s|..] == rest;
    hide IsNumeral, NumberRun;
    NumberBranch(t, nesting);
  }

  lemma WordRoundTrip(v: Json, rest: string, nesting: nat)
    requires (v.Null? || v.Bool?) && nesting <= MAX_NESTING
    ensures ReadValue(Serialize(v, false, 0) + rest, nesting) == Got(v, rest)
  {
    var w := Serialize(v, false, 0);
    var t := w + rest;
    assert t[..|w|] == w && t[|w|..] == rest && t[0] == w[0];
    hide ReadString, ReadNumber;
    assert w <= t;
    if v == Bool(true) {
      assert t[0] != "null"[0];
    } else if v == Bool(false) {
      assert t[0] != "null"[0] && t[0] != "true"[0];
    }
  }

  lemma {:induction false} ValueRoundTrip(v: Json, pretty: bool, level: nat, nesting: nat, rest: string)
    requires Readable(v, nesting) && Ends(rest)
    ensures ReadValue(Serialize(v, pretty, level) + rest, nesting) == Got(v, rest)
    decreases v, 1
  {
    hide ReadValue, ReadString, ReadNumber, Quote;
    match v
    case Null => WordRoundTrip(v, rest, nesting);
    case Bool(b) => WordRoundTrip(v, rest, nesting);
    case Number(numeral) => NumberRoundTrip(numeral, rest, nesting);
    case String(s) => QuoteRoundTrip(s, rest, nesting);
    case Array(items) =>
      if items != [] {
        ItemsRoundTrip(items, pretty, level, nesting + 1, rest);
      }
      ArrayRoundTrip(items, pretty, level, nesting, rest);
    case Object(members) =>
      if members != [] {
        MembersRoundTrip(members, pretty, level, nesting + 1, {}, rest);
      }
      ObjectRoundTrip(members, pretty, level, nesting, rest);
  }

  /** The text from the first item to past the closing bracket. */
  function ItemsText(items: seq<Json>, pretty: bool, level: nat, rest: string): string {
    SerializeItems(items, pretty, level) + (Indent(pretty, level) + ("]" + rest))
  }

  /** What follows the first item. */
  function AfterItem(items: seq<Json>, pretty: bool, level: nat, rest: string): string
    requires items != []
  {
    if |items| == 1 then Newline(pretty) + (Indent(pretty, level) + ("]" + rest))
    else "," + (Newline(pretty) + ItemsText(items[1..], pretty, level, rest))
  }

  lemma ArrayRoundTrip(items: seq<Json>, pretty: bool, level: nat, nesting: nat, rest: string)
    requires nesting <= MAX_NESTING
    requires items != [] ==> ReadItems(ItemsText(items, pretty, level, rest), nesting + 1) == Got(items, rest)
    ensures ReadValue(Serialize(Array(items), pretty, level) + rest, nesting) == Got(Array(items), rest)
  {
    hide ReadItems, SerializeItems, Indent, ReadString, ReadNumber;
    var s := Serialize(Array(items), pretty, level) + rest;
    if items == [] {
      EmptyItems(pretty, level);
      assert s == "[]" + rest && s[1..] == "]" + rest && ("]" + rest)[1..] == rest;
    } else {
      var text := ItemsText(items, pretty, level, rest);
      assert s == "[" + (Newline(pretty) + text);
      assert s[0] == '[' && s[1..] == Newline(pretty) + text;
      SkipMore(Newline(pretty), text);
      ItemsStart(items, pretty, level, rest, nesting + 1);
    }
  }

  lemma EmptyItems(pretty: bool, level: nat)
    ensures SerializeItems([], pretty, level) == [] && Indent(false, level) == []
  {
  }

  /** Skipping to the first item loses nothing, and it is not the closing bracket. */
  lemma ItemsStart(items: seq<Json>, pretty: bool, level: nat, rest: string, nesting: nat)
    requires items != [] && ReadItems(ItemsText(items, pretty, level, rest), nesting).Got?
    ensures var t := SkipSpace(ItemsText(items, pretty, level, rest));
            && (t != [] ==> t[0] != ']')
            && ReadItems(t, nesting) == ReadItems(ItemsText(items, pretty, level, rest), nesting)
  {
    hide SerializeItems, Indent, ReadString, ReadNumber, IsNumeral;
    var s := ItemsText(items, pretty, level, rest);
    SkipTwice(s);
  }

  lemma {:induction false} SkipTwice(s: string)
    ensures SkipSpace(SkipSpace(s)) == SkipSpace(s)
    decreases |s|
  {
    if s != [] && IsSpace(s[0]) {
      SkipTwice(s[1..]);
    }
  }

  lemma {:induction false} ItemsRoundTrip(items: seq<Json>, pretty: bool, level: nat, nesting: nat, rest: string)
    requires items != [] && forall i :: 0 <= i < |items| ==> Readable(items[i], nesting)
    ensures ReadItems(ItemsText(items, pretty, level, rest), nesting) == Got(items, rest)
    decreases items, 0
  {
    hide ReadValue, Serialize, Indent, Readable, ReadItems, ItemsText, AfterItem, Ends;
    var first, tail := Serialize(items[0], pretty, level + 1), AfterItem(items, pretty, level, rest);
    var text := ItemsText(items, pretty, level, rest);
    ItemsTextStep(items, pretty, level, rest);
    IndentIsSpace(pretty, level + 1);
    ValueRoundTrip(items[0], pretty, level + 1, nesting, tail);
    ValueAfterSpace(Indent(pretty, level + 1), first + tail, nesting);
    if |items| == 1 {
      LastItemTail(items, pretty, level, rest);
      OneItem(text, nesting, items[0], tail, rest);
      assert items == [items[0]];
    } else {
      var next := ItemsText(items[1..], pretty, level, rest);
      ItemsRoundTrip(items[1..], pretty, level, nesting, rest);
      ItemsAfterSpace(Newline(pretty), next, nesting);
      MoreItemsTail(items, pretty, level, rest);
      MoreItems(text, nesting, items[0], tail, Newline(pretty) + next, items[1..], rest);
      assert items == [items[0]] + items[1..];
    }
  }

  lemma LastItemTail(items: seq<Json>, pretty: bool, level: nat, rest: string)
    requires |items| == 1
    ensures SkipSpace(AfterItem(items, pretty, level, rest)) == "]" + rest
  {
    IndentIsSpace(pretty, level);
    hide Indent;
    SkipMore(Newline(pretty), Indent(pretty, level) + ("]" + rest));
    SkipMore(Indent(pretty, level), "]" + rest);
  }

  lemma MoreItemsTail(items: seq<Json>, pretty: bool, level: nat, rest: string)
    requires |items| > 1
    ensures AfterItem(items, pretty, level, rest) == "," + (Newline(pretty) + ItemsText(items[1..], pretty, level, rest))
  {
  }

  lemma OneItem(s: string, nesting: nat, v: Json, tail: string, rest: string)
    requires ReadValue(s, nesting) == Got(v, tail) && SkipSpace(tail) == "]" + rest
    ensures ReadItems(s, nesting) == Got([v], rest)
  {
    hide ReadValue, SkipSpace;
    assert ("]" + rest)[1..] == rest;
  }

  lemma MoreItems(s: string, nesting: nat, v: Json, tail: string, next: string, more: seq<Json>, rest: string)
    requires ReadValue(s, nesting) == Got(v, tail) && tail == "," + next
    requires ReadItems(next, nesting) == Got(more, rest)
    ensures ReadItems(s, nesting) == Got([v] + more, rest)
  {
    hide ReadValue;
    assert tail[1..] == next && tail[0] == ',';
  }

  lemma ItemsTextStep(items: seq<Json>, pretty: bool, level: nat, rest: string)
    requires items != []
    ensures ItemsText(items, pretty, level, rest)
         == Indent(pretty, level + 1)
            + (Serialize(items[0], pretty, level + 1) + AfterItem(items, pretty, level, rest))
    ensures Ends(AfterItem(items, pretty, level, rest))
  {
    hide Serialize, Indent, SerializeItems;
    var a, b, n, more := Indent(pretty, level + 1), Serialize(items[0], pretty, level + 1), Newline(pretty),
                         SerializeItems(items[1..], pretty, level);
    var end := Indent(pretty, level) + ("]" + rest);
    IndentEnds(pretty, level, "]" + rest);
    ItemsUnfold(items, pretty, level);
    RegroupItems(a, b, Comma(|items| > 1), n, more, end);
    if |items| == 1 {
      assert items[1..] == [];
      NoItems(pretty, level);
      assert "" + (n + (more + end)) == n + end;
    }
  }

  lemma RegroupItems(a: string, b: string, c: string, n: string, more: string, end: string)
    ensures a + b + c + n + more + end == a + (b + (c + (n + (more + end))))
  {
  }

  lemma NoItems(pretty: bool, level: nat)
    ensures SerializeItems([], pretty, level) == []
  {
  }

  lemma ItemsUnfold(items: seq<Json>, pretty: bool, level: nat)
    requires items != []
    ensures SerializeItems(items, pretty, level)
         == Indent(pretty, level + 1) + Serialize(items[0], pretty, level + 1) + Comma(|items| > 1)
            + Newline(pretty) + SerializeItems(items[1..], pretty, level)
  {
    hide Serialize, Indent;
  }

  lemma IndentEnds(pretty: bool, level: nat, rest: string)
    requires Ends(rest)
    ensures Ends(Indent(pretty, level) + rest) && Ends(Newline(pretty) + (Indent(pretty, level) + rest))
  {
    IndentIsSpace(pretty, level);
    var s := Indent(pretty, level) + rest;
    if Indent(pretty, level) != [] {
      assert s[0] == Indent(pretty, level)[0];
    } else {
      assert s == rest;
    }
  }

  // ----- Objects -----

  /** The text from the first member to past the closing brace. */
  function MembersText(members: seq<Member>, pretty: bool, level: nat, rest: string): string {
    SerializeMembers(members, pretty, level) + (Indent(pretty, level) + ("}" + rest))
  }

  /** What follows the first member. */
  function AfterMember(members: seq<Member>, pretty: bool, level: nat, rest: string): string
    requires members != []
  {
    if |members| == 1 then Newline(pretty) + (Indent(pretty, level) + ("}" + rest))
    else "," + (Newline(pretty) + MembersText(members[1..], pretty, level, rest))
  }

  lemma ObjectRoundTrip(members: seq<Member>, pretty: bool, level: nat, nesting: nat, rest: string)
    requires nesting <= MAX_NESTING
    requires members != [] ==>
               ReadMembers(MembersText(members, pretty, level, rest), nesting + 1, {}) == Got(members, rest)
    ensures ReadValue(Serialize(Object(members), pretty, level) + rest, nesting) == Got(Object(members), rest)
  {
    hide ReadMembers, SerializeMembers, Indent, ReadString, ReadNumber;
    var s := Serialize(Object(members), pretty, level) + rest;
    if members == [] {
      NoMembers(pretty, level);
      assert s == "{}" + rest && s[1..] == "}" + rest && ("}" + rest)[1..] == rest;
    } else {
      var text := MembersText(members, pretty, level, rest);
      assert ObjectBody(members, pretty, level)
          == Newline(pretty) + SerializeMembers(members, pretty, level) + Indent(pretty, level);
      WrapObject(Newline(pretty), SerializeMembers(members, pretty, level), Indent(pretty, level), rest);
      var inner := Newline(pretty) + text;
      assert s == "{" + inner;
      assert s[0] == '{' && s[1..] == inner;
      SkipMore(Newline(pretty), text);
      MembersStart(members, pretty, level, rest, nesting + 1);
    }
  }

  lemma WrapObject(n: string, ms: string, i: string, rest: string)
    ensures "{" + (n + ms + i) + "}" + rest == "{" + (n + (ms + (i + ("}" + rest))))
  {
  }

  lemma NoMembers(pretty: bool, level: nat)
    ensures SerializeMembers([], pretty, level) == [] && Indent(false, level) == []
  {
  }

  lemma MembersStart(members: seq<Member>, pretty: bool, level: nat, rest: string, nesting: nat)
    requires members != [] && ReadMembers(MembersText(members, pretty, level, rest), nesting, {}).Got?
    ensures var t := SkipSpace(MembersText(members, pretty, level, rest));
            && (t != [] ==> t[0] != '}')
            && ReadMembers(t, nesting, {}) == ReadMembers(MembersText(members, pretty, level, rest), nesting, {})
  {
    hide SerializeMembers, Indent, ReadString, ReadValue;
    SkipTwice(MembersText(members, pretty, level, rest));
  }

  lemma {:induction false} MembersRoundTrip(
      members: seq<Member>, pretty: bool, level: nat, nesting: nat, names: set<string>, rest: string)
    requires members != [] && Distinct(members) && Fresh(members, names)
    requires forall i :: 0 <= i < |members| ==> Readable(members[i].value, nesting)
    ensures ReadMembers(MembersText(members, pretty, level, rest), nesting, names) == Got(members, rest)
    decreases members, 0
  {
    hide ReadValue, Serialize, Indent, Readable, ReadMembers, ReadName, Quote, Colon, MembersText, AfterMember, Ends;
    var m, tail := members[0], AfterMember(members, pretty, level, rest);
    var text := MembersText(members, pretty, level, rest);
    MembersTextStep(members, pretty, level, rest);
    ValueRoundTrip(m.value, pretty, level + 1, nesting, tail);
    var value := MemberSteps(m, pretty, level, nesting, tail);
    if |members| == 1 {
      LastMemberTail(members, pretty, level, rest);
      OneMember(text, nesting, names, m, value, tail, rest);
      assert members == [m];
    } else {
      var next := MembersText(members[1..], pretty, level, rest);
      FreshTail(members, names);
      MembersRoundTrip(members[1..], pretty, level, nesting, names + {m.name}, rest);
      MembersAfterSpace(Newline(pretty), next, nesting, names + {m.name});
      MoreMembersTail(members, pretty, level, rest);
      MoreMembers(text, nesting, names, m, value, tail, Newline(pretty) + next, members[1..], rest);
      assert members == [m] + members[1..];
    }
  }

  lemma LastMemberTail(members: seq<Member>, pretty: bool, level: nat, rest: string)
    requires |members| == 1
    ensures SkipSpace(AfterMember(members, pretty, level, rest)) == "}" + rest
  {
    IndentIsSpace(pretty, level);
    hide Indent;
    SkipMore(Newline(pretty), Indent(pretty, level) + ("}" + rest));
    SkipMore(Indent(pretty, level), "}" + rest);
  }

  lemma MoreMembersTail(members: seq<Member>, pretty: bool, level: nat, rest: string)
    requires |members| > 1
    ensures AfterMember(members, pretty, level, rest)
         == "," + (Newline(pretty) + MembersText(members[1..], pretty, level, rest))
  {
  }

  /** One member: its name, then its value. */
  lemma MemberSteps(m: Member, pretty: bool, level: nat, nesting: nat, tail: string) returns (value: string)
    requires ReadValue(Serialize(m.value, pretty, level + 1) + tail, nesting) == Got(m.value, tail)
    ensures ReadName(Indent(pretty, level + 1)
                     + (Quote(m.name) + Colon(pretty) + (Serialize(m.value, pretty, level + 1) + tail)))
         == Got(m.name, value)
    ensures ReadValue(value, nesting) == Got(m.value, tail)
  {
    hide ReadValue, Serialize, Indent, ReadName, Quote, Colon;
    var text := Serialize(m.value, pretty, level + 1) + tail;
    var gap := if pretty then " " else "";
    value := gap + text;
    IndentIsSpace(pretty, level + 1);
    NameRoundTrip(m.name, pretty, text);
    NameAfterSpace(Indent(pretty, level + 1), Quote(m.name) + Colon(pretty) + text);
    ValueAfterSpace(gap, text, nesting);
  }

  lemma FreshTail(members: seq<Member>, names: set<string>)
    requires members != [] && Distinct(members) && Fresh(members, names)
    ensures Distinct(members[1..]) && Fresh(members[1..], names + {members[0].name})
  {
  }

  lemma OneMember(s: string, nesting: nat, names: set<string>, m: Member, value: string, tail: string, rest: string)
    requires ReadName(s) == Got(m.name, value) && ReadValue(value, nesting) == Got(m.value, tail)
    requires m.name !in names && SkipSpace(tail) == "}" + rest
    ensures ReadMembers(s, nesting, names) == Got([m], rest)
  {
    hide ReadValue, ReadName, SkipSpace;
    assert ("}" + rest)[1..] == rest;
  }

  lemma MoreMembers(s: string, nesting: nat, names: set<string>, m: Member, value: string, tail: string,
                    next: string, more: seq<Member>, rest: string)
    requires ReadName(s) == Got(m.name, value) && ReadValue(value, nesting) == Got(m.value, tail)
    requires m.name !in names && tail == "," + next
    requires ReadMembers(next, nesting, names + {m.name}) == Got(more, rest)
    ensures ReadMembers(s, nesting, names) == Got([m] + more, rest)
  {
    hide ReadValue, ReadName;
    assert tail[1..] == next && tail[0] == ',';
  }

  lemma MembersTextStep(members: seq<Member>, pretty: bool, level: nat, rest: string)
    requires members != []
    ensures MembersText(members, pretty, level, rest)
         == Indent(pretty, level + 1)
            + (Quote(members[0].name) + Colon(pretty)
               + (Serialize(members[0].value, pretty, level + 1) + AfterMember(members, pretty, level, rest)))
    ensures Ends(AfterMember(members, pretty, level, rest))
  {
    hide Serialize, Quote, Indent, SerializeMembers, Colon;
    var a, q, k, b := Indent(pretty, level + 1), Quote(members[0].name), Colon(pretty),
                      Serialize(members[0].value, pretty, level + 1);
    var n, more := Newline(pretty), SerializeMembers(members[1..], pretty, level);
    var end := Indent(pretty, level) + ("}" + rest);
    IndentEnds(pretty, level, "}" + rest);
    MembersUnfold(members, pretty, level);
    Regroup(a, q, k, b, Comma(|members| > 1), n, more, end);
    if |members| == 1 {
      assert members[1..] == [];
      NoMembers(pretty, level);
      assert "" + (n + (more + end)) == n + end;
    }
  }

  lemma Regroup(a: string, q: string, k: string, b: string, c: string, n: string, more: string, end: string)
    ensures a + q + k + b + c + n + more + end == a + (q + k + (b + (c + (n + (more + end)))))
  {
  }

  lemma MembersUnfold(members: seq<Member>, pretty: bool, level: nat)
    requires members != []
    ensures SerializeMembers(members, pretty, level)
         == Indent(pretty, level + 1) + Quote(members[0].name) + Colon(pretty)
            + Serialize(members[0].value, pretty, level + 1) + Comma(|members| > 1) + Newline(pretty)
            + SerializeMembers(members[1..], pretty, level)
  {
    hide Serialize, Indent, Quote, Colon;
  }

  /** A printed value, compact or pretty, is read back if and only if it is readable. */
  lemma ParseUndoesSerializeIff(v: Json, pretty: bool, level: nat)
    ensures Parse(Serialize(v, pretty, level)) == Some(v) <==> Readable(v, 0)
  {
    hide Readable, ReadValue;
    var s := Serialize(v, pretty, level);
    if Readable(v, 0) {
      ValueRoundTrip(v, pretty, level, 0, []);
      assert s + [] == s;
    }
    if ReadValue(s, 0).Got? {
      ReadIsReadable(s, 0);
    }
  }
}
