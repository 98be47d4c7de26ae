/**
 What an audit record says: its payload is a JSON object with the record's time, process, digest, algorithm, backends
 and arguments under their names, and the escaped arguments stay within their buffers.
 */
module AuditRecords {
  import opened Common
  import opened LogStream
  import opened JsonReader
  import A = AuditTrail

  // ----- The record as a value -----

  /** Characters that stand for themselves in a JSON string. */
  predicate IsPlainField(s: string) {
    forall i :: 0 <= i < |s| ==> s[i] as int >= 32 && s[i] != '"' && s[i] != '\\'
  }

  function Strings(args: seq<Text>): (vs: seq<Json>)
    ensures |vs| == |args| && forall i :: 0 <= i < |args| ==> vs[i] == String(args[i])
  {
    seq(|args|, i requires 0 <= i < |args| => String(args[i]))
  }

  lemma {:induction false} AllDigits(s: string)
    requires forall i :: 0 <= i < |s| ==> IsDigit(s[i])
    ensures DigitRun(s) == |s|
    decreases |s|
  {
    if s != [] {
      AllDigits(s[1..]);
    }
  }

  lemma {:induction false} NoLeadingZero(n: nat)
    ensures Decimal(n)[0] == '0' ==> n == 0
    decreases n
  {
    if n >= 10 {
      NoLeadingZero(n / 10);
      assert Decimal(n)[0] == Decimal(n / 10)[0];
    }
  }

  lemma DecimalIsNumeral(n: int)
    ensures IsNumeral(Signed(n))
  {
    var m: nat := if n < 0 then -n else n;
    var d := Decimal(m);
    AllDigits(d);
    NoLeadingZero(m);
    var s := Signed(n);
    if n < 0 {
      assert s[1..] == d && s[0] == '-';
      assert |s| > 1 ==> s[1] == d[0];
    }
    assert d[|d|..] == [];
  }

  function Numbered(n: int): Json {
    DecimalIsNumeral(n);
    Number(Signed(n))
  }

  /** The object a record stands for. */
  function RecordOf(f: A.Fields, args: seq<Text>): Json
    requires IsPlainField(f.digest) && IsPlainField(f.alg) && IsPlainField(f.backends)
  {
    Object([Member("ts", Numbered(f.ts)),
            Member("pid", Numbered(f.pid)),
            Member("digest", String(f.digest)),
            Member("alg", String(f.alg)),
            Member("backends", String(f.backends)),
            Member("argv", Array(Strings(args)))])
  }

  // ----- Arguments -----

  /** The quoted arguments with commas between them, untruncated. */
  function List(args: seq<string>, n: nat): string
    requires n <= |args|
  {
    if n == 0 then [] else List(args, n - 1) + (if n == 1 then "" else ",") + A.Quote(args[n - 1])
  }

  lemma {:induction false} ListGrows(args: seq<string>, m: nat, n: nat)
    requires m <= n <= |args|
    ensures |List(args, m)| <= |List(args, n)|
    ensures m < n ==> |List(args, n)| >= |List(args, m)| + (if m == 0 then 0 else 1) + 2
    decreases n
  {
    hide A.EscapeAll;
    if m < n {
      ListGrows(args, m, n - 1);
      assert |A.Quote(args[n - 1])| >= 2;
    }
  }

  /** A list that fits the buffer is not cut. */
  lemma {:induction false} JoinedIsList(args: seq<string>, n: nat)
    requires n <= |args| && |List(args, n)| < A.ARGS_MAX
    ensures A.Joined(args, n) == List(args, n)
    decreases n
  {
    hide A.Quote;
    if n > 0 {
      ListGrows(args, n - 1, n);
      JoinedIsList(args, n - 1);
      if n > 1 {
        ListGrows(args, 0, n - 1);
      }
      assert List(args, n - 1) == [] <==> n == 1;
      assert [] + A.Quote(args[n - 1]) == A.Quote(args[n - 1]);
    }
  }

  lemma HexAgrees(n: nat)
    requires n < 16
    ensures A.Hex(n) == LogStream.Hex(n)
  {
  }

  lemma CharIsRead(c: char, tail: string)
    requires c != '\0'
    ensures ReadString(A.EscapeChar(c) + tail) == Prepend(c, ReadString(tail))
  {
    hide ReadString, LogStream.Hex, A.Hex;
    if c == '"' || c == '\\' {
      ShortEscape(c, c, tail);
    } else if c as int < 32 {
      HexAgrees(c as int / 16);
      HexAgrees(c as int % 16);
      LongEscape(c, tail);
    } else {
      PlainChar(c, tail);
    }
  }

  lemma {:induction false} EscapedIsRead(s: Text, tail: string)
    requires ReadString(tail).Got?
    ensures ReadString(A.EscapeAll(s) + tail) == Got(s + ReadString(tail).value, ReadString(tail).rest)
    decreases |s|
  {
    hide ReadString, A.EscapeChar;
    if s == [] {
      assert A.EscapeAll(s) + tail == tail;
      assert s + ReadString(tail).value == ReadString(tail).value;
    } else {
      var n := |s| - 1;
      var front, c := s[..n], s[n];
      CharIsRead(c, tail);
      EscapedIsRead(front, A.EscapeChar(c) + tail);
      Assoc(A.EscapeAll(front), A.EscapeChar(c), tail);
      assert front + ([c] + ReadString(tail).value) == s + ReadString(tail).value;
    }
  }

  lemma ArgIsRead(arg: Text, rest: string)
    ensures ReadValue(A.Quote(arg) + rest, 2) == Got(String(arg), rest)
  {
    hide ReadString, ReadValue, A.EscapeAll;
    var end := "\"" + rest;
    StringEnds(rest);
    EscapedIsRead(arg, end);
    assert arg + "" == arg;
    QuotedBranch(A.EscapeAll(arg) + end, 2);
    QuoteRegroup(A.EscapeAll(arg), rest);
  }

  lemma QuoteRegroup(body: string, rest: string)
    ensures ("\"" + body + "\"") + rest == "\"" + (body + ("\"" + rest))
  {
  }

  /** A text that opens with a quote is read as a string. */
  lemma QuotedBranch(t: string, nesting: nat)
    requires nesting <= MAX_NESTING
    ensures ReadValue("\"" + t, nesting)
         == var g := ReadString(t); if g.Fail? then Fail else Got(String(g.value), g.rest)
  {
    hide ReadString, ReadNumber, ReadArray, ReadObject;
    var s := "\"" + t;
    assert s[0] == '"' && s[1..] == t && SkipSpace(s) == s;
  }

  /** The arguments from `i` on, and the closing bracket. */
  function ArgsFrom(args: seq<string>, i: nat, rest: string): string
    requires i <= |args|
    decreases |args| - i
  {
    if i == |args| then "]" + rest
    else (if i == 0 then "" else ",") + (A.Quote(args[i]) + ArgsFrom(args, i + 1, rest))
  }

  lemma {:induction false} ListThenRest(args: seq<string>, i: nat, rest: string)
    requires i <= |args|
    ensures List(args, i) + ArgsFrom(args, i, rest) == ArgsFrom(args, 0, rest)
    decreases i
  {
    hide A.Quote, List, ArgsFrom;
    if i == 0 {
      NoList(args);
      assert [] + ArgsFrom(args, 0, rest) == ArgsFrom(args, 0, rest);
    } else {
      var comma, arg, tail := if i == 1 then "" else ",", A.Quote(args[i - 1]), ArgsFrom(args, i, rest);
      ListThenRest(args, i - 1, rest);
      ListUnfold(args, i, rest);
      Regroup4(List(args, i - 1), comma, arg, tail);
    }
  }

  lemma NoList(args: seq<string>)
    ensures List(args, 0) == []
  {
  }

  lemma ListUnfold(args: seq<string>, i: nat, rest: string)
    requires 0 < i <= |args|
    ensures List(args, i) == List(args, i - 1) + (if i == 1 then "" else ",") + A.Quote(args[i - 1])
    ensures ArgsFrom(args, i - 1, rest)
         == (if i == 1 then "" else ",") + (A.Quote(args[i - 1]) + ArgsFrom(args, i, rest))
  {
    hide A.Quote;
  }

  lemma Regroup4(a: string, b: string, c: string, d: string)
    ensures (a + b + c) + d == a + (b + (c + d))
  {
  }

  lemma {:induction false} ArgsAreRead(args: seq<Text>, i: nat, rest: string)
    requires i < |args|
    ensures ReadItems(A.Quote(args[i]) + ArgsFrom(args, i + 1, rest), 2) == Got(Strings(args)[i..], rest)
    decreases |args| - i
  {
    hide A.Quote, ReadValue, ReadItems;
    var tail := ArgsFrom(args, i + 1, rest);
    ArgIsRead(args[i], tail);
    if i + 1 == |args| {
      assert SkipSpace("]" + rest) == "]" + rest;
      OneItem(A.Quote(args[i]) + tail, 2, String(args[i]), tail, rest);
      assert Strings(args)[i..] == [String(args[i])];
    } else {
      ArgsAreRead(args, i + 1, rest);
      var next := A.Quote(args[i + 1]) + ArgsFrom(args, i + 2, rest);
      MoreItems(A.Quote(args[i]) + tail, 2, String(args[i]), tail, next, Strings(args)[i + 1..], rest);
      assert Strings(args)[i..] == [String(args[i])] + Strings(args)[i + 1..];
    }
  }

  lemma ArgvIsRead(args: seq<Text>, rest: string)
    ensures ReadValue("[" + (List(args, |args|) + ("]" + rest)), 1) == Got(Array(Strings(args)), rest)
  {
    hide A.Quote, ReadItems, ReadString, ReadNumber;
    ListThenRest(args, |args|, rest);
    var inner := ArgsFrom(args, 0, rest);
    var s := "[" + inner;
    assert s[0] == '[' && s[1..] == inner && SkipSpace(s) == s;
    if args == [] {
      assert inner == "]" + rest && inner[1..] == rest && SkipSpace(inner) == inner;
      assert Strings(args) == [];
    } else {
      ArgsAreRead(args, 0, rest);
      assert Strings(args)[0..] == Strings(args);
      assert inner == A.Quote(args[0]) + ArgsFrom(args, 1, rest);
      QuoteOpens(args[0], ArgsFrom(args, 1, rest));
    }
  }

  lemma QuoteOpens(arg: string, rest: string)
    ensures var s := A.Quote(arg) + rest; s[0] == '"' && SkipSpace(s) == s
  {
    assert (A.Quote(arg) + rest)[0] == '"';
  }

  // ----- Members -----

  lemma {:induction false} PlainIsRead(s: string, rest: string)
    requires IsPlainField(s)
    ensures IsCString(s) && ReadString(s + ("\"" + rest)) == Got(s, rest)
    decreases |s|
  {
    hide ReadString;
    var end := "\"" + rest;
    if s == [] {
      assert s + end == end;
      StringEnds(rest);
    } else {
      PlainIsRead(s[1..], rest);
      assert s + end == [s[0]] + (s[1..] + end) && [s[0]] + s[1..] == s;
      PlainChar(s[0], s[1..] + end);
    }
  }

  /** A member's text: its name, then its value and what follows. */
  function MemberText(name: string, value: string): string {
    "\"" + (name + ("\":" + value))
  }

  lemma NameIsRead(name: string, value: string)
    requires IsPlainField(name)
    ensures IsCString(name) && ReadName(MemberText(name, value)) == Got(name, value)
  {
    hide ReadString;
    var after := ":" + value;
    var t := name + ("\"" + after);
    PlainIsRead(name, after);
    var s := MemberText(name, value);
    assert s == "\"" + t;
    assert s[0] == '"' && s[1..] == t && after[0] == ':' && after[1..] == value;
  }

  lemma FieldIsRead(s: string, rest: string)
    requires IsPlainField(s)
    ensures ReadValue("\"" + (s + ("\"" + rest)), 1) == Got(String(PlainText(s)), rest)
  {
    hide ReadString, ReadValue;
    PlainIsRead(s, rest);
    QuotedBranch(s + ("\"" + rest), 1);
  }

  function PlainText(s: string): Text
    requires IsPlainField(s)
  {
    s
  }

  /** A member in front of others. */
  lemma MemberThenMore(name: Text, value: string, v: Json, next: string, names: set<string>, more: seq<Member>,
                       rest: string)
    requires IsPlainField(name) && name !in names
    requires ReadValue(value, 1) == Got(v, "," + next) && ReadMembers(next, 1, names + {name}) == Got(more, rest)
    ensures ReadMembers(MemberText(name, value), 1, names) == Got([Member(name, v)] + more, rest)
  {
    hide ReadValue, ReadMembers, ReadName, MemberText;
    NameIsRead(name, value);
    MoreMembers(MemberText(name, value), 1, names, Member(name, v), value, "," + next, next, more, rest);
  }

  // ----- The payload, from each member on -----

  function FromArgv(av: string): string {
    MemberText("argv", "[" + (av + ("]" + "}")))
  }

  function FromBackends(f: A.Fields, av: string): string {
    MemberText("backends", "\"" + (f.backends + ("\"" + ("," + FromArgv(av)))))
  }

  function FromAlg(f: A.Fields, av: string): string {
    MemberText("alg", "\"" + (f.alg + ("\"" + ("," + FromBackends(f, av)))))
  }

  function FromDigest(f: A.Fields, av: string): string {
    MemberText("digest", "\"" + (f.digest + ("\"" + ("," + FromAlg(f, av)))))
  }

  function FromPid(f: A.Fields, av: string): string {
    MemberText("pid", Signed(f.pid) + ("," + FromDigest(f, av)))
  }

  function FromTs(f: A.Fields, av: string): string {
    MemberText("ts", Signed(f.ts) + ("," + FromPid(f, av)))
  }

  lemma PayloadIs(f: A.Fields, av: string)
    ensures A.Payload(f, av) == "{" + FromTs(f, av)
  {
    hide Signed;
    A.PayloadParts(f, av, []);
    assert A.Payload(f, av) + [] == A.Payload(f, av);
    TailIs(f, av);
    OpeningIs(Signed(f.ts), Signed(f.pid), f.digest + ("\"" + ("," + FromAlg(f, av))));
  }

  lemma OpeningIs(ts: string, pid: string, rest: string)
    ensures "{\"ts\":" + ts + ",\"pid\":" + pid + ",\"digest\":\"" + rest
         == "{" + MemberText("ts", ts + ("," + MemberText("pid", pid + ("," + MemberText("digest", "\"" + rest)))))
  {
  }

  lemma TailIs(f: A.Fields, av: string)
    ensures A.FromDigest(f, av, []) == f.digest + ("\"" + ("," + FromAlg(f, av)))
  {
    assert A.FromArgs(av, []) == av + ("]" + "}");
    assert A.BEFORE_ARGV + A.FromArgs(av, []) == "\"" + ("," + FromArgv(av));
    assert A.BEFORE_BACKENDS + A.FromBackends(f, av, []) == "\"" + ("," + FromBackends(f, av));
    assert A.BEFORE_ALG + A.FromAlg(f, av, []) == "\"" + ("," + FromAlg(f, av));
  }

  // ----- The theorem -----

  lemma NumberIsRead(n: int, rest: string)
    ensures ReadValue(Signed(n) + ("," + rest), 1) == Got(Numbered(n), "," + rest)
  {
    hide Signed, ReadValue;
    DecimalIsNumeral(n);
    NumberRoundTrip(Signed(n), "," + rest, 1);
  }

  /** From the arguments back to the front, member by member. */
  lemma ArgvMember(args: seq<Text>, names: set<string>)
    requires "argv" !in names
    ensures ReadMembers(FromArgv(List(args, |args|)), 1, names) == Got([Member("argv", Array(Strings(args)))], [])
  {
    hide ReadValue, ReadMembers, ReadName, List;
    var value := "[" + (List(args, |args|) + ("]" + "}"));
    ArgvIsRead(args, "}");
    NameIsRead("argv", value);
    assert "}" == "}" + [] && SkipSpace("}") == "}";
    OneMember(MemberText("argv", value), 1, names, Member("argv", Array(Strings(args))), value, "}", []);
  }

  /** A text field in front of other members. */
  lemma FieldThenMore(name: Text, field: string, next: string, names: set<string>, more: seq<Member>)
    requires IsPlainField(name) && IsPlainField(field) && name !in names
    requires ReadMembers(next, 1, names + {name}) == Got(more, [])
    ensures ReadMembers(MemberText(name, "\"" + (field + ("\"" + ("," + next)))), 1, names)
         == Got([Member(name, String(PlainText(field)))] + more, [])
  {
    hide ReadValue, ReadMembers, MemberText, IsPlainField;
    FieldIsRead(field, "," + next);
    MemberThenMore(name, "\"" + (field + ("\"" + ("," + next))), String(PlainText(field)), next, names, more, []);
  }

  lemma TextMembers(f: A.Fields, args: seq<Text>)
    requires IsPlainField(f.digest) && IsPlainField(f.alg) && IsPlainField(f.backends)
    ensures ReadMembers(FromDigest(f, List(args, |args|)), 1, {"ts", "pid"}) == Got(TextPart(f, args), [])
  {
    hide ReadMembers, List, MemberText, IsPlainField, FromArgv, TextPart;
    PlainNames();
    var av := List(args, |args|);
    var m := Member("argv", Array(Strings(args)));
    var b := Member("backends", String(PlainText(f.backends)));
    var a := Member("alg", String(PlainText(f.alg)));
    var s2: set<string> := {"ts", "pid"};
    var s3 := s2 + {"digest"};
    var s4 := s3 + {"alg"};
    NamesDiffer();
    ArgvMember(args, s4 + {"backends"});
    FieldThenMore("backends", f.backends, FromArgv(av), s4, [m]);
    FieldThenMore("alg", f.alg, FromBackends(f, av), s3, [b] + [m]);
    FieldThenMore("digest", f.digest, FromAlg(f, av), s2, [a] + ([b] + [m]));
    TextPartIs(f, args);
  }

  function TextPart(f: A.Fields, args: seq<Text>): seq<Member>
    requires IsPlainField(f.digest) && IsPlainField(f.alg) && IsPlainField(f.backends)
  {
    [Member("digest", String(PlainText(f.digest))), Member("alg", String(PlainText(f.alg))),
     Member("backends", String(PlainText(f.backends))), Member("argv", Array(Strings(args)))]
  }

  lemma TextPartIs(f: A.Fields, args: seq<Text>)
    requires IsPlainField(f.digest) && IsPlainField(f.alg) && IsPlainField(f.backends)
    ensures TextPart(f, args)
         == [Member("digest", String(PlainText(f.digest)))]
            + ([Member("alg", String(PlainText(f.alg)))]
               + ([Member("backends", String(PlainText(f.backends)))] + [Member("argv", Array(Strings(args)))]))
    ensures RecordOf(f, args)
         == Object([Member("ts", Numbered(f.ts)), Member("pid", Numbered(f.pid))] + TextPart(f, args))
  {
    hide IsPlainField;
  }

  lemma NamesDiffer()
    ensures var s2: set<string> := {"ts", "pid"};
            && "digest" !in s2 && "alg" !in s2 + {"digest"} && "backends" !in s2 + {"digest"} + {"alg"}
            && "argv" !in s2 + {"digest"} + {"alg"} + {"backends"}
  {
    assert |"ts"| == 2 && |"pid"| == 3 && |"alg"| == 3 && |"argv"| == 4 && |"digest"| == 6 && |"backends"| == 8;
    assert "pid"[0] != "alg"[0];
  }

  lemma PlainNames()
    ensures IsPlainField("ts") && IsPlainField("pid") && IsPlainField("digest") && IsPlainField("alg")
    ensures IsPlainField("backends") && IsPlainField("argv")
  {
  }

  lemma NumberThenMore(name: Text, n: int, next: string, names: set<string>, more: seq<Member>)
    requires IsPlainField(name) && name !in names
    requires ReadMembers(next, 1, names + {name}) == Got(more, [])
    ensures ReadMembers(MemberText(name, Signed(n) + ("," + next)), 1, names)
         == Got([Member(name, Numbered(n))] + more, [])
  {
    hide ReadValue, ReadMembers, MemberText, IsPlainField, Signed, Numbered;
    NumberIsRead(n, next);
    MemberThenMore(name, Signed(n) + ("," + next), Numbered(n), next, names, more, []);
  }

  lemma NumberMembers(f: A.Fields, av: string, more: seq<Member>)
    requires ReadMembers(FromDigest(f, av), 1, {"ts", "pid"}) == Got(more, [])
    ensures ReadMembers(FromTs(f, av), 1, {})
         == Got([Member("ts", Numbered(f.ts)), Member("pid", Numbered(f.pid))] + more, [])
  {
    hide ReadMembers, MemberText, FromDigest, Signed, Numbered, IsPlainField;
    PlainNames();
    var none: set<string> := {};
    assert |"ts"| != |"pid"| && none + {"ts"} + {"pid"} == {"ts", "pid"};
    NumberThenMore("pid", f.pid, FromDigest(f, av), none + {"ts"}, more);
    NumberThenMore("ts", f.ts, FromPid(f, av), none, [Member("pid", Numbered(f.pid))] + more);
    assert [Member("ts", Numbered(f.ts))] + ([Member("pid", Numbered(f.pid))] + more)
        == [Member("ts", Numbered(f.ts)), Member("pid", Numbered(f.pid))] + more;
  }

  lemma ObjectBranch(inner: string)
    ensures ReadValue("{" + inner, 0) == ReadObject(inner, 1)
  {
    hide ReadString, ReadNumber, ReadArray, ReadObject;
    var s := "{" + inner;
    assert s[0] == '{' && s[1..] == inner && SkipSpace(s) == s;
  }

  lemma ObjectIsRead(inner: string, members: seq<Member>)
    requires inner != [] && inner[0] == '"' && ReadMembers(inner, 1, {}) == Got(members, [])
    ensures Parse("{" + inner) == Some(Object(members))
  {
    hide ReadMembers, ReadValue;
    ObjectBranch(inner);
    assert SkipSpace(inner) == inner;
  }

  /** The payload of a record whose fields are plain and whose arguments fit is the record as a JSON object. */
  lemma RecordIsJson(f: A.Fields, args: seq<Text>)
    requires IsPlainField(f.digest) && IsPlainField(f.alg) && IsPlainField(f.backends)
    requires |List(args, |args|)| < A.ARGS_MAX
    ensures Parse(A.Payload(f, A.Joined(args, |args|))) == Some(RecordOf(f, args))
  {
    hide Parse, ReadMembers, IsPlainField, FromDigest, A.Payload, List, A.Joined, RecordOf, TextPart, FromTs, Numbered;
    var av := List(args, |args|);
    JoinedIsList(args, |args|);
    PayloadIs(f, av);
    TextMembers(f, args);
    NumberMembers(f, av, TextPart(f, args));
    TextPartIs(f, args);
    StartsWithQuote(f, av);
    ObjectIsRead(FromTs(f, av), [Member("ts", Numbered(f.ts)), Member("pid", Numbered(f.pid))] + TextPart(f, args));
  }

  lemma StartsWithQuote(f: A.Fields, av: string)
    ensures FromTs(f, av) != [] && FromTs(f, av)[0] == '"'
  {
    hide FromPid, Signed;
  }

  /** An argument that is not refused fits its buffer, quotes, escapes and terminator included. */
  lemma {:induction false} QuotedFits(s: string)
    requires A.Fits(s)
    ensures |A.Quote(s)| + 1 <= A.ARG_MAX
  {
    hide A.EscapeChar;
    if s != [] {
      var n := |s| - 1;
      assert 1 + |A.EscapeAll(s[..n])| + 7 < A.ARG_MAX;
      EscapeIsShort(s[n]);
    }
  }

  lemma EscapeIsShort(c: char)
    ensures |A.EscapeChar(c)| <= 6
  {
  }
}
