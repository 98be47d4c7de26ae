/**
 The report as a reader takes it apart: the strings each page shows, the pages the page tree lists and the length of
 each stream.
 */
module PdfReading {
  import opened Common
  import opened PdfReport

  // ----- What a page shows -----

  function FirstOpen(s: string): (n: nat)
    ensures n <= |s| && '(' !in s[..n] && (n < |s| ==> s[n] == '(')
  {
    if s == [] || s[0] == '(' then 0
    else
      var n := 1 + FirstOpen(s[1..]);
      assert s[..n] == [s[0]] + s[1..][..n - 1];
      n
  }

  /** The strings that a content stream shows: its literals, one after the other. */
  function ShownBy(content: string): seq<string>
    decreases |content|
  {
    var n := FirstOpen(content);
    if n == |content| then []
    else
      var r := ReadLiteral(content[n + 1..], 0);
      if r.None? then [] else [r.value.0] + ShownBy(r.value.1)
  }

  function Normals(lines: seq<string>): (ns: seq<string>)
    ensures |ns| == |lines| && forall i :: 0 <= i < |lines| ==> ns[i] == Normal(lines[i])
  {
    seq(|lines|, i requires 0 <= i < |lines| => Normal(lines[i]))
  }

  lemma FirstOpenAt(gap: string, s: string)
    requires '(' !in gap
    ensures FirstOpen(gap + ("(" + s)) == |gap|
  {
    var t := gap + ("(" + s);
    assert t[|gap|] == '(' && t[..|gap|] == gap;
  }

  lemma NoOpen(s: string)
    requires '(' !in s
    ensures ShownBy(s) == []
  {
    assert FirstOpen(s) == |s|;
  }

  /** What is shown depends on what follows the first literal's opening only. */
  lemma ShownFromOpen(gap: string, rest: string)
    requires '(' !in gap
    ensures ShownBy(gap + ("(" + rest))
         == var r := ReadLiteral(rest, 0); if r.None? then [] else [r.value.0] + ShownBy(r.value.1)
  {
    hide ReadLiteral;
    FirstOpenAt(gap, rest);
    assert (gap + ("(" + rest))[|gap| + 1..] == rest;
  }

  /** Operators without a literal show nothing. */
  lemma ShownAfterGap(gap: string, s: string)
    requires '(' !in gap
    ensures ShownBy(gap + s) == ShownBy(s)
  {
    hide ReadLiteral, ShownBy;
    var n := FirstOpen(s);
    if n == |s| {
      assert s[..n] == s;
      NoOpen(s);
      NoOpen(gap + s);
    } else {
      var head, rest := s[..n], s[n + 1..];
      assert s == head + ("(" + rest);
      Assoc(gap, head, "(" + rest);
      ShownFromOpen(head, rest);
      ShownFromOpen(gap + head, rest);
    }
  }

  lemma LiteralIsShown(gap: string, line: string, after: string)
    requires '(' !in gap
    ensures ShownBy(gap + ("(" + (Escape(line) + (")" + after)))) == [Normal(line)] + ShownBy(after)
  {
    hide ReadLiteral, Normal, Escape, ShownBy;
    ShownFromOpen(gap, Escape(line) + (")" + after));
    LiteralsReadBack(line, after);
  }

  lemma LineIsShown(line: string, i: nat, tail: string)
    ensures ShownBy(LineText(line, i) + tail) == [Normal(line)] + ShownBy(tail)
  {
    hide ShownBy, Normal, Escape, Signed;
    var gap, after := "72 " + Signed(750 - 14 * i) + " Td ", " Tj 0 -14 Td\n";
    NoOpenInNumber(750 - 14 * i);
    LineRegroup("72 " + Signed(750 - 14 * i), Escape(line), tail);
    LiteralIsShown(gap, line, after + tail);
    ShownAfterGap(after, tail);
  }

  lemma NoOpenInNumber(n: int)
    ensures '(' !in Signed(n)
  {
  }

  lemma LineRegroup(a: string, e: string, tail: string)
    ensures (a + " Td (" + e + ") Tj 0 -14 Td\n") + tail
         == (a + " Td ") + ("(" + (e + (")" + (" Tj 0 -14 Td\n" + tail))))
  {
  }

  lemma {:induction false} LinesAreShown(lines: seq<string>, tail: string)
    ensures ShownBy(LinesText(lines) + tail) == Normals(lines) + ShownBy(tail)
    decreases |lines|
  {
    hide ShownBy, LineText, Normal;
    if lines == [] {
      assert LinesText(lines) + tail == tail && Normals(lines) == [];
    } else {
      var n := |lines| - 1;
      var text := LineText(lines[n], n);
      LinesAreShown(lines[..n], text + tail);
      LineIsShown(lines[n], n, tail);
      Assoc(LinesText(lines[..n]), text, tail);
      assert Normals(lines) == Normals(lines[..n]) + [Normal(lines[n])];
    }
  }

  /** A page shows exactly its lines, in order, ends of line normalised. */
  lemma PageShowsItsLines(lines: seq<string>)
    ensures ShownBy(PageContent(lines)) == Normals(lines)
  {
    hide ShownBy, LinesText;
    LinesAreShown(lines, "ET\n");
    assert PageContent(lines) == "BT\n/F1 11 Tf\n" + (LinesText(lines) + "ET\n");
    ShownAfterGap("BT\n/F1 11 Tf\n", LinesText(lines) + "ET\n");
    ShownAfterGap("ET\n", "");
    assert "ET\n" + "" == "ET\n";
    NothingShown();
  }

  lemma NothingShown()
    ensures ShownBy("") == []
  {
  }

  /** Where finding `j` stands among the lines of its page. */
  lemma LineOfFinding(a: Audit, j: nat)
    requires j < |a.findings|
    ensures |PageLines(a, j / 40 + 2)| > 2 + j % 40 && PageLines(a, j / 40 + 2)[2 + j % 40] == a.findings[j]
  {
    var p := j / 40;
    assert j == 40 * p + j % 40;
    assert Min(40 * p, |a.findings|) == 40 * p && j < Min(40 * (p + 1), |a.findings|);
    assert Batch(a.findings, p)[j % 40] == a.findings[j];
  }

  /** Finding `j`, up to the 2480th, is shown on page `j / 40 + 3` of the report, below the heading. */
  lemma FindingIsShown(a: Audit, j: nat)
    requires j < |a.findings| && j < 2480
    ensures var page := j / 40 + 2;
            && page < PageCount(|a.findings|)
            && Body(a, 4 + 2 * page + 1) == Stream(PageContent(PageLines(a, page)))
            && |ShownBy(PageContent(PageLines(a, page)))| > 2 + j % 40
            && ShownBy(PageContent(PageLines(a, page)))[2 + j % 40] == Normal(a.findings[j])
  {
    hide ShownBy, Normal, PageContent, Stream, PageDictionary, PageTree, PageLines, Body;
    PageBodies(a, j / 40 + 2);
    LineOfFinding(a, j);
    PageShowsItsLines(PageLines(a, j / 40 + 2));
  }

  // ----- What the page tree lists -----

  function DigitRun(s: string): (n: nat)
    ensures n <= |s| && (forall i :: 0 <= i < n ==> '0' <= s[i] <= '9') && (n < |s| ==> !('0' <= s[n] <= '9'))
  {
    if s == [] || !('0' <= s[0] <= '9') then 0 else 1 + DigitRun(s[1..])
  }

  /** The object numbers in a list of references, up to the first thing that is none. */
  function References(s: string): seq<nat>
    decreases |s|
  {
    var n := DigitRun(s);
    if n > 0 && n + 5 <= |s| && s[n..n + 5] == " 0 R " then [ValueOf(s[..n])] + References(s[n + 5..]) else []
  }

  lemma {:induction false} RunOfDigits(d: string, rest: string)
    requires (forall i :: 0 <= i < |d| ==> '0' <= d[i] <= '9') && (rest == [] || !('0' <= rest[0] <= '9'))
    ensures DigitRun(d + rest) == |d|
    decreases |d|
  {
    if d == [] {
      assert d + rest == rest;
    } else {
      assert (d + rest)[1..] == d[1..] + rest;
      RunOfDigits(d[1..], rest);
    }
  }

  lemma ReferenceThenMore(id: nat, rest: string)
    ensures References(Decimal(id) + (" 0 R " + rest)) == [id] + References(rest)
  {
    hide Decimal, ValueOf, DigitRun, References;
    var d := Decimal(id);
    RunOfDigits(d, " 0 R " + rest);
    ReferenceParts(d, rest);
    ValueOfDecimal(id);
    FirstReference(d + (" 0 R " + rest), |d|);
  }

  lemma FirstReference(s: string, n: nat)
    requires n == DigitRun(s) && n > 0 && n + 5 <= |s| && s[n..n + 5] == " 0 R "
    ensures References(s) == [ValueOf(s[..n])] + References(s[n + 5..])
  {
    hide ValueOf, DigitRun;
  }

  lemma ReferenceParts(d: string, rest: string)
    ensures var s := d + (" 0 R " + rest);
            s[..|d|] == d && s[|d|..|d| + 5] == " 0 R " && s[|d| + 5..] == rest
  {
  }

  lemma {:induction false} KidsThenMore(pages: nat, rest: string)
    ensures References(Kids(pages) + rest) == PageIds(pages) + References(rest)
    decreases pages
  {
    hide References, Decimal;
    if pages == 0 {
      assert Kids(0) + rest == rest && PageIds(0) == [];
    } else {
      var n := pages - 1;
      var d := Decimal(4 + 2 * n);
      KidsThenMore(n, d + (" 0 R " + rest));
      ReferenceThenMore(4 + 2 * n, rest);
      KidRegroup(Kids(n), d, rest);
      assert PageIds(pages) == PageIds(n) + [4 + 2 * n];
    }
  }

  lemma KidRegroup(kids: string, d: string, rest: string)
    ensures (kids + d + " 0 R ") + rest == kids + (d + (" 0 R " + rest))
  {
  }

  function PageIds(pages: nat): (ids: seq<nat>)
    ensures |ids| == pages && forall i :: 0 <= i < pages ==> ids[i] == 4 + 2 * i
  {
    seq(pages, i => 4 + 2 * i)
  }

  /** The page tree lists exactly the page objects, in order. */
  lemma TreeListsThePages(a: Audit)
    ensures var pages := PageCount(|a.findings|);
            && Body(a, 2) == "<< /Type /Pages /Kids [" + Kids(pages) + "] /Count " + Decimal(pages) + " >>"
            && References(Kids(pages)) == PageIds(pages)
  {
    hide References, Kids, PageDictionary, Stream, PageContent, PageLines, Decimal, PageCount;
    var pages := PageCount(|a.findings|);
    KidsThenMore(pages, "");
    assert Kids(pages) + "" == Kids(pages);
    NoReferences();
    assert PageIds(pages) + [] == PageIds(pages);
  }

  lemma NoReferences()
    ensures References("") == []
  {
  }

  /** A stream's length entry counts the bytes between its keywords. */
  lemma StreamIsMeasured(content: string) returns (digits: string)
    ensures Stream(content) == "<< /Length " + digits + " >>\nstream\n" + content + "\nendstream"
    ensures (forall i :: 0 <= i < |digits| ==> '0' <= digits[i] <= '9') && ValueOf(digits) == |content|
  {
    digits := Decimal(|content|);
    ValueOfDecimal(|content|);
  }
}
