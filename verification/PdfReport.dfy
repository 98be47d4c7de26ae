/**
 The audit report as a PDF file: numbered objects written one after another, a page tree written last, and a
 cross-reference table that says at which byte each object starts (section 7.5.4 of ISO 32000-1).
 */
module PdfReport {
  import opened Common

  const LINES_PER_PAGE: nat := 40
  const PAGES_MAX: nat := 64

  // ----- Numbers -----

  function Zeros(n: nat): (s: string)
    ensures |s| == n && forall i :: 0 <= i < n ==> s[i] == '0'
  {
    seq(n, _ => '0')
  }

  /** Zero-padded to ten digits, or longer when the number is. */
  function TenDigits(n: nat): (s: string)
    ensures |s| >= 10
  {
    var d := Decimal(n);
    if |d| < 10 then Zeros(10 - |d|) + d else d
  }

  /** The number that decimal digits spell. */
  function ValueOf(s: string): nat
    requires forall i :: 0 <= i < |s| ==> '0' <= s[i] <= '9'
  {
    if s == [] then 0 else ValueOf(s[..|s| - 1]) * 10 + (s[|s| - 1] as int - '0' as int)
  }

  lemma {:induction false} ValueOfDecimal(n: nat)
    ensures ValueOf(Decimal(n)) == n
    decreases n
  {
    var d := Decimal(n);
    if n >= 10 {
      ValueOfDecimal(n / 10);
      assert d[..|d| - 1] == Decimal(n / 10);
    }
  }

  lemma {:induction false} LeadingZeros(k: nat, s: string)
    requires forall i :: 0 <= i < |s| ==> '0' <= s[i] <= '9'
    ensures ValueOf(Zeros(k) + s) == ValueOf(s)
    decreases |s| + k
  {
    var t := Zeros(k) + s;
    if s != [] {
      LeadingZeros(k, s[..|s| - 1]);
      assert t[..|t| - 1] == Zeros(k) + s[..|s| - 1];
    } else if k > 0 {
      LeadingZeros(k - 1, s);
      assert t[..|t| - 1] == Zeros(k - 1) + s;
    }
  }

  lemma TenDigitsValue(n: nat)
    ensures forall i :: 0 <= i < |TenDigits(n)| ==> '0' <= TenDigits(n)[i] <= '9'
    ensures ValueOf(TenDigits(n)) == n
  {
    ValueOfDecimal(n);
    if |Decimal(n)| < 10 {
      LeadingZeros(10 - |Decimal(n)|, Decimal(n));
    }
  }

  function Pow10(k: nat): (p: nat)
    ensures p >= 1
  {
    if k == 0 then 1 else 10 * Pow10(k - 1)
  }

  lemma {:induction false} DigitCount(n: nat, k: nat)
    requires k >= 1
    ensures |Decimal(n)| <= k <==> n < Pow10(k)
    decreases k
  {
    if k == 1 {
      assert Pow10(1) == 10;
    } else if n >= 10 {
      DigitCount(n / 10, k - 1);
    } else {
      assert Pow10(k) >= 10;
    }
  }

  // ----- Page contents -----

  function Escape(s: string): string {
    if s == [] then [] else (if s[0] in ['(', ')', '\\'] then ['\\', s[0]] else [s[0]]) + Escape(s[1..])
  }

  function Put(c: char, r: Option<(string, string)>): Option<(string, string)> {
    if r.None? then None else Some(([c] + r.value.0, r.value.1))
  }

  predicate IsOctal(c: char) {
    '0' <= c <= '7'
  }

  /** The octal digits at the front, at most three. */
  function OctalRun(s: string, room: nat): (n: nat)
    ensures n <= |s| && n <= room
    ensures room > 0 && s != [] && IsOctal(s[0]) ==> n > 0
  {
    if room == 0 || s == [] || !IsOctal(s[0]) then 0 else 1 + OctalRun(s[1..], room - 1)
  }

  function OctalValue(s: string): nat {
    if s == [] then 0 else (OctalValue(s[..|s| - 1]) * 8 + (s[|s| - 1] as int - '0' as int) % 8) % 256
  }

  /** The length of the end-of-line marker at the front. */
  function LineBreak(s: string): (n: nat)
    ensures n <= |s|
  {
    if s == [] then 0
    else if s[0] == '\n' then 1
    else if s[0] != '\r' then 0
    else if |s| > 1 && s[1] == '\n' then 2 else 1
  }

  function Escaped(c: char): Option<char> {
    if c == 'n' then Some('\n')
    else if c == 'r' then Some('\r')
    else if c == 't' then Some('\t')
    else if c == 'b' then Some(8 as char)
    else if c == 'f' then Some(12 as char)
    else if c == '(' || c == ')' || c == '\\' then Some(c)
    else None
  }

  /**
   What a reader makes of a literal string, as in section 7.3.4.2 of ISO 32000-1: parentheses nest, a backslash
   escapes, and a raw end of line, whatever its spelling, is one line feed.
   */
  function ReadLiteral(s: string, depth: nat): (r: Option<(string, string)>)
    ensures r.Some? ==> |r.value.1| < |s|
    decreases |s|
  {
    if s == [] then None
    else if s[0] == ')' then if depth == 0 then Some(([], s[1..])) else Put(')', ReadLiteral(s[1..], depth - 1))
    else if s[0] == '(' then Put('(', ReadLiteral(s[1..], depth + 1))
    else if LineBreak(s) > 0 then Put('\n', ReadLiteral(s[LineBreak(s)..], depth))
    else if s[0] == '\\' then
      var t := s[1..];
      if t == [] then None
      else if Escaped(t[0]).Some? then Put(Escaped(t[0]).value, ReadLiteral(t[1..], depth))
      else if LineBreak(t) > 0 then ReadLiteral(t[LineBreak(t)..], depth)
      else if IsOctal(t[0]) then
        var n := OctalRun(t, 3);
        Put(OctalValue(t[..n]) as char, ReadLiteral(t[n..], depth))
      else ReadLiteral(t, depth)
    else Put(s[0], ReadLiteral(s[1..], depth))
  }

  /** A line with its raw ends of line spelled as line feeds. */
  function Normal(s: string): string {
    if s == [] then []
    else if LineBreak(s) > 0 then ['\n'] + Normal(s[LineBreak(s)..])
    else [s[0]] + Normal(s[1..])
  }

  lemma EscapeBranch(t: string)
    requires t != [] && Escaped(t[0]).Some?
    ensures ReadLiteral("\\" + t, 0) == Put(Escaped(t[0]).value, ReadLiteral(t[1..], 0))
  {
    hide OctalRun, OctalValue, Put, IsOctal, Escaped;
    var s := "\\" + t;
    assert s[0] == '\\' && s[1..] == t && LineBreak(s) == 0;
  }

  lemma ReadEscaped(c: char, tail: string)
    requires c == '(' || c == ')' || c == '\\'
    ensures ReadLiteral(['\\', c] + tail, 0) == Put(c, ReadLiteral(tail, 0))
  {
    hide ReadLiteral, Put;
    var t := [c] + tail;
    assert ['\\', c] + tail == "\\" + t && t[1..] == tail;
    EscapeBranch(t);
  }

  lemma ReadPlain(c: char, tail: string)
    requires c != '(' && c != ')' && c != '\\' && c != '\r' && c != '\n'
    ensures ReadLiteral([c] + tail, 0) == Put(c, ReadLiteral(tail, 0))
  {
    assert ([c] + tail)[1..] == tail;
  }

  lemma ReadBreak(text: string, n: nat)
    requires n == LineBreak(text) > 0
    ensures ReadLiteral(text, 0) == Put('\n', ReadLiteral(text[n..], 0))
  {
  }

  /** Escaping keeps the end of line at the front, and what follows it. */
  lemma EscapeBreak(s: string, end: string)
    requires LineBreak(s) > 0 && end != [] && end[0] == ')'
    ensures LineBreak(Escape(s) + end) == LineBreak(s)
    ensures (Escape(s) + end)[LineBreak(s)..] == Escape(s[LineBreak(s)..]) + end
  {
    if LineBreak(s) == 2 {
      EscapeCrLf(s, end);
    } else {
      EscapeOneBreak(s, end);
    }
  }

  lemma EscapeCrLf(s: string, end: string)
    requires LineBreak(s) == 2
    ensures Escape(s) + end == ['\r', '\n'] + (Escape(s[2..]) + end)
  {
    assert s[1..][0] == '\n' && s[1..][1..] == s[2..];
    assert Escape(s[1..]) == ['\n'] + Escape(s[2..]);
    assert Escape(s) == ['\r'] + Escape(s[1..]);
  }

  lemma EscapeOneBreak(s: string, end: string)
    requires LineBreak(s) == 1 && end != [] && end[0] == ')'
    ensures var text := Escape(s) + end;
            |text| > 1 && text[0] == s[0] && text[1..] == Escape(s[1..]) + end
            && (s[0] == '\r' ==> text[1] != '\n')
  {
    var rest := Escape(s[1..]);
    assert Escape(s) == [s[0]] + rest;
    assert Escape(s) + end == [s[0]] + (rest + end);
    if |s| > 1 {
      assert s[1..][0] == s[1] && rest != [];
      assert (rest + end)[0] == rest[0];
      assert rest[0] == s[1] || rest[0] == '\\';
    } else {
      assert rest + end == end;
    }
  }

  /** A line comes back out of its literal, its raw ends of line normalised. */
  lemma {:induction false} LiteralsReadBack(s: string, rest: string)
    ensures ReadLiteral(Escape(s) + (")" + rest), 0) == Some((Normal(s), rest))
    decreases |s|
  {
    hide ReadLiteral;
    var end := ")" + rest;
    if s == [] {
      assert Escape(s) + end == end;
      LiteralEnds(rest);
    } else if LineBreak(s) > 0 {
      EscapeBreak(s, end);
      ReadBreak(Escape(s) + end, LineBreak(s));
      LiteralsReadBack(s[LineBreak(s)..], rest);
    } else {
      LiteralsReadBack(s[1..], rest);
      var tail := Escape(s[1..]) + end;
      if s[0] in ['(', ')', '\\'] {
        Assoc(['\\', s[0]], Escape(s[1..]), end);
        ReadEscaped(s[0], tail);
      } else {
        Assoc([s[0]], Escape(s[1..]), end);
        ReadPlain(s[0], tail);
      }
    }
  }

  lemma LiteralEnds(rest: string)
    ensures ReadLiteral(")" + rest, 0) == Some(([], rest))
  {
    assert (")" + rest)[1..] == rest;
  }

  lemma {:induction false} NormalIff(s: string)
    ensures Normal(s) == s <==> '\r' !in s
    ensures '\r' !in Normal(s) && |Normal(s)| <= |s|
    decreases |s|
  {
    if s != [] {
      var n := if LineBreak(s) > 0 then LineBreak(s) else 1;
      NormalIff(s[n..]);
      assert s == [s[0]] + s[1..];
      if n == 2 {
        assert s[0] == '\r';
      }
    }
  }

  /** A line comes back exactly if and only if it holds no carriage return. */
  lemma LiteralsRoundTripIff(s: string, rest: string)
    ensures ReadLiteral(Escape(s) + (")" + rest), 0) == Some((s, rest)) <==> '\r' !in s
  {
    hide ReadLiteral, Normal;
    LiteralsReadBack(s, rest);
    NormalIff(s);
  }

  /** One line of a page, `i` lines down. */
  function LineText(line: string, i: nat): string {
    "72 " + Signed(750 - 14 * i) + " Td (" + Escape(line) + ") Tj 0 -14 Td\n"
  }

  function LinesText(lines: seq<string>): string {
    if lines == [] then []
    else LinesText(lines[..|lines| - 1]) + LineText(lines[|lines| - 1], |lines| - 1)
  }

  function PageContent(lines: seq<string>): string {
    "BT\n/F1 11 Tf\n" + LinesText(lines) + "ET\n"
  }

  method BuildPageContent(lines: seq<string>) returns (content: string)
    ensures content == PageContent(lines)
  {
    hide LineText;
    var head := "BT\n/F1 11 Tf\n";
    content := head;
    for i := 0 to |lines|
      invariant content == head + LinesText(lines[..i])
    {
      assert lines[..i + 1][..i] == lines[..i];
      Assoc(head, LinesText(lines[..i]), LineText(lines[i], i));
      content := content + LineText(lines[i], i);
    }
    assert lines[..|lines|] == lines;
    content := content + "ET\n";
  }

  // ----- The report -----

  /** What the report shows; finding lines are already formatted. */
  datatype Audit = Audit(cover: seq<string>, summary: seq<string>, findings: seq<string>)

  function FindingPages(n: nat): nat {
    (n + 39) / 40
  }

  function PageCount(n: nat): nat {
    var all := 2 + if FindingPages(n) > 0 then FindingPages(n) else 1;
    if all > PAGES_MAX then PAGES_MAX else all
  }

  function Min(a: nat, b: nat): nat {
    if a < b then a else b
  }

  /** The findings shown on findings page `p`. */
  function Batch(findings: seq<string>, p: nat): seq<string> {
    findings[Min(40 * p, |findings|)..Min(40 * (p + 1), |findings|)]
  }

  function PageLines(a: Audit, page: nat): seq<string> {
    if page == 0 then a.cover
    else if page == 1 then a.summary
    else if a.findings == [] then ["Findings", "", "No findings. The trace passed the policy."]
    else ["Findings", ""] + Batch(a.findings, page - 2)
  }

  function PageDictionary(contents: nat): string {
    "<< /Type /Page /Parent 2 0 R /MediaBox [0 0 612 792] /Resources << /Font << /F1 3 0 R >> >> /Contents "
    + Decimal(contents) + " 0 R >>"
  }

  function Stream(content: string): string {
    "<< /Length " + Decimal(|content|) + " >>\nstream\n" + content + "\nendstream"
  }

  /** References to the page objects 4, 6, 8 and so on. */
  function Kids(pages: nat): string {
    if pages == 0 then [] else Kids(pages - 1) + Decimal(4 + 2 * (pages - 1)) + " 0 R "
  }

  function PageTree(pages: nat): string {
    "<< /Type /Pages /Kids [" + Kids(pages) + "] /Count " + Decimal(pages) + " >>"
  }

  /** What object `id` of the report is. */
  function Body(a: Audit, id: nat): string {
    if id == 1 then "<< /Type /Catalog /Pages 2 0 R >>"
    else if id == 2 then PageTree(PageCount(|a.findings|))
    else if id <= 3 then "<< /Type /Font /Subtype /Type1 /BaseFont /Helvetica >>"
    else if id % 2 == 0 then PageDictionary(id + 1)
    else Stream(PageContent(PageLines(a, (id - 5) / 2)))
  }

  function ObjectText(id: nat, body: string): string {
    Decimal(id) + " 0 obj\n" + body + "\nendobj\n"
  }

  /** Object `id` starts at byte `at` of the file. */
  predicate ObjectAt(file: string, at: nat, id: nat, body: string) {
    var text := ObjectText(id, body);
    at + |text| <= |file| && file[at..at + |text|] == text
  }

  lemma ObjectStays(file: string, more: string, at: nat, id: nat, body: string)
    requires ObjectAt(file, at, id, body)
    ensures ObjectAt(file + more, at, id, body)
  {
    var text := ObjectText(id, body);
    assert (file + more)[at..at + |text|] == file[at..at + |text|];
  }

  lemma ObjectAppended(file: string, id: nat, body: string)
    ensures ObjectAt(file + ObjectText(id, body), |file|, id, body)
  {
    hide ObjectText;
  }

  function EntryText(offset: nat): (s: string)
    ensures |s| == |TenDigits(offset)| + 10
  {
    TenDigits(offset) + " 00000 n \n"
  }

  /** The table's entries for objects 1 up to `n`. */
  function EntriesText(offsets: seq<nat>, n: nat): string
    requires n <= |offsets|
  {
    if n <= 1 then [] else EntriesText(offsets, n - 1) + EntryText(offsets[n - 1])
  }

  function TableHead(n: nat): string {
    "xref\n0 " + Decimal(n) + "\n0000000000 65535 f \n"
  }

  function Trailer(n: nat, table: nat): string {
    "trailer\n<< /Size " + Decimal(n) + " /Root 1 0 R >>\nstartxref\n" + Decimal(table) + "\n%%EOF\n"
  }

  // ----- Writing it -----

  class Writer {
    var pdf: string
    const offsets: array<nat>
    var next: nat
    ghost var written: map<nat, string>

    constructor (objects: nat)
      ensures Valid() && fresh(offsets) && offsets.Length == objects + 1
      ensures written == map[] && next == 4
    {
      pdf := "%PDF-1.4\n";
      offsets := new nat[objects + 1](_ => 0);
      next := 4;
      written := map[];
    }

    /** Every object written so far starts where its offset says. */
    ghost predicate Valid()
      reads this, offsets
    {
      forall id <- written :: id < offsets.Length && ObjectAt(pdf, offsets[id], id, written[id])
    }

    method Emit(id: nat, body: string)
      requires Valid() && id < offsets.Length && id !in written
      modifies this`pdf, this`written, offsets
      ensures Valid() && written == old(written)[id := body]
      ensures forall k :: 0 <= k < offsets.Length && k != id ==> offsets[k] == old(offsets[k])
    {
      hide ObjectAt, ObjectText;
      ghost var before := pdf;
      offsets[id] := |pdf|;
      pdf := pdf + ObjectText(id, body);
      written := written[id := body];
      ObjectAppended(before, id, body);
      forall k <- written ensures k < offsets.Length && ObjectAt(pdf, offsets[k], k, written[k]) {
        if k != id {
          ObjectStays(before, ObjectText(id, body), offsets[k], k, written[k]);
        }
      }
    }

    /** Note the current position for an object that is written later. */
    method Reserve(id: nat)
      requires Valid() && id < offsets.Length && id !in written
      modifies offsets
      ensures Valid()
    {
      hide ObjectAt;
      offsets[id] := |pdf|;
    }

    /** A page object and its content stream take the next two numbers. */
    method EmitPage(lines: seq<string>)
      requires Valid() && next + 1 < offsets.Length && next !in written && next + 1 !in written
      modifies this`pdf, this`written, this`next, offsets
      ensures Valid() && next == old(next) + 2
      ensures written == old(written)[old(next) := PageDictionary(old(next) + 1)]
                                     [old(next) + 1 := Stream(PageContent(lines))]
    {
      hide ObjectAt, PageDictionary, Stream, PageContent;
      var content := BuildPageContent(lines);
      Emit(next, PageDictionary(next + 1));
      next := next + 1;
      Emit(next, Stream(content));
      next := next + 1;
    }
  }

  /** The objects 1, 3 and 4 up to `next` have been written, each with its body. */
  ghost predicate Shown(written: map<nat, string>, a: Audit, next: nat) {
    && (forall id: nat :: id in written <==> id == 1 || id == 3 || 4 <= id < next)
    && (forall id <- written :: written[id] == Body(a, id))
  }

  lemma ShownOne(written: map<nat, string>, a: Audit, next: nat)
    requires Shown(written, a, next) && next >= 4
    ensures Shown(written[next := Body(a, next)], a, next + 1)
  {
    hide Body;
  }

  lemma PageBodies(a: Audit, page: nat)
    ensures Body(a, 4 + 2 * page) == PageDictionary(4 + 2 * page + 1)
    ensures Body(a, 4 + 2 * page + 1) == Stream(PageContent(PageLines(a, page)))
  {
    hide PageDictionary, Stream, PageContent, PageLines, PageTree;
    assert (4 + 2 * page) % 2 == 0 && (4 + 2 * page + 1) % 2 == 1 && (4 + 2 * page + 1 - 5) / 2 == page;
  }

  /** The findings of the next page. */
  method TakeBatch(findings: seq<string>, first: nat) returns (lines: seq<string>, idx: nat)
    requires first <= |findings|
    ensures idx == Min(first + 40, |findings|)
    ensures lines == ["Findings", ""] + findings[first..idx]
  {
    var heading := ["Findings", ""];
    lines, idx := heading, first;
    var j := 0;
    while j < LINES_PER_PAGE && idx < |findings|
      invariant 0 <= j <= LINES_PER_PAGE && first <= idx <= |findings| && idx == first + j
      invariant lines == heading + findings[first..idx]
    {
      Assoc(heading, findings[first..idx], [findings[idx]]);
      assert findings[first..idx] + [findings[idx]] == findings[first..idx + 1];
      lines := lines + [findings[idx]];
      idx := idx + 1;
      j := j + 1;
    }
  }

  /** The objects the page tree needs, counted before the page limit applies. */
  function Planned(n: nat): nat {
    3 + 2 * (2 + if FindingPages(n) > 0 then FindingPages(n) else 1)
  }

  lemma PageNumber(n: nat, p: nat)
    requires 40 * p < n
    ensures (Min(40 * p + 40, n) - 1) / 40 + 2 == p + 2
    ensures p < FindingPages(n) && Min(40 * p + 40, n) == Min(40 * (p + 1), n)
  {
  }

  lemma AllPages(n: nat, p: nat)
    requires p <= FindingPages(n)
    requires n <= 40 * p || Planned(n) <= 8 + 2 * Min(p, 62)
    ensures p == FindingPages(n)
    ensures n > 0 ==> 8 + 2 * Min(p, 62) == 4 + 2 * PageCount(n)
    ensures n == 0 ==> p == 0 && PageCount(n) == 3
  {
  }

  /** Pages `0..pages` are listed and written. */
  ghost predicate Progress(a: Audit, w: Writer, pageIds: array<nat>, pages: nat)
    reads w, w.offsets, pageIds
  {
    && w.Valid()
    && w.next == 4 + 2 * pages
    && Shown(w.written, a, w.next)
    && pages <= pageIds.Length
    && forall i :: 0 <= i < pages ==> pageIds[i] == 4 + 2 * i
  }

  method WritePage(a: Audit, w: Writer, pageIds: array<nat>, page: nat, lines: seq<string>)
    requires Progress(a, w, pageIds, page) && page < pageIds.Length
    requires lines == PageLines(a, page)
    requires pageIds != w.offsets && w.next + 1 < w.offsets.Length
    modifies w`pdf, w`written, w`next, w.offsets, pageIds
    ensures Progress(a, w, pageIds, page + 1)
  {
    hide w.Valid, Shown, Body, PageLines, PageDictionary, Stream, PageContent;
    pageIds[page] := w.next;
    Fresh(w.written, a, w.next);
    PageBodies(a, page);
    ShownOne(w.written, a, w.next);
    ShownOne(w.written[w.next := Body(a, w.next)], a, w.next + 1);
    w.EmitPage(lines);
  }

  /** All findings pages; those past the page limit are not written. */
  method WriteFindings(a: Audit, w: Writer, pageIds: array<nat>, total: nat)
    requires Progress(a, w, pageIds, 2)
    requires pageIds.Length == PAGES_MAX && pageIds != w.offsets
    requires total == Planned(|a.findings|) && w.offsets.Length == total + 1
    modifies w`pdf, w`written, w`next, w.offsets, pageIds
    ensures Progress(a, w, pageIds, PageCount(|a.findings|))
  {
    hide w.Valid, Shown, PageLines, FindingPages, Batch;
    var n := |a.findings|;
    var idx := 0;
    ghost var p: nat := 0;
    while idx < n && w.next < total
      invariant p <= FindingPages(n) && idx == Min(40 * p, n)
      invariant Progress(a, w, pageIds, 2 + Min(p, 62))
      decreases n - idx
    {
      PageNumber(n, p);
      var lines;
      lines, idx := TakeBatch(a.findings, idx);
      var pageNum := (idx - 1) / 40 + 2;
      if pageNum < PAGES_MAX {
        BatchIsPage(a, p, lines);
        WritePage(a, w, pageIds, pageNum, lines);
      }
      p := p + 1;
    }
    AllPages(n, p);
    if n == 0 {
      NoFindingsPage(a);
      WritePage(a, w, pageIds, 2, ["Findings", "", "No findings. The trace passed the policy."]);
    }
  }

  lemma Fresh(written: map<nat, string>, a: Audit, next: nat)
    requires Shown(written, a, next) && next >= 4
    ensures next !in written && next + 1 !in written
  {
  }

  lemma BatchIsPage(a: Audit, p: nat, lines: seq<string>)
    requires 40 * p < |a.findings|
    requires lines == ["Findings", ""] + a.findings[40 * p..Min(40 * p + 40, |a.findings|)]
    ensures lines == PageLines(a, p + 2)
  {
    assert 40 * (p + 1) == 40 * p + 40;
  }

  lemma NoFindingsPage(a: Audit)
    requires a.findings == []
    ensures PageLines(a, 2) == ["Findings", "", "No findings. The trace passed the policy."]
  {
  }

  method ListKids(pageIds: array<nat>, pages: nat) returns (kids: string)
    requires pages <= pageIds.Length && forall i :: 0 <= i < pages ==> pageIds[i] == 4 + 2 * i
    ensures kids == Kids(pages)
  {
    kids := "";
    for i := 0 to pages
      invariant kids == Kids(i)
    {
      if pageIds[i] > 0 {
        kids := kids + Decimal(pageIds[i]) + " 0 R ";
      }
    }
  }

  method ListEntries(offsets: seq<nat>, n: nat) returns (text: string)
    requires 1 <= n <= |offsets|
    ensures text == EntriesText(offsets, n)
  {
    hide EntryText;
    text := "";
    for i := 1 to n
      invariant text == EntriesText(offsets, i)
    {
      text := text + EntryText(offsets[i]);
    }
  }

  /** The whole file. */
  method WriteReport(a: Audit) returns (file: string, offsets: seq<nat>, n: nat, table: nat)
    ensures n == 4 + 2 * PageCount(|a.findings|) && n <= |offsets|
    ensures forall id :: 1 <= id < n ==> ObjectAt(file, offsets[id], id, Body(a, id))
    ensures table <= |file| && file[table..] == TableHead(n) + EntriesText(offsets, n) + Trailer(n, table)
  {
    hide ObjectAt, Body, TableHead, Trailer, EntriesText, Shown, Kids, Decimal;
    var pages := 2 + if FindingPages(|a.findings|) > 0 then FindingPages(|a.findings|) else 1;
    var total := 3 + pages * 2;
    assert total == Planned(|a.findings|);
    var w := new Writer(total);
    var pageIds := new nat[PAGES_MAX];
    if pages > PAGES_MAX {
      pages := PAGES_MAX;
    }
    WriteFront(a, w, pageIds);
    WriteFindings(a, w, pageIds, total);
    var kids := ListKids(pageIds, pages);
    NoTreeYet(w.written, a, w.next);
    w.Emit(2, "<< /Type /Pages /Kids [" + kids + "] /Count " + Decimal(pages) + " >>");
    n, offsets, table := w.next, w.offsets[..], |w.pdf|;
    TreeShown(w.written, a, n);
    file := AppendTable(a, w.pdf, offsets, n);
  }

  /** The cross-reference table and the trailer, after the last object. */
  method AppendTable(a: Audit, pdf: string, offsets: seq<nat>, n: nat) returns (file: string)
    requires 1 <= n <= |offsets|
    requires forall id :: 1 <= id < n ==> ObjectAt(pdf, offsets[id], id, Body(a, id))
    ensures forall id :: 1 <= id < n ==> ObjectAt(file, offsets[id], id, Body(a, id))
    ensures |pdf| <= |file| && file[|pdf|..] == TableHead(n) + EntriesText(offsets, n) + Trailer(n, |pdf|)
  {
    hide ObjectAt, Body, TableHead, Trailer, EntriesText;
    var entries := ListEntries(offsets, n);
    var rest := TableHead(n) + entries + Trailer(n, |pdf|);
    file := pdf + rest;
    forall id | 1 <= id < n ensures ObjectAt(file, offsets[id], id, Body(a, id)) {
      ObjectStays(pdf, rest, offsets[id], id, Body(a, id));
    }
  }

  lemma NoTreeYet(written: map<nat, string>, a: Audit, next: nat)
    requires Shown(written, a, next)
    ensures 2 !in written
  {
  }

  lemma TreeShown(written: map<nat, string>, a: Audit, n: nat)
    requires exists before :: Shown(before, a, n) && written == before[2 := PageTree(PageCount(|a.findings|))]
    ensures forall id: nat :: 1 <= id < n ==> id in written && written[id] == Body(a, id)
  {
    hide PageTree;
  }

  lemma FrontShown(a: Audit)
    ensures Shown(map[1 := "<< /Type /Catalog /Pages 2 0 R >>",
                      3 := "<< /Type /Font /Subtype /Type1 /BaseFont /Helvetica >>"], a, 4)
  {
    hide PageTree, PageDictionary, Stream, PageLines;
  }

  /** Catalogue, font, cover and summary. */
  method WriteFront(a: Audit, w: Writer, pageIds: array<nat>)
    requires w.Valid() && w.written == map[] && w.next == 4
    requires pageIds.Length == PAGES_MAX && pageIds != w.offsets && w.offsets.Length > 8
    modifies w`pdf, w`written, w`next, w.offsets, pageIds
    ensures Progress(a, w, pageIds, 2)
  {
    hide w.Valid, Shown, Body;
    w.Emit(1, "<< /Type /Catalog /Pages 2 0 R >>");
    w.Reserve(2);
    w.Emit(3, "<< /Type /Font /Subtype /Type1 /BaseFont /Helvetica >>");
    FrontShown(a);
    WritePage(a, w, pageIds, 0, a.cover);
    WritePage(a, w, pageIds, 1, a.summary);
  }

  // ----- What a reader finds -----

  /** An entry has the 20 bytes the format asks for if and only if the offset has at most ten digits. */
  lemma TwentyBytesIff(offset: nat)
    ensures |EntryText(offset)| == 20 <==> offset < Pow10(10)
  {
    DigitCount(offset, 10);
  }

  /** What stands before and after the entry of object `i`. */
  lemma {:induction false} EntryPlace(offsets: seq<nat>, n: nat, i: nat) returns (before: string, after: string)
    requires 1 <= i < n <= |offsets|
    requires forall k :: 1 <= k < n ==> offsets[k] < Pow10(10)
    ensures EntriesText(offsets, n) == before + EntryText(offsets[i]) + after
    ensures |before| == 20 * (i - 1) && |EntryText(offsets[i])| == 20
    decreases n
  {
    hide EntryText, Pow10, EntriesText;
    EntriesGrow(offsets, n);
    if i == n - 1 {
      TwentyBytesIff(offsets[i]);
      EntriesLength(offsets, n - 1);
      before, after := EntriesText(offsets, n - 1), [];
      NothingAfter(before + EntryText(offsets[i]));
    } else {
      var last := EntryText(offsets[n - 1]);
      var tail;
      before, tail := EntryPlace(offsets, n - 1, i);
      Assoc(before + EntryText(offsets[i]), tail, last);
      after := tail + last;
    }
  }

  lemma NothingAfter(s: string)
    ensures s + [] == s
  {
  }

  lemma EntriesGrow(offsets: seq<nat>, n: nat)
    requires 1 < n <= |offsets|
    ensures EntriesText(offsets, n) == EntriesText(offsets, n - 1) + EntryText(offsets[n - 1])
  {
  }

  lemma {:induction false} EntriesLength(offsets: seq<nat>, n: nat)
    requires 1 <= n <= |offsets|
    requires forall k :: 1 <= k < n ==> offsets[k] < Pow10(10)
    ensures |EntriesText(offsets, n)| == 20 * (n - 1)
    decreases n
  {
    hide EntryText, Pow10;
    if n > 1 {
      TwentyBytesIff(offsets[n - 1]);
      EntriesLength(offsets, n - 1);
    }
  }

  /** The bytes are ten digits that spell this number. */
  predicate Spells(s: string, n: nat) {
    |s| == 10 && (forall i :: 0 <= i < |s| ==> '0' <= s[i] <= '9') && ValueOf(s) == n
  }

  /**
   A reader that seeks 20 bytes per entry into the table finds ten digits there, and at the byte whose number they
   spell it finds the object.
   */
  lemma ReaderFindsObject(a: Audit, file: string, offsets: seq<nat>, n: nat, table: nat, i: nat)
    requires table <= |file| && 1 <= i < n <= |offsets|
    requires file[table..] == TableHead(n) + EntriesText(offsets, n) + Trailer(n, table)
    requires forall id :: 1 <= id < n ==> ObjectAt(file, offsets[id], id, Body(a, id))
    requires |file| < Pow10(10)
    ensures var at := table + |TableHead(n)| + 20 * (i - 1);
            && at + 20 <= |file|
            && Spells(file[at..at + 10], offsets[i])
            && file[at + 10..at + 20] == " 00000 n \n"
            && ObjectAt(file, ValueOf(file[at..at + 10]), i, Body(a, i))
  {
    hide Body, TableHead, Trailer, Pow10, ObjectText, EntriesText, TenDigits, ValueOf;
    forall k | 1 <= k < n ensures offsets[k] < Pow10(10) {
      assert ObjectAt(file, offsets[k], k, Body(a, k));
    }
    var before, after := EntryPlace(offsets, n, i);
    var head, entry, tail := TableHead(n), EntryText(offsets[i]), Trailer(n, table);
    assert head + (before + entry + after) + tail == head + before + entry + (after + tail);
    SliceInside(file, table, head + before, entry, after + tail);
    var at := table + |head| + 20 * (i - 1);
    TenDigitsValue(offsets[i]);
    EntryHalves(file, at, TenDigits(offsets[i]));
  }

  lemma EntryHalves(file: string, at: nat, digits: string)
    requires |digits| == 10 && at + 20 <= |file| && file[at..at + 20] == digits + " 00000 n \n"
    ensures file[at..at + 10] == digits && file[at + 10..at + 20] == " 00000 n \n"
  {
    var e := file[at..at + 20];
    assert e[..10] == file[at..at + 10] && e[10..] == file[at + 10..at + 20];
    assert e[..10] == digits;
  }

  lemma SliceInside(file: string, at: nat, head: string, middle: string, tail: string)
    requires at <= |file| && file[at..] == head + middle + tail
    ensures at + |head| + |middle| <= |file|
    ensures file[at + |head|..at + |head| + |middle|] == middle
  {
    var got := file[at + |head|..at + |head| + |middle|];
    forall k | 0 <= k < |got| ensures got[k] == middle[k] {
      assert file[at..][|head| + k] == (head + middle + tail)[|head| + k];
    }
  }

  /** The findings of the first `k` findings pages, in order. */
  function Batches(findings: seq<string>, k: nat): seq<string> {
    if k == 0 then [] else Batches(findings, k - 1) + Batch(findings, k - 1)
  }

  lemma {:induction false} BatchesArePrefix(findings: seq<string>, k: nat)
    ensures Batches(findings, k) == findings[..Min(40 * k, |findings|)]
    decreases k
  {
    if k > 0 {
      BatchesArePrefix(findings, k - 1);
      var lo, hi := Min(40 * (k - 1), |findings|), Min(40 * k, |findings|);
      assert findings[..lo] + findings[lo..hi] == findings[..hi];
    }
  }

  /** Every finding is shown, once and in order, if and only if there are at most 2480. */
  lemma AllFindingsShownIff(findings: seq<string>)
    ensures Batches(findings, PageCount(|findings|) - 2) == findings <==> |findings| <= 2480
  {
    var k := PageCount(|findings|) - 2;
    BatchesArePrefix(findings, k);
    assert findings[..|findings|] == findings;
  }
}
