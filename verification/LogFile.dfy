/** The log file as written, whole or cut short at any byte, against what the scanner reads from it. */
module LogFile {
  import opened Common
  import opened LogStream
  import opened JsonReader

  // ----- Layout -----

  /** What stands before entry `i`: the rest of the line before it and, in an array, a bracket or a comma. */
  function Gap(jsonl: bool, i: nat): string {
    if jsonl then (if i == 0 then "" else "\n") else (if i == 0 then "[\n" else "\n,\n")
  }

  /** The entries from `i` on, each after its gap. */
  function From(jsonl: bool, texts: seq<string>, i: nat): string
    requires i <= |texts|
    decreases |texts| - i
  {
    if i == |texts| then [] else Gap(jsonl, i) + texts[i] + From(jsonl, texts, i + 1)
  }

  /** What stands after the last of `n` entries. */
  function Tail(jsonl: bool, n: nat, closed: bool): string {
    (if n == 0 then (if jsonl then "" else "[\n") else "\n") + (if jsonl || !closed then "" else "]\n")
  }

  function Document(jsonl: bool, texts: seq<string>, closed: bool): string {
    From(jsonl, texts, 0) + Tail(jsonl, |texts|, closed)
  }

  // ----- The writer -----

  /** The logger's output: an array is opened at start and closed at stop, lines need neither. */
  class Writer {
    var jsonl: bool
    var first: bool
    var file: string
    ghost var texts: seq<string>

    ghost predicate Valid()
      reads this
    {
      first == (texts != []) && file == Document(jsonl, texts, false)
    }

    constructor (jsonl: bool)
      ensures Valid() && this.jsonl == jsonl && texts == []
    {
      this.jsonl := jsonl;
      first := false;
      texts := [];
      file := if jsonl then "" else "[\n";
    }

    method WriteEntry(text: string)
      requires Valid()
      modifies this`first, this`file, this`texts
      ensures Valid() && texts == old(texts) + [text]
    {
      hide Document;
      DocumentGrows(jsonl, texts, text);
      if jsonl {
        file := file + (text + "\n");
      } else if first {
        file := file + (",\n" + text + "\n");
      } else {
        file := file + (text + "\n");
      }
      first := true;
      texts := texts + [text];
    }

    method Close()
      requires Valid()
      modifies this`file
      ensures file == Document(jsonl, texts, true)
    {
      if !jsonl {
        file := file + "]\n";
      }
    }
  }

  lemma DocumentGrows(jsonl: bool, texts: seq<string>, text: string)
    ensures Document(jsonl, texts + [text], false)
         == Document(jsonl, texts, false) + ((if jsonl || texts == [] then "" else ",\n") + text + "\n")
  {
    hide From;
    FromAppend(jsonl, texts, text, 0);
    var n := |texts|;
    if n == 0 {
      FromEmpty(jsonl, texts);
    }
    assert Gap(jsonl, n) == Tail(jsonl, n, false) + (if jsonl || n == 0 then "" else ",\n");
  }

  lemma FromEmpty(jsonl: bool, texts: seq<string>)
    requires texts == []
    ensures From(jsonl, texts, 0) == []
  {
  }

  lemma {:induction false} FromAppend(jsonl: bool, texts: seq<string>, text: string, i: nat)
    requires i <= |texts|
    ensures From(jsonl, texts + [text], i) == From(jsonl, texts, i) + Gap(jsonl, |texts|) + text
    decreases |texts| - i
  {
    hide Gap;
    if i == |texts| {
      assert From(jsonl, texts + [text], i + 1) == [];
    } else {
      FromAppend(jsonl, texts, text, i + 1);
    }
  }

  // ----- Reading it back -----

  /** Entries as logged: objects, pretty-printed inside an array and on one line otherwise. */
  function Texts(jsonl: bool, entries: seq<seq<Member>>): (texts: seq<string>)
    ensures |texts| == |entries|
    ensures forall i :: 0 <= i < |entries| ==> texts[i] == EntryText(entries[i], !jsonl)
  {
    seq(|entries|, i requires 0 <= i < |entries| => EntryText(entries[i], !jsonl))
  }

  ghost predicate AreEntries(jsonl: bool, texts: seq<string>) {
    forall i :: 0 <= i < |texts| ==> IsEntry(!jsonl, texts[i])
  }

  ghost predicate IsEntry(pretty: bool, text: string) {
    exists members :: text == EntryText(members, pretty)
  }

  lemma GapsAreOutside(jsonl: bool, i: nat, n: nat, closed: bool)
    ensures '{' !in Gap(jsonl, i) && '{' !in Tail(jsonl, n, closed)
  {
  }

  lemma CutGap(gap: string, rest: string, k: nat)
    requires '{' !in gap && k <= |gap|
    ensures Entries((gap + rest)[..k], IDLE, []) == []
  {
    assert (gap + rest)[..k] == gap[..k] + [];
    EntriesGap(gap[..k], []);
  }

  lemma CutEntry(pretty: bool, gap: string, text: string, rest: string, k: nat)
    requires '{' !in gap && IsEntry(pretty, text)
    requires |gap| <= k < |gap| + |text|
    ensures Entries((gap + text + rest)[..k], IDLE, []) == []
  {
    var members :| text == EntryText(members, pretty);
    assert (gap + text + rest)[..k] == gap + text[..k - |gap|];
    EntriesGap(gap, text[..k - |gap|]);
    PrefixYieldsNothing(members, pretty, k - |gap|);
  }

  lemma PassEntry(pretty: bool, gap: string, text: string, rest: string, k: nat)
    requires '{' !in gap && IsEntry(pretty, text)
    requires |gap| + |text| <= k <= |gap + text + rest|
    ensures Entries((gap + text + rest)[..k], IDLE, [])
         == [text] + Entries(rest[..k - (|gap| + |text|)], IDLE, [])
  {
    var members :| text == EntryText(members, pretty);
    var part := rest[..k - (|gap| + |text|)];
    assert (gap + text + rest)[..k] == gap + (text + part);
    EntriesGap(gap, text + part);
    EntryIsCut(members, pretty, part);
  }

  /** How many bytes from the gap of entry `a` to the closing brace of entry `i`. */
  function Extent(jsonl: bool, texts: seq<string>, a: nat, i: nat): nat
    requires a <= i < |texts|
    decreases i - a
  {
    |Gap(jsonl, a)| + |texts[a]| + if a == i then 0 else Extent(jsonl, texts, a + 1, i)
  }

  /** Where entry `i` ends in the file. */
  function EndOf(jsonl: bool, texts: seq<string>, i: nat): nat
    requires i < |texts|
  {
    Extent(jsonl, texts, 0, i)
  }

  lemma {:induction false} ExtentEndsEntry(jsonl: bool, texts: seq<string>, a: nat, i: nat, tail: string)
    requires a <= i < |texts|
    ensures var end := Extent(jsonl, texts, a, i);
            var s := From(jsonl, texts, a) + tail;
            |texts[i]| <= end <= |s| && s[end - |texts[i]|..end] == texts[i]
    decreases i - a
  {
    hide Gap;
    var s := From(jsonl, texts, a) + tail;
    var rest := From(jsonl, texts, a + 1) + tail;
    var head := Gap(jsonl, a) + texts[a];
    assert s == head + rest;
    if a == i {
      assert s[|Gap(jsonl, a)|..|head|] == texts[a];
    } else {
      ExtentEndsEntry(jsonl, texts, a + 1, i, tail);
      var end := Extent(jsonl, texts, a + 1, i);
      SliceAfter(head, rest, end - |texts[i]|, end);
    }
  }

  lemma SliceAfter(head: string, rest: string, a: nat, b: nat)
    requires a <= b <= |rest|
    ensures (head + rest)[|head| + a..|head| + b] == rest[a..b]
  {
  }

  /** `EndOf` is where the text of entry `i` ends in the document. */
  lemma EndOfEndsEntry(jsonl: bool, texts: seq<string>, i: nat, closed: bool)
    requires i < |texts|
    ensures var end := EndOf(jsonl, texts, i);
            var doc := Document(jsonl, texts, closed);
            |texts[i]| <= end <= |doc| && doc[end - |texts[i]|..end] == texts[i]
  {
    ExtentEndsEntry(jsonl, texts, 0, i, Tail(jsonl, |texts|, closed));
  }

  lemma {:induction false} TruncatedFrom(jsonl: bool, texts: seq<string>, a: nat, tail: string, k: nat)
    returns (m: nat)
    requires a <= |texts| && AreEntries(jsonl, texts) && '{' !in tail
    requires k <= |From(jsonl, texts, a) + tail|
    ensures a <= m <= |texts|
    ensures Entries((From(jsonl, texts, a) + tail)[..k], IDLE, []) == texts[a..m]
    ensures forall i :: a <= i < |texts| ==> (Extent(jsonl, texts, a, i) <= k <==> i < m)
    decreases |texts| - a
  {
    hide Entries, IsEntry, Gap;
    if a == |texts| {
      assert From(jsonl, texts, a) + tail == tail + [];
      CutGap(tail, [], k);
      return a;
    }
    var gap, text := Gap(jsonl, a), texts[a];
    var rest := From(jsonl, texts, a + 1) + tail;
    assert From(jsonl, texts, a) + tail == gap + text + rest;
    GapsAreOutside(jsonl, a, 0, false);
    if k < |gap| + |text| {
      if k <= |gap| {
        assert gap + text + rest == gap + (text + rest);
        CutGap(gap, text + rest, k);
      } else {
        CutEntry(!jsonl, gap, text, rest, k);
      }
      m := a;
    } else {
      PassEntry(!jsonl, gap, text, rest, k);
      m := TruncatedFrom(jsonl, texts, a + 1, tail, k - (|gap| + |text|));
      assert [text] + texts[a + 1..m] == texts[a..m];
    }
  }

  /** A log cut short at any byte scans to exactly the entries whose closing brace lies before the cut. */
  lemma TruncatedLogScans(jsonl: bool, entries: seq<seq<Member>>, closed: bool, k: nat) returns (m: nat)
    requires k <= |Document(jsonl, Texts(jsonl, entries), closed)|
    ensures m <= |entries|
    ensures Entries(Document(jsonl, Texts(jsonl, entries), closed)[..k], IDLE, []) == Texts(jsonl, entries)[..m]
    ensures forall i :: 0 <= i < |entries| ==> (EndOf(jsonl, Texts(jsonl, entries), i) <= k <==> i < m)
  {
    hide Entries, From;
    var texts := Texts(jsonl, entries);
    assert AreEntries(jsonl, texts) by {
      forall i | 0 <= i < |texts| ensures IsEntry(!jsonl, texts[i]) {
        assert texts[i] == EntryText(entries[i], !jsonl);
      }
    }
    GapsAreOutside(jsonl, 0, |texts|, closed);
    m := TruncatedFrom(jsonl, texts, 0, Tail(jsonl, |texts|, closed), k);
    assert texts[0..m] == texts[..m];
  }

  /** Scanning undoes writing, in both framings and whether or not the array was closed. */
  lemma ScanUndoesWrite(jsonl: bool, entries: seq<seq<Member>>, closed: bool)
    ensures Entries(Document(jsonl, Texts(jsonl, entries), closed), IDLE, []) == Texts(jsonl, entries)
  {
    hide Entries, Document;
    var texts := Texts(jsonl, entries);
    var doc := Document(jsonl, texts, closed);
    var m := TruncatedLogScans(jsonl, entries, closed, |doc|);
    assert doc[..|doc|] == doc;
    if |entries| > 0 {
      EndOfEndsEntry(jsonl, texts, |entries| - 1, closed);
      assert EndOf(jsonl, texts, |entries| - 1) <= |doc|;
    }
    assert m == |entries|;
    assert texts[..m] == texts;
  }

  /** The logged objects. */
  function Objects(entries: seq<seq<Member>>): (vs: seq<Json>)
    ensures |vs| == |entries|
    ensures forall i :: 0 <= i < |entries| ==> vs[i] == Object(entries[i])
  {
    seq(|entries|, i requires 0 <= i < |entries| => Object(entries[i]))
  }

  /** What the callback receives from a log. */
  function Seen(jsonl: bool, entries: seq<seq<Member>>, closed: bool, parse: string -> Option<Json>): seq<Json> {
    Parsed(Entries(Document(jsonl, Texts(jsonl, entries), closed), IDLE, []), parse)
  }

  lemma {:induction false} ParsedIsShort(texts: seq<string>, parse: string -> Option<Json>)
    ensures |Parsed(texts, parse)| <= |texts|
  {
    if texts != [] {
      ParsedIsShort(texts[1..], parse);
    }
  }

  lemma {:induction false} ParsedIff(texts: seq<string>, parse: string -> Option<Json>, values: seq<Json>)
    requires |texts| == |values|
    ensures Parsed(texts, parse) == values <==> forall i :: 0 <= i < |texts| ==> parse(texts[i]) == Some(values[i])
  {
    if texts != [] {
      var v, rest := parse(texts[0]), Parsed(texts[1..], parse);
      ParsedIff(texts[1..], parse, values[1..]);
      ParsedIsShort(texts[1..], parse);
      assert values == [values[0]] + values[1..];
      if Parsed(texts, parse) == values {
        assert v.Some? && Parsed(texts, parse) == [v.value] + rest;
        assert v.value == values[0] && rest == values[1..];
        forall i | 0 <= i < |texts| ensures parse(texts[i]) == Some(values[i]) {
          if i > 0 {
            assert texts[1..][i - 1] == texts[i] && values[1..][i - 1] == values[i];
          }
        }
      } else if forall i :: 0 <= i < |texts| ==> parse(texts[i]) == Some(values[i]) {
        forall i | 0 <= i < |texts[1..]| ensures parse(texts[1..][i]) == Some(values[1..][i]) {
          assert texts[1..][i] == texts[i + 1] && values[1..][i] == values[i + 1];
        }
      }
    }
  }

  /** Whatever the parser, the callback receives the logged objects if and only if each printed entry parses back. */
  lemma CallbackSeesTheEntriesIff(
      jsonl: bool, entries: seq<seq<Member>>, closed: bool, parse: string -> Option<Json>)
    ensures Seen(jsonl, entries, closed, parse) == Objects(entries)
       <==> forall i :: 0 <= i < |entries| ==> parse(EntryText(entries[i], !jsonl)) == Some(Object(entries[i]))
  {
    hide Entries, Document, EntryText, Parsed;
    ScanUndoesWrite(jsonl, entries, closed);
    var texts := Texts(jsonl, entries);
    ParsedIff(texts, parse, Objects(entries));
    if forall i :: 0 <= i < |texts| ==> parse(texts[i]) == Some(Objects(entries)[i]) {
      forall i | 0 <= i < |entries|
        ensures parse(EntryText(entries[i], !jsonl)) == Some(Object(entries[i]))
      {
        assert texts[i] == EntryText(entries[i], !jsonl);
      }
    }
  }

  /**
   A whole log goes through writer, scanner and parser unchanged if and only if every entry nests within the
   parser's limit and repeats no name.
   */
  lemma LogReadsBackIff(jsonl: bool, entries: seq<seq<Member>>, closed: bool)
    ensures Seen(jsonl, entries, closed, Parse) == Objects(entries)
       <==> forall i :: 0 <= i < |entries| ==> Readable(Object(entries[i]), 0)
  {
    hide Seen, Readable, EntryText, Parse;
    CallbackSeesTheEntriesIff(jsonl, entries, closed, Parse);
    forall i | 0 <= i < |entries|
      ensures Parse(EntryText(entries[i], !jsonl)) == Some(Object(entries[i])) <==> Readable(Object(entries[i]), 0)
    {
      EntryReadsBackIff(entries[i], !jsonl);
    }
  }

  lemma EntryReadsBackIff(members: seq<Member>, pretty: bool)
    ensures Parse(EntryText(members, pretty)) == Some(Object(members)) <==> Readable(Object(members), 0)
  {
    ParseUndoesSerializeIff(Object(members), pretty, 0);
  }
}
