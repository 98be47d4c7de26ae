/**
 The two log formats as any reader may take them: a closed array log is one JSON array of the entries, and a line log
 has one entry on each line.
 */
module LogFormats {
  import opened Common
  import opened LogStream
  import opened JsonReader
  import opened LogFile

  // ----- The array -----

  /** One more item, with space before its comma. */
  lemma SpacedItem(s: string, nesting: nat, v: Json, tail: string, next: string, more: seq<Json>, rest: string)
    requires ReadValue(s, nesting) == Got(v, tail) && SkipSpace(tail) == "," + next
    requires ReadItems(next, nesting) == Got(more, rest)
    ensures ReadItems(s, nesting) == Got([v] + more, rest)
  {
    hide ReadValue, SkipSpace;
    assert ("," + next)[1..] == next;
  }

  /** The document from the text of entry `i` on. */
  function EntryOn(texts: seq<string>, i: nat): string
    requires i < |texts|
  {
    texts[i] + (From(false, texts, i + 1) + "\n]\n")
  }

  lemma GapThenEntry(texts: seq<string>, i: nat)
    requires i < |texts|
    ensures From(false, texts, i) + "\n]\n" == Gap(false, i) + EntryOn(texts, i)
  {
    hide Gap;
  }

  lemma CommaFollows(texts: seq<string>, i: nat)
    requires 0 < i < |texts|
    ensures SkipSpace(From(false, texts, i) + "\n]\n") == "," + ("\n" + EntryOn(texts, i))
    ensures Ends(From(false, texts, i) + "\n]\n")
  {
    GapThenEntry(texts, i);
    hide From, EntryOn;
    var next := "," + ("\n" + EntryOn(texts, i));
    assert Gap(false, i) + EntryOn(texts, i) == "\n" + next;
    SkipMore("\n", next);
    assert ("\n" + next)[0] == '\n';
  }

  lemma {:induction false} ItemsOfLog(entries: seq<seq<Member>>, i: nat)
    requires i < |entries| && forall k :: 0 <= k < |entries| ==> Readable(Object(entries[k]), 1)
    ensures ReadItems(EntryOn(Texts(false, entries), i), 1) == Got(Objects(entries)[i..], "\n")
    decreases |entries| - i
  {
    hide ReadItems, ReadValue, Readable, EntryText;
    var texts, values := Texts(false, entries), Objects(entries);
    var tail := From(false, texts, i + 1) + "\n]\n";
    if i + 1 == |entries| {
      assert tail == "\n]\n";
      LastEntry(entries, i);
      assert values[i..] == [values[i]];
    } else {
      hide From;
      var next := EntryOn(texts, i + 1);
      ItemsOfLog(entries, i + 1);
      ItemsAfterSpace("\n", next, 1);
      CommaFollows(texts, i + 1);
      ValueRoundTrip(Object(entries[i]), true, 0, 1, tail);
      EntryIsSerialized(entries[i]);
      SpacedItem(texts[i] + tail, 1, values[i], tail, "\n" + next, values[i + 1..], "\n");
      assert values[i..] == [values[i]] + values[i + 1..];
    }
  }

  lemma EntryIsSerialized(members: seq<Member>)
    ensures EntryText(members, true) == Serialize(Object(members), true, 0)
  {
  }

  lemma LastEntry(entries: seq<seq<Member>>, i: nat)
    requires i + 1 == |entries| && Readable(Object(entries[i]), 1)
    ensures ReadItems(Texts(false, entries)[i] + "\n]\n", 1) == Got([Object(entries[i])], "\n")
  {
    hide ReadValue, Readable, EntryText, ReadItems;
    var text := Texts(false, entries)[i];
    EntryIsSerialized(entries[i]);
    ValueRoundTrip(Object(entries[i]), true, 0, 1, "\n]\n");
    assert "\n]\n" == "\n" + ("]" + "\n");
    SkipMore("\n", "]" + "\n");
    OneItem(text + "\n]\n", 1, Object(entries[i]), "\n]\n", "\n");
  }

  /** A closed array log is JSON for the array of its entries if and only if every entry is readable inside an array. */
  lemma ClosedArrayIsJsonIff(entries: seq<seq<Member>>)
    ensures Parse(Document(false, Texts(false, entries), true)) == Some(Array(Objects(entries)))
       <==> forall i :: 0 <= i < |entries| ==> Readable(Object(entries[i]), 1)
  {
    hide Readable;
    if forall i :: 0 <= i < |entries| ==> Readable(Object(entries[i]), 1) {
      ArrayIsJson(entries);
    }
    if Parse(Document(false, Texts(false, entries), true)) == Some(Array(Objects(entries))) {
      ReadIsReadable(Document(false, Texts(false, entries), true), 0);
      ItemsReadable(Objects(entries));
      forall i | 0 <= i < |entries| ensures Readable(Object(entries[i]), 1) {
        assert Objects(entries)[i] == Object(entries[i]);
      }
    }
  }

  lemma ItemsReadable(items: seq<Json>)
    requires Readable(Array(items), 0)
    ensures forall i :: 0 <= i < |items| ==> Readable(items[i], 1)
  {
  }

  lemma ArrayIsJson(entries: seq<seq<Member>>)
    requires forall i :: 0 <= i < |entries| ==> Readable(Object(entries[i]), 1)
    ensures Parse(Document(false, Texts(false, entries), true)) == Some(Array(Objects(entries)))
  {
    var texts := Texts(false, entries);
    var doc := Document(false, texts, true);
    if entries == [] {
      assert doc == "[" + ("\n" + ("]" + "\n"));
      EmptyArray();
    } else {
      hide ReadItems, From, Readable;
      ItemsOfLog(entries, 0);
      assert Objects(entries)[0..] == Objects(entries);
      assert Tail(false, |texts|, true) == "\n]\n";
      GapThenEntry(texts, 0);
      assert doc == "[" + ("\n" + EntryOn(texts, 0));
      OpenArray(EntryOn(texts, 0), Objects(entries), "\n");
    }
  }

  /** A text that opens with a bracket is read as an array. */
  lemma ArrayBranch(inner: string)
    ensures ReadValue("[" + inner, 0) == ReadArray(inner, 1)
  {
    hide ReadString, ReadNumber, ReadArray, ReadObject;
    assert ("[" + inner)[1..] == inner && SkipSpace("[" + inner) == "[" + inner;
  }

  lemma EmptyArray()
    ensures Parse("[" + ("\n" + ("]" + "\n"))) == Some(Array([]))
  {
    SkipMore("\n", "]" + "\n");
    ArrayBranch("\n" + ("]" + "\n"));
    hide ReadValue;
    assert SkipSpace("]" + "\n") == "]" + "\n";
  }

  lemma OpenArray(text: string, items: seq<Json>, rest: string)
    requires ReadItems(text, 1) == Got(items, rest)
    ensures Parse("[" + ("\n" + text)) == Some(Array(items))
  {
    SkipMore("\n", text);
    ArrayBranch("\n" + text);
    ItemsBegin(text);
    hide ReadValue, ReadItems, SkipSpace;
  }

  /** The first item is not the closing bracket, and space before it does not matter. */
  lemma ItemsBegin(text: string)
    requires ReadItems(text, 1).Got?
    ensures var t := SkipSpace(text);
            (t != [] ==> t[0] != ']') && ReadItems(t, 1) == ReadItems(text, 1)
  {
    SkipTwice(text);
    hide ReadString, ReadNumber, IsNumeral;
  }

  // ----- The lines -----

  function FirstBreak(s: string): (n: nat)
    ensures n <= |s| && '\n' !in s[..n] && (n < |s| ==> s[n] == '\n')
  {
    if s == [] || s[0] == '\n' then 0
    else
      var n := 1 + FirstBreak(s[1..]);
      assert s[..n] == [s[0]] + s[1..][..n - 1];
      n
  }

  /** A text cut at its line feeds. */
  function Lines(s: string): seq<string> {
    if s == [] then []
    else
      var n := FirstBreak(s);
      [s[..n]] + (if n == |s| then [] else Lines(s[n + 1..]))
  }

  lemma LinesCons(line: string, rest: string)
    requires '\n' !in line
    ensures Lines(line + ("\n" + rest)) == [line] + Lines(rest)
  {
    var s := line + ("\n" + rest);
    assert s[|line|] == '\n';
    assert s[..|line|] == line && s[|line| + 1..] == rest;
    assert FirstBreak(s) == |line|;
  }

  lemma {:induction false} EscapedHasNoBreak(s: string)
    ensures '\n' !in EscapeAll(s)
  {
    if s != [] {
      EscapedHasNoBreak(s[1..]);
      EscapeHasNoBreak(s[0]);
    }
  }

  lemma EscapeHasNoBreak(c: char)
    ensures '\n' !in Escape(c)
  {
    if |Escape(c)| == 6 {
      assert forall n :: 0 <= n < 16 ==> LogStream.Hex(n) != '\n';
    }
  }

  lemma NumeralHasNoBreak(s: Numeral)
    ensures '\n' !in s
  {
    assert forall i :: 0 <= i < |s| ==> IsNumberChar(s[i]);
  }

  /** Compact text has no line feed. */
  lemma {:induction false} CompactHasNoBreak(v: Json, level: nat)
    ensures '\n' !in Serialize(v, false, level)
    decreases v, 2
  {
    hide IsNumeral, EscapeAll;
    match v {
      case Null =>
      case Bool(_) =>
      case Number(numeral) => NumeralHasNoBreak(numeral);
      case String(s) => EscapedHasNoBreak(s);
      case Array(items) => ItemsHaveNoBreak(items, level);
      case Object(members) => MembersHaveNoBreak(members, level);
    }
  }

  lemma {:induction false} ItemsHaveNoBreak(items: seq<Json>, level: nat)
    ensures '\n' !in SerializeItems(items, false, level)
    decreases items, 1
  {
    if items != [] {
      hide Serialize;
      CompactHasNoBreak(items[0], level + 1);
      ItemsHaveNoBreak(items[1..], level);
    }
  }

  lemma {:induction false} MembersHaveNoBreak(members: seq<Member>, level: nat)
    ensures '\n' !in SerializeMembers(members, false, level)
    decreases members, 1
  {
    if members != [] {
      hide Serialize, EscapeAll;
      EscapedHasNoBreak(members[0].name);
      CompactHasNoBreak(members[0].value, level + 1);
      MembersHaveNoBreak(members[1..], level);
    }
  }

  /** From entry `i` on: what follows the gap, in lines. */
  lemma {:induction false} LinesFrom(texts: seq<string>, i: nat)
    requires i < |texts| && forall k :: 0 <= k < |texts| ==> '\n' !in texts[k]
    ensures Lines(texts[i] + (From(true, texts, i + 1) + "\n")) == texts[i..]
    decreases |texts| - i
  {
    hide Lines;
    if i + 1 == |texts| {
      assert From(true, texts, i + 1) + "\n" == "\n" + [];
      LinesCons(texts[i], []);
      NoLines();
      assert texts[i..] == [texts[i]] + [];
    } else {
      var rest := texts[i + 1] + (From(true, texts, i + 2) + "\n");
      assert From(true, texts, i + 1) + "\n" == "\n" + rest;
      LinesCons(texts[i], rest);
      LinesFrom(texts, i + 1);
      assert texts[i..] == [texts[i]] + texts[i + 1..];
    }
  }

  lemma NoLines()
    ensures Lines([]) == []
  {
  }

  /** A line log has exactly one entry on each line, closed or not. */
  lemma LineLogHasOneEntryPerLine(entries: seq<seq<Member>>, closed: bool)
    ensures Lines(Document(true, Texts(true, entries), closed)) == Texts(true, entries)
  {
    var texts := Texts(true, entries);
    if entries == [] {
      NoLines();
    } else {
      forall k | 0 <= k < |texts| ensures '\n' !in texts[k] {
        assert texts[k] == EntryText(entries[k], false);
        CompactHasNoBreak(Object(entries[k]), 0);
      }
      hide Lines, EntryText, From, Document;
      LinesFrom(texts, 0);
      assert texts[0..] == texts;
      FirstLine(texts, closed);
    }
  }

  lemma FirstLine(texts: seq<string>, closed: bool)
    requires texts != []
    ensures Document(true, texts, closed) == texts[0] + (From(true, texts, 1) + "\n")
  {
    assert From(true, texts, 0) == "" + texts[0] + From(true, texts, 1);
  }
}
