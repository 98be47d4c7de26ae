/**
 The audit trail: one line per record, each carrying a hash over the previous hash and its own payload.
 Appending replays the whole trail first and refuses to extend a broken one.
 */
module AuditTrail {
  import opened Common

  const LINE_MAX: nat := 4200
  const PAYLOAD_MAX: nat := 2048
  const ARGS_MAX: nat := 1024
  const ARG_MAX: nat := 512
  const DIGEST_MAX: nat := 65

  const MARK := "{\"hash\":\""

  /** A digest as printed: lower-case hexadecimal, at most 64 characters. */
  predicate IsDigest(s: string) {
    2 <= |s| < DIGEST_MAX && forall i :: 0 <= i < |s| ==> '0' <= s[i] <= '9' || 'a' <= s[i] <= 'f'
  }

  ghost predicate IsHash(hash: string -> string) {
    forall s :: IsDigest(hash(s))
  }

  /** The hash of one record; inputs that overflow the buffer are refused. */
  function RecordHash(hash: string -> string, prev: string, payload: string): Option<string> {
    if |prev| + |payload| + 1 > LINE_MAX then None else Some(hash(prev + payload))
  }

  // ----- Reading one record -----

  predicate MarkAt(s: string, i: nat) {
    i + 9 <= |s| && s[i..i + 9] == MARK
  }

  /** Where the marker first occurs at or after `i`, or the end. */
  function FindMark(s: string, i: nat): (j: nat)
    requires i <= |s|
    ensures i <= j <= |s|
    ensures forall k :: i <= k < j ==> !MarkAt(s, k)
    ensures j < |s| ==> MarkAt(s, j)
    decreases |s| - i
  {
    if i == |s| || MarkAt(s, i) then i else FindMark(s, i + 1)
  }

  /** How much a line read takes: through the newline, or what fits the buffer. */
  function ChunkLength(s: string, room: nat): (n: nat)
    ensures n <= |s| && n <= room
    ensures room > 0 && s != [] ==> n > 0
    ensures forall k :: 0 <= k < n - 1 ==> s[k] != '\n'
    ensures n == |s| || n == room || (n > 0 && s[n - 1] == '\n')
  {
    if room == 0 || s == [] then 0
    else if s[0] == '\n' then 1
    else 1 + ChunkLength(s[1..], room - 1)
  }

  function UpToNul(s: string): (t: string)
    ensures |t| <= |s| && t == s[..|t|]
    ensures IsCString(s) ==> t == s
  {
    if s == [] || s[0] == '\0' then [] else [s[0]] + UpToNul(s[1..])
  }

  /** The characters up to the closing quote, no more than a digest holds. */
  function QuotedDigest(s: string, room: nat): (t: string)
    ensures |t| <= |s| && |t| <= room && t == s[..|t|]
  {
    if room == 0 || s == [] || s[0] == '"' then [] else [s[0]] + QuotedDigest(s[1..], room - 1)
  }

  function StoredHash(line: string): string {
    var at := FindMark(line, 0);
    if at == |line| then [] else QuotedDigest(line[at + 9..], DIGEST_MAX - 1)
  }

  method ExtractHash(line: string) returns (stored: string)
    ensures stored == StoredHash(line)
  {
    var at := FindMark(line, 0);
    if at == |line| {
      return [];
    }
    stored := TakeDigest(line[at + 9..]);
  }

  method TakeDigest(h: string) returns (stored: string)
    ensures stored == QuotedDigest(h, DIGEST_MAX - 1)
  {
    hide QuotedDigest;
    var n: nat := 0;
    assert h[0..] == h && h[..0] == [];
    while n < |h| && h[n] != '"' && n + 1 < DIGEST_MAX
      invariant n <= |h| && n < DIGEST_MAX
      invariant QuotedDigest(h, DIGEST_MAX - 1) == h[..n] + QuotedDigest(h[n..], DIGEST_MAX - 1 - n)
    {
      DigestStep(h, n, DIGEST_MAX - 1 - n);
      n := n + 1;
    }
    DigestStop(h, n, DIGEST_MAX - 1 - n);
    stored := h[..n];
  }

  lemma DigestStep(h: string, n: nat, room: nat)
    requires n < |h| && h[n] != '"' && room > 0
    ensures h[..n] + QuotedDigest(h[n..], room) == h[..n + 1] + QuotedDigest(h[n + 1..], room - 1)
  {
    assert h[n..][1..] == h[n + 1..];
    assert h[..n] + [h[n]] == h[..n + 1];
    Assoc(h[..n], [h[n]], QuotedDigest(h[n + 1..], room - 1));
  }

  lemma DigestStop(h: string, n: nat, room: nat)
    requires n <= |h| && (n == |h| || h[n] == '"' || room == 0)
    ensures h[..n] + QuotedDigest(h[n..], room) == h[..n]
  {
    assert QuotedDigest(h[n..], room) == [];
  }

  /** A line checked against the hash before it: its payload and its own hash, or nothing. */
  function CheckLine(chunk: string, prev: string, hash: string -> string): Option<(string, string)> {
    var line := UpToNul(chunk);
    if line == [] || line[|line| - 1] != '\n' then None
    else
      var at := FindMark(line, 0);
      if at == |line| || at == 0 then None
      else
        var stored := StoredHash(line);
        if stored == [] || RecordHash(hash, prev, line[..at]) != Some(stored) then None
        else Some((line[..at], stored))
  }

  // ----- Replaying a trail -----

  /** The payloads of an intact trail, and its head. */
  datatype Trail = Trail(payloads: seq<string>, head: string)

  function Replay(rest: string, sofar: Trail, hash: string -> string): Option<Trail> {
    if rest == [] then Some(sofar)
    else
      var n := ChunkLength(rest, LINE_MAX - 1);
      match CheckLine(rest[..n], sofar.head, hash)
      case None => None
      case Some(record) => Replay(rest[n..], Trail(sofar.payloads + [record.0], record.1), hash)
  }

  const EMPTY := Trail([], "0")

  /** A missing file is an empty trail. */
  function Verified(file: Option<string>, hash: string -> string): Option<Trail> {
    if file.None? then Some(EMPTY) else Replay(file.value, EMPTY, hash)
  }

  lemma ReplayStep(rest: string, sofar: Trail, hash: string -> string)
    requires rest != []
    ensures var n := ChunkLength(rest, LINE_MAX - 1);
            var record := CheckLine(rest[..n], sofar.head, hash);
            && 0 < n <= |rest|
            && Replay(rest, sofar, hash) ==
               if record.None? then None
               else Replay(rest[n..], Trail(sofar.payloads + [record.value.0], record.value.1), hash)
  {
    hide CheckLine;
  }

  /** Returns the number of records and the head, or -2; the head is empty for a missing file. */
  method VerifyChain(file: Option<string>, hash: string -> string) returns (rc: int, head: string)
    ensures rc == -2 <==> Verified(file, hash).None?
    ensures rc != -2 ==> rc == |Verified(file, hash).value.payloads|
    ensures rc != -2 ==> head == if file.None? then "" else Verified(file, hash).value.head
  {
    if file.None? {
      return 0, "";
    }
    rc, head := VerifyFile(file.value, hash);
  }

  method VerifyFile(text: string, hash: string -> string) returns (rc: int, head: string)
    ensures rc == -2 <==> Replay(text, EMPTY, hash).None?
    ensures rc != -2 ==> rc == |Replay(text, EMPTY, hash).value.payloads|
    ensures rc != -2 ==> head == Replay(text, EMPTY, hash).value.head
  {
    hide CheckLine, Replay, ChunkLength;
    var prev, count, pos: nat := "0", 0, 0;
    ghost var payloads: seq<string> := [];
    assert text[0..] == text;
    while pos < |text|
      invariant pos <= |text| && count == |payloads|
      invariant Replay(text, EMPTY, hash) == Replay(text[pos..], Trail(payloads, prev), hash)
    {
      var rest := text[pos..];
      var n := ChunkLength(rest, LINE_MAX - 1);
      var record := ReadRecord(rest[..n], prev, hash);
      ReplayStep(rest, Trail(payloads, prev), hash);
      if record.None? {
        return -2, "";
      }
      assert rest[n..] == text[pos + n..];
      payloads := payloads + [record.value.0];
      prev := record.value.1;
      count := count + 1;
      pos := pos + n;
    }
    assert text[pos..] == [];
    ReplayEnd(Trail(payloads, prev), hash);
    rc, head := count, prev;
  }

  lemma ReplayEnd(sofar: Trail, hash: string -> string)
    ensures Replay([], sofar, hash) == Some(sofar)
  {
  }

  method ReadRecord(chunk: string, prev: string, hash: string -> string) returns (record: Option<(string, string)>)
    ensures record == CheckLine(chunk, prev, hash)
  {
    var line := UpToNul(chunk);
    if |line| == 0 || line[|line| - 1] != '\n' {
      return None;
    }
    var at := FindMark(line, 0);
    if at == |line| || at == 0 {
      return None;
    }
    var payload := line[..at];
    var stored := ExtractHash(line);
    var want := RecordHash(hash, prev, payload);
    if stored == [] || want.None? || want.value != stored {
      return None;
    }
    record := Some((payload, stored));
  }

  // ----- A payload -----

  function Hex(n: nat): char
    requires n < 16
  {
    "0123456789abcdef"[n]
  }

  /** Escapes as in section 7 of RFC 8259: quotes, backslashes and control characters. */
  function EscapeChar(c: char): string {
    if c == '"' || c == '\\' then ['\\', c]
    else if c as int < 32 then "\\u00" + [Hex(c as int / 16), Hex(c as int % 16)]
    else [c]
  }

  function EscapeAll(s: string): string {
    if s == [] then [] else EscapeAll(s[..|s| - 1]) + EscapeChar(s[|s| - 1])
  }

  function Quote(s: string): string {
    "\"" + EscapeAll(s) + "\""
  }

  /** Before each character there is room for the longest escape and the closing quote. */
  predicate Fits(s: string) {
    forall i :: 0 <= i < |s| ==> 1 + |EscapeAll(s[..i])| + 7 < ARG_MAX
  }

  method QuoteArg(s: string) returns (r: Option<string>)
    ensures r == if Fits(s) then Some(Quote(s)) else None
  {
    hide EscapeChar;
    var dst := "\"";
    for i := 0 to |s|
      invariant dst == "\"" + EscapeAll(s[..i])
      invariant forall k :: 0 <= k < i ==> 1 + |EscapeAll(s[..k])| + 7 < ARG_MAX
    {
      if |dst| + 7 >= ARG_MAX {
        return None;
      }
      assert s[..i + 1][..i] == s[..i];
      dst := dst + EscapeChar(s[i]);
    }
    assert s[..|s|] == s;
    r := Some(dst + "\"");
  }

  function Cut(s: string): (t: string)
    ensures |t| < ARGS_MAX && |t| <= |s| && t == s[..|t|]
  {
    if |s| < ARGS_MAX then s else s[..ARGS_MAX - 1]
  }

  /** The first `n` arguments joined in a buffer that keeps what fits. */
  function Joined(args: seq<string>, n: nat): string
    requires n <= |args|
  {
    if n == 0 then []
    else
      AddArg(Joined(args, n - 1), Quote(args[n - 1]))
  }

  function AddArg(before: string, one: string): string {
    Cut((if before == [] then [] else Cut(before + ",")) + one)
  }

  method JoinArgs(args: seq<string>) returns (r: Option<string>)
    ensures r.None? <==> exists i :: 0 <= i < |args| && !Fits(args[i])
    ensures r.Some? ==> r.value == Joined(args, |args|)
  {
    hide Fits, Quote, AddArg;
    var av := "";
    for i := 0 to |args|
      invariant av == Joined(args, i)
      invariant forall k :: 0 <= k < i ==> Fits(args[k])
    {
      var one := QuoteArg(args[i]);
      if one.None? {
        return None;
      }
      av := AppendArg(av, one.value);
    }
    r := Some(av);
  }

  method AppendArg(before: string, one: string) returns (av: string)
    ensures av == AddArg(before, one)
  {
    hide Cut;
    av := before;
    if av != [] {
      av := Cut(av + ",");
    }
    av := Cut(av + one);
  }

  datatype Fields = Fields(ts: int, pid: int, digest: string, alg: string, backends: string)

  function Opening(f: Fields): string {
    "{\"ts\":" + Signed(f.ts) + ",\"pid\":" + Signed(f.pid) + ",\"digest\":\""
  }

  const BEFORE_ALG := "\",\"alg\":\""
  const BEFORE_BACKENDS := "\",\"backends\":\""
  const BEFORE_ARGV := "\",\"argv\":["

  function Payload(f: Fields, av: string): string {
    Opening(f) + f.digest + BEFORE_ALG + f.alg + BEFORE_BACKENDS + f.backends + BEFORE_ARGV + av + "]}"
  }

  function Line(payload: string, digest: string): string {
    payload + MARK + digest + "\"}\n"
  }

  // ----- Appending -----

  /** Extending an intact trail continues its replay. */
  lemma {:induction false} ReplayExtends(a: string, b: string, sofar: Trail, hash: string -> string)
    requires Replay(a, sofar, hash).Some?
    ensures Replay(a + b, sofar, hash) == Replay(b, Replay(a, sofar, hash).value, hash)
    decreases |a|
  {
    hide CheckLine, Replay;
    if a == [] {
      ReplayEnd(sofar, hash);
      assert a + b == b;
    } else {
      ReplayStep(a, sofar, hash);
      ReplayStep(a + b, sofar, hash);
      var n := ChunkLength(a, LINE_MAX - 1);
      var record := CheckLine(a[..n], sofar.head, hash);
      CheckedEndsInNewline(a[..n], sofar.head, hash);
      ChunkStays(a, b, LINE_MAX - 1);
      assert (a + b)[..n] == a[..n] && (a + b)[n..] == a[n..] + b;
      ReplayExtends(a[n..], b, Trail(sofar.payloads + [record.value.0], record.value.1), hash);
    }
  }

  lemma CheckedEndsInNewline(chunk: string, prev: string, hash: string -> string)
    requires CheckLine(chunk, prev, hash).Some?
    ensures '\n' in chunk
  {
    var line := UpToNul(chunk);
    assert line[|line| - 1] == chunk[|line| - 1];
  }

  /** A chunk with its newline does not depend on what follows. */
  lemma {:induction false} ChunkStays(a: string, b: string, room: nat)
    requires '\n' in a[..ChunkLength(a, room)]
    ensures ChunkLength(a + b, room) == ChunkLength(a, room)
    decreases room
  {
    assert (a + b)[0] == a[0] && (a + b)[1..] == a[1..] + b;
    if a[0] != '\n' {
      var n := ChunkLength(a, room);
      assert a[..n] == [a[0]] + a[1..][..n - 1];
      ChunkStays(a[1..], b, room - 1);
    }
  }

  /** The line is one chunk, and reading it finds this payload. */
  predicate ReadsBack(payload: string, digest: string) {
    var line := Line(payload, digest);
    ChunkLength(line, LINE_MAX - 1) == |line| && FindMark(line, 0) == |payload|
  }

  lemma {:induction false} DigestIsRead(digest: string, tail: string, room: nat)
    requires (forall i :: 0 <= i < |digest| ==> digest[i] != '"') && |digest| <= room
    ensures QuotedDigest(digest + "\"" + tail, room) == digest
    decreases room
  {
    var s := digest + "\"" + tail;
    if digest == [] {
      assert s == [] || s[0] == '"';
    } else {
      assert s[1..] == digest[1..] + "\"" + tail && s[0] == digest[0];
      DigestIsRead(digest[1..], tail, room - 1);
      assert digest == [digest[0]] + digest[1..];
    }
  }

  lemma StoredIsWritten(payload: string, digest: string)
    requires IsDigest(digest) && FindMark(Line(payload, digest), 0) == |payload|
    ensures StoredHash(Line(payload, digest)) == digest
  {
    hide FindMark;
    var line := Line(payload, digest);
    assert line[|payload| + 9..] == digest + "\"" + "}\n";
    DigestIsRead(digest, "}\n", DIGEST_MAX - 1);
  }

  lemma LineChecks(payload: string, prev: string, hash: string -> string)
    requires IsHash(hash) && IsCString(payload) && payload != []
    requires RecordHash(hash, prev, payload).Some?
    requires FindMark(Line(payload, hash(prev + payload)), 0) == |payload|
    ensures CheckLine(Line(payload, hash(prev + payload)), prev, hash) == Some((payload, hash(prev + payload)))
  {
    hide FindMark, StoredHash;
    var digest := hash(prev + payload);
    var line := Line(payload, digest);
    assert IsDigest(digest);
    assert IsCString(line);
    StoredIsWritten(payload, digest);
    assert line[..|payload|] == payload;
  }

  /** A line that reads back adds its payload to any intact trail. */
  lemma AppendedVerifies(file: string, trail: Trail, payload: string, hash: string -> string)
    requires IsHash(hash) && IsCString(payload) && payload != []
    requires Replay(file, EMPTY, hash) == Some(trail)
    requires RecordHash(hash, trail.head, payload).Some?
    requires ReadsBack(payload, hash(trail.head + payload))
    ensures Replay(file + Line(payload, hash(trail.head + payload)), EMPTY, hash)
         == Some(Trail(trail.payloads + [payload], hash(trail.head + payload)))
  {
    hide Replay, CheckLine, FindMark;
    var line := Line(payload, hash(trail.head + payload));
    ReplayExtends(file, line, EMPTY, hash);
    ReplayStep(line, trail, hash);
    LineChecks(payload, trail.head, hash);
    assert line[..|line|] == line && line[|line|..] == [];
    ReplayEnd(Trail(trail.payloads + [payload], hash(trail.head + payload)), hash);
  }

  /** A replay only adds payloads, at least one for each line. */
  lemma {:induction false} ReplayGrows(rest: string, sofar: Trail, hash: string -> string)
    requires Replay(rest, sofar, hash).Some?
    ensures sofar.payloads <= Replay(rest, sofar, hash).value.payloads
    ensures rest != [] ==> |Replay(rest, sofar, hash).value.payloads| > |sofar.payloads|
    decreases |rest|
  {
    hide CheckLine, Replay;
    if rest == [] {
      ReplayEnd(sofar, hash);
    } else {
      ReplayStep(rest, sofar, hash);
      var n := ChunkLength(rest, LINE_MAX - 1);
      var record := CheckLine(rest[..n], sofar.head, hash).value;
      ReplayGrows(rest[n..], Trail(sofar.payloads + [record.0], record.1), hash);
    }
  }

  lemma CheckedPayload(chunk: string, prev: string, hash: string -> string)
    requires CheckLine(chunk, prev, hash).Some? && IsCString(chunk)
    ensures CheckLine(chunk, prev, hash).value.0 == chunk[..FindMark(chunk, 0)]
  {
  }

  /** A line that does not read back leaves no trail with just its payload more. */
  lemma OnlyReadBacksVerify(file: string, trail: Trail, payload: string, digest: string, hash: string -> string)
    requires IsDigest(digest) && IsCString(payload) && Replay(file, EMPTY, hash) == Some(trail)
    requires Replay(file + Line(payload, digest), EMPTY, hash) == Some(Trail(trail.payloads + [payload], digest))
    ensures ReadsBack(payload, digest)
  {
    hide Replay, CheckLine, FindMark;
    var line := Line(payload, digest);
    var n := ChunkLength(line, LINE_MAX - 1);
    ReplayExtends(file, line, EMPTY, hash);
    ReplayStep(line, trail, hash);
    var record := CheckLine(line[..n], trail.head, hash).value;
    ReplayGrows(line[n..], Trail(trail.payloads + [record.0], record.1), hash);
    assert line[n..] == [];
    ReplayEnd(Trail(trail.payloads + [record.0], record.1), hash);
    assert line[..n] == line && IsCString(line);
    CheckedPayload(line, trail.head, hash);
    LastOf(trail.payloads, record.0, payload);
  }

  lemma LastOf(payloads: seq<string>, a: string, b: string)
    requires payloads + [a] == payloads + [b]
    ensures a == b
  {
    assert (payloads + [a])[|payloads|] == a && (payloads + [b])[|payloads|] == b;
  }

  // ----- Which payloads read back -----

  /** No marker starts among the first `n` characters. */
  predicate Unmarked(s: string, n: nat) {
    forall i :: 0 <= i < n ==> !MarkAt(s, i)
  }

  /** No newline, and no marker inside the text or completed by the quote after it. */
  predicate Clean(field: string) {
    '\n' !in field && Unmarked(field + "\"", |field|)
  }

  predicate CleanFields(f: Fields) {
    Clean(f.digest) && Clean(f.alg) && Clean(f.backends)
  }

  lemma MarkShape(s: string, i: nat)
    ensures MarkAt(s, i) ==> s[i] == '{' && s[i + 1] == '"' && s[i + 2] == 'h'
    ensures MarkAt(s, i) ==> forall k :: i < k < i + 9 ==> s[k] !in [',', '{', ']']
  {
    if MarkAt(s, i) {
      var m := s[i..i + 9];
      assert m[0] == '{' && m[1] == '"' && m[2] == 'h';
      forall k | i < k < i + 9 ensures s[k] !in [',', '{', ']'] {
        assert s[k] == m[k - i] == MARK[k - i];
      }
    }
  }

  lemma MarkAfter(pre: string, rest: string, i: nat)
    ensures MarkAt(pre + rest, |pre| + i) == MarkAt(rest, i)
  {
    if i + 9 <= |rest| {
      assert (pre + rest)[|pre| + i..|pre| + i + 9] == rest[i..i + 9];
    }
  }

  /** Text without an opening brace hides no marker. */
  lemma PastPlain(pre: string, rest: string, n: nat)
    requires '{' !in pre
    ensures Unmarked(pre + rest, |pre| + n) <==> Unmarked(rest, n)
  {
    hide MarkAt;
    var s := pre + rest;
    forall i | 0 <= i < |pre| ensures !MarkAt(s, i) {
      MarkShape(s, i);
      assert s[i] == pre[i];
    }
    Shifted(pre, rest, n);
  }

  lemma Shifted(pre: string, rest: string, n: nat)
    requires Unmarked(pre + rest, |pre|)
    ensures Unmarked(pre + rest, |pre| + n) <==> Unmarked(rest, n)
  {
    hide MarkAt;
    var s := pre + rest;
    if Unmarked(s, |pre| + n) {
      forall i | 0 <= i < n ensures !MarkAt(rest, i) {
        MarkAfter(pre, rest, i);
        assert !MarkAt(s, |pre| + i);
      }
    }
    if Unmarked(rest, n) {
      forall i | 0 <= i < |pre| + n ensures !MarkAt(s, i) {
        if i >= |pre| {
          MarkAfter(pre, rest, i - |pre|);
        }
      }
    }
  }

  /** Past a field that is followed by a quote and a comma. */
  lemma PastField(field: string, rest: string, n: nat)
    requires |rest| >= 2 && rest[0] == '"' && rest[1] == ','
    ensures Unmarked(field + rest, |field| + n) <==> Unmarked(field + "\"", |field|) && Unmarked(rest, n)
  {
    hide MarkAt;
    var s, q := field + rest, field + "\"";
    forall i | 0 <= i < |field| ensures MarkAt(s, i) == MarkAt(q, i) {
      FieldMark(field, rest, i);
    }
    if Unmarked(q, |field|) {
      forall i | 0 <= i < |field| ensures !MarkAt(s, i) {
        assert !MarkAt(q, i);
      }
      Shifted(field, rest, n);
    } else {
      var i :| 0 <= i < |field| && MarkAt(q, i);
      assert MarkAt(s, i);
    }
  }

  lemma FieldMark(field: string, rest: string, i: nat)
    requires |rest| >= 2 && rest[0] == '"' && rest[1] == ',' && i < |field|
    ensures MarkAt(field + rest, i) == MarkAt(field + "\"", i)
  {
    var s, q := field + rest, field + "\"";
    if i + 9 <= |q| {
      assert s[i..i + 9] == q[i..i + 9];
    } else {
      MarkShape(s, i);
      assert s[|field| + 1] == ',';
    }
  }

  // ----- Escaped arguments -----

  /** A quote after an opening brace closes an argument: a comma follows, or nothing. */
  predicate Tame(av: string) {
    && '\n' !in av && '\0' !in av
    && forall j :: 0 < j < |av| - 1 && av[j - 1] == '{' && av[j] == '"' ==> av[j + 1] == ','
  }

  /** Every quote is escaped. */
  predicate Escaped(e: string) {
    '\n' !in e && '\0' !in e && forall j :: 0 <= j < |e| && e[j] == '"' ==> j > 0 && e[j - 1] == '\\'
  }

  lemma {:induction false} EscapeAllIsEscaped(s: string)
    ensures Escaped(EscapeAll(s))
  {
    if s != [] {
      var n := |s| - 1;
      EscapeAllIsEscaped(s[..n]);
      var a, b := EscapeAll(s[..n]), EscapeChar(s[n]);
      CharIsEscaped(s[n]);
      forall j | 0 <= j < |a + b| && (a + b)[j] == '"' ensures j > 0 && (a + b)[j - 1] == '\\' {
        if j >= |a| {
          assert b[j - |a|] == '"';
          assert j - |a| > 0 && b[j - |a| - 1] == (a + b)[j - 1];
        } else {
          assert a[j] == '"';
        }
      }
    }
  }

  lemma CharIsEscaped(c: char)
    ensures Escaped(EscapeChar(c))
  {
    var e := EscapeChar(c);
    if |e| == 6 {
      assert e[0] == '\\' && e[1] == 'u' && e[2] == '0' && e[3] == '0';
      assert forall n :: 0 <= n < 16 ==> Hex(n) != '"' && Hex(n) != '\n' && Hex(n) != '\0';
    }
  }

  /** A new argument after nothing or after a comma keeps the text tame. */
  lemma QuoteIsTame(before: string, e: string)
    requires Tame(before) && Escaped(e)
    requires before == [] || before[|before| - 1] == ','
    ensures Tame(before + ("\"" + e + "\""))
  {
    var s := before + ("\"" + e + "\"");
    var b := |before|;
    assert forall k :: 0 <= k < b ==> s[k] == before[k];
    assert forall k :: 0 <= k < |e| ==> s[b + 1 + k] == e[k];
    forall j | 0 < j < |s| - 1 && s[j - 1] == '{' && s[j] == '"' ensures s[j + 1] == ',' {
      QuotePlaces(before, e, j);
    }
  }

  /** A quote before the last character of a quoted argument does not follow a brace. */
  lemma QuotePlaces(before: string, e: string, j: nat)
    requires Tame(before) && Escaped(e) && (before == [] || before[|before| - 1] == ',')
    requires 0 < j < |before| + |e| + 1
    ensures var s := before + ("\"" + e + "\"");
            s[j - 1] == '{' && s[j] == '"' ==> j < |before| && s[j + 1] == ','
  {
    var b := |before|;
    var s := before + ("\"" + e + "\"");
    if j > b {
      assert s[j] == e[j - b - 1];
      assert j - b - 1 > 0 ==> s[j - 1] == e[j - b - 2];
    } else {
      assert s[j - 1] == before[j - 1];
      assert j < b ==> s[j] == before[j];
      assert j < b - 1 ==> s[j + 1] == before[j + 1];
    }
  }

  lemma CommaIsTame(before: string)
    requires Tame(before)
    ensures Tame(before + ",")
  {
    var s := before + ",";
    forall j | 0 < j < |s| - 1 && s[j - 1] == '{' && s[j] == '"' ensures s[j + 1] == ',' {
    }
  }

  lemma CutIsTame(s: string)
    requires Tame(s)
    ensures Tame(Cut(s))
  {
    var t := Cut(s);
    forall j | 0 < j < |t| - 1 && t[j - 1] == '{' && t[j] == '"' ensures t[j + 1] == ',' {
      assert s[j - 1] == '{' && s[j] == '"' && s[j + 1] == t[j + 1];
    }
  }

  lemma FirstIsTame(e: string)
    requires Escaped(e)
    ensures Tame(AddArg([], "\"" + e + "\""))
  {
    hide Tame, Escaped, Cut;
    EmptyIsTame();
    QuoteIsTame([], e);
    CutIsTame([] + ("\"" + e + "\""));
  }

  /** A full buffer stays as it is; otherwise the comma is there. */
  lemma AddArgIsTame(before: string, one: string, e: string)
    requires Tame(before) && before != [] && |before| < ARGS_MAX && Escaped(e) && one == "\"" + e + "\""
    ensures Tame(AddArg(before, one))
  {
    hide Tame, Escaped;
    if |before| + 1 < ARGS_MAX {
      CommaIsTame(before);
      QuoteIsTame(before + ",", e);
      CutIsTame(before + "," + one);
      assert Cut(before + ",") == before + ",";
    } else {
      CutFull(before, ",");
      CutFull(before, one);
    }
  }

  lemma CutFull(before: string, more: string)
    requires |before| + 1 == ARGS_MAX && more != []
    ensures Cut(before + more) == before
  {
  }

  lemma {:induction false} JoinedIsTame(args: seq<string>, n: nat)
    requires n <= |args|
    ensures Tame(Joined(args, n)) && |Joined(args, n)| < ARGS_MAX
    decreases n
  {
    hide EscapeAll, Tame, Escaped, AddArg;
    if n == 0 {
      EmptyIsTame();
    } else {
      JoinedIsTame(args, n - 1);
      var before, e := Joined(args, n - 1), EscapeAll(args[n - 1]);
      EscapeAllIsEscaped(args[n - 1]);
      AddArgIsShort(before, Quote(args[n - 1]));
      if before == [] {
        FirstIsTame(e);
      } else {
        AddArgIsTame(before, Quote(args[n - 1]), e);
      }
    }
  }

  lemma AddArgIsShort(before: string, one: string)
    ensures |AddArg(before, one)| < ARGS_MAX
  {
  }

  lemma EmptyIsTame()
    ensures Tame([])
  {
  }

  lemma PastArgs(av: string, rest: string, n: nat)
    requires Tame(av) && rest != [] && rest[0] == ']'
    ensures Unmarked(av + rest, |av| + n) <==> Unmarked(rest, n)
  {
    hide MarkAt;
    var s := av + rest;
    forall i | 0 <= i < |av| ensures !MarkAt(s, i) {
      MarkShape(s, i);
      assert s[|av|] == ']' && s[i] == av[i];
      assert i + 1 < |av| ==> s[i + 1] == av[i + 1] && av[i + 1 - 1] == av[i];
      assert i + 2 < |av| ==> s[i + 2] == av[i + 2];
    }
    Shifted(av, rest, n);
  }

  // ----- The whole line -----

  /** The line from each field on. */
  function FromArgs(av: string, tail: string): string {
    av + ("]}" + tail)
  }

  function FromBackends(f: Fields, av: string, tail: string): string {
    f.backends + (BEFORE_ARGV + FromArgs(av, tail))
  }

  function FromAlg(f: Fields, av: string, tail: string): string {
    f.alg + (BEFORE_BACKENDS + FromBackends(f, av, tail))
  }

  function FromDigest(f: Fields, av: string, tail: string): string {
    f.digest + (BEFORE_ALG + FromAlg(f, av, tail))
  }

  lemma PayloadParts(f: Fields, av: string, tail: string)
    ensures Payload(f, av) + tail == Opening(f) + FromDigest(f, av, tail)
    ensures |Payload(f, av)| == |Opening(f)| + |f.digest| + |BEFORE_ALG| + |f.alg| + |BEFORE_BACKENDS|
                                + |f.backends| + |BEFORE_ARGV| + |av| + 2
  {
    hide Opening;
  }

  lemma DigitsArePlain(n: int)
    ensures '{' !in Signed(n) && '\n' !in Signed(n) && '\0' !in Signed(n)
  {
  }

  lemma OpeningShape(f: Fields)
    ensures |Opening(f)| > 2 && Opening(f)[0] == '{' && Opening(f)[2] == 't'
    ensures '{' !in Opening(f)[1..] && '\n' !in Opening(f) && '\0' !in Opening(f)
  {
    hide Signed;
    var a, b, c, d, e := "{\"ts\":", Signed(f.ts), ",\"pid\":", Signed(f.pid), ",\"digest\":\"";
    var rest := b + c + d + e;
    assert '{' !in rest && '\n' !in rest && '\0' !in rest by {
      DigitsArePlain(f.ts);
      DigitsArePlain(f.pid);
    }
    OpeningTail(a, rest);
    assert a + b + c + d + e == a + rest;
  }

  lemma OpeningTail(a: string, rest: string)
    requires a == "{\"ts\":" && '{' !in rest && '\n' !in rest && '\0' !in rest
    ensures |a + rest| > 2 && (a + rest)[0] == '{' && (a + rest)[2] == 't'
    ensures '{' !in (a + rest)[1..] && '\n' !in a + rest && '\0' !in a + rest
  {
    assert (a + rest)[1..] == a[1..] + rest;
  }

  lemma PastOpening(f: Fields, rest: string, n: nat)
    ensures Unmarked(Opening(f) + rest, |Opening(f)| + n) <==> Unmarked(rest, n)
  {
    hide MarkAt, Opening;
    OpeningShape(f);
    var s := Opening(f) + rest;
    forall i | 0 <= i < |Opening(f)| ensures !MarkAt(s, i) {
      MarkShape(s, i);
      assert s[i] == Opening(f)[i] && s[2] == Opening(f)[2];
      assert i > 0 ==> Opening(f)[i] == Opening(f)[1..][i - 1];
    }
    Shifted(Opening(f), rest, n);
  }

  lemma UnmarkedTail(tail: string)
    ensures Unmarked("]}" + tail, 2)
  {
    var s := "]}" + tail;
    MarkShape(s, 0);
    MarkShape(s, 1);
  }

  /** No marker starts inside the payload if and only if none starts in the fields. */
  lemma PayloadUnmarkedIff(f: Fields, av: string, tail: string)
    requires Tame(av)
    ensures Unmarked(Payload(f, av) + tail, |Payload(f, av)|)
       <==> && Unmarked(f.digest + "\"", |f.digest|)
            && Unmarked(f.alg + "\"", |f.alg|)
            && Unmarked(f.backends + "\"", |f.backends|)
  {
    hide Unmarked, Opening, Tame, Payload;
    PayloadParts(f, av, tail);
    var n := |av| + 2;
    UnmarkedTail(tail);
    PastArgs(av, "]}" + tail, 2);
    PastPlain(BEFORE_ARGV, FromArgs(av, tail), n);
    PastField(f.backends, BEFORE_ARGV + FromArgs(av, tail), |BEFORE_ARGV| + n);
    n := |f.backends| + (|BEFORE_ARGV| + n);
    PastPlain(BEFORE_BACKENDS, FromBackends(f, av, tail), n);
    PastField(f.alg, BEFORE_BACKENDS + FromBackends(f, av, tail), |BEFORE_BACKENDS| + n);
    n := |f.alg| + (|BEFORE_BACKENDS| + n);
    PastPlain(BEFORE_ALG, FromAlg(f, av, tail), n);
    PastField(f.digest, BEFORE_ALG + FromAlg(f, av, tail), |BEFORE_ALG| + n);
    n := |f.digest| + (|BEFORE_ALG| + n);
    PastOpening(f, FromDigest(f, av, tail), n);
  }

  lemma WholeLineIff(s: string, room: nat)
    requires s != [] && |s| <= room && s[|s| - 1] == '\n'
    ensures ChunkLength(s, room) == |s| <==> '\n' !in s[..|s| - 1]
  {
    var n := ChunkLength(s, room);
    if n == |s| {
      var t := s[..|s| - 1];
      forall k | 0 <= k < |t| ensures t[k] != '\n' {
      }
    } else {
      assert s[n - 1] == '\n' && s[..|s| - 1][n - 1] == s[n - 1];
    }
  }

  lemma MarkFoundIff(payload: string, rest: string)
    ensures FindMark(payload + MARK + rest, 0) == |payload| <==> Unmarked(payload + MARK + rest, |payload|)
  {
    var s := payload + MARK + rest;
    assert s[|payload|..|payload| + 9] == MARK;
    assert MarkAt(s, |payload|);
  }

  lemma PayloadNewlinesIff(f: Fields, av: string)
    requires Tame(av)
    ensures '\n' !in Payload(f, av) <==> '\n' !in f.digest && '\n' !in f.alg && '\n' !in f.backends
  {
    hide Opening;
    OpeningShape(f);
    InParts(f, av, '\n');
  }

  lemma InParts(f: Fields, av: string, c: char)
    ensures c in Payload(f, av) <==>
            || c in Opening(f) || c in f.digest || c in BEFORE_ALG || c in f.alg || c in BEFORE_BACKENDS
            || c in f.backends || c in BEFORE_ARGV || c in av || c in "]}"
  {
    hide Opening;
  }

  /** The line written for a record reads back as that record if and only if the raw fields are clean. */
  lemma ReadsBackIff(f: Fields, av: string, digest: string)
    requires Tame(av) && IsDigest(digest) && |Payload(f, av)| < PAYLOAD_MAX
    ensures ReadsBack(Payload(f, av), digest) <==> CleanFields(f)
  {
    hide Payload, FindMark, ChunkLength, Unmarked;
    var payload := Payload(f, av);
    var line := Line(payload, digest);
    PayloadUnmarkedIff(f, av, MARK + digest + "\"}\n");
    assert line == payload + (MARK + digest + "\"}\n") && line == payload + MARK + (digest + "\"}\n");
    MarkFoundIff(payload, digest + "\"}\n");
    WholeLineIff(line, LINE_MAX - 1);
    PayloadNewlinesIff(f, av);
    LineNewlines(payload, digest);
  }

  lemma LineNewlines(payload: string, digest: string)
    requires IsDigest(digest)
    ensures var line := Line(payload, digest);
            '\n' in line[..|line| - 1] <==> '\n' in payload
  {
    var line := Line(payload, digest);
    assert line[..|line| - 1] == payload + (MARK + digest + "\"}");
    assert '\n' !in MARK + digest + "\"}";
  }

  lemma PayloadIsText(f: Fields, av: string)
    requires Tame(av) && IsCString(f.digest) && IsCString(f.alg) && IsCString(f.backends)
    ensures IsCString(Payload(f, av)) && Payload(f, av) != []
  {
    hide Opening;
    OpeningShape(f);
    InParts(f, av, '\0');
  }

  // ----- The chain -----

  function ChainHead(hash: string -> string, payloads: seq<string>): string {
    if payloads == [] then "0"
    else hash(ChainHead(hash, payloads[..|payloads| - 1]) + payloads[|payloads| - 1])
  }

  lemma CheckedHash(chunk: string, prev: string, hash: string -> string)
    ensures CheckLine(chunk, prev, hash).Some? ==>
              var record := CheckLine(chunk, prev, hash).value;
              record.1 == hash(prev + record.0)
  {
  }

  lemma {:induction false} ReplayIsChain(rest: string, sofar: Trail, hash: string -> string)
    requires sofar.head == ChainHead(hash, sofar.payloads)
    requires Replay(rest, sofar, hash).Some?
    ensures var trail := Replay(rest, sofar, hash).value;
            trail.head == ChainHead(hash, trail.payloads)
    decreases |rest|
  {
    hide CheckLine, Replay;
    if rest == [] {
      ReplayEnd(sofar, hash);
    } else {
      ReplayStep(rest, sofar, hash);
      var n := ChunkLength(rest, LINE_MAX - 1);
      CheckedHash(rest[..n], sofar.head, hash);
      var record := CheckLine(rest[..n], sofar.head, hash).value;
      var payloads := sofar.payloads + [record.0];
      assert payloads[..|payloads| - 1] == sofar.payloads;
      ReplayIsChain(rest[n..], Trail(payloads, record.1), hash);
    }
  }

  predicate Braced(payloads: seq<string>) {
    forall i :: 0 <= i < |payloads| ==> payloads[i] != [] && payloads[i][0] == '{'
  }

  lemma SplitAtBrace(a: string, p: string, b: string, q: string)
    requires '{' !in a && '{' !in b && p != [] && q != [] && p[0] == '{' && q[0] == '{'
    requires a + p == b + q
    ensures a == b && p == q
  {
    assert forall i :: 0 <= i < |a| ==> (a + p)[i] != '{';
    assert forall i :: 0 <= i < |b| ==> (b + q)[i] != '{';
    assert (a + p)[|a|] == '{' && (b + q)[|b|] == '{';
    assert (a + p)[..|a|] == a && (b + q)[..|b|] == b;
    assert (a + p)[|a|..] == p && (b + q)[|b|..] == q;
  }

  lemma HeadHasNoBrace(hash: string -> string, payloads: seq<string>)
    requires IsHash(hash)
    ensures '{' !in ChainHead(hash, payloads)
    ensures payloads != [] ==> ChainHead(hash, payloads) != "0"
  {
    if payloads != [] {
      assert IsDigest(hash(ChainHead(hash, payloads[..|payloads| - 1]) + payloads[|payloads| - 1]));
    }
  }

  /** Two chains of braced payloads with one head are the same chain, or show a collision of the hash. */
  lemma {:induction false} EqualHeads(hash: string -> string, ps: seq<string>, qs: seq<string>)
    returns (x: string, y: string)
    requires IsHash(hash) && Braced(ps) && Braced(qs)
    requires ChainHead(hash, ps) == ChainHead(hash, qs)
    ensures ps == qs || (x != y && hash(x) == hash(y))
    decreases |ps|
  {
    x, y := [], [];
    HeadHasNoBrace(hash, ps);
    HeadHasNoBrace(hash, qs);
    if ps != [] && qs != [] {
      var m, n := |ps| - 1, |qs| - 1;
      var a, b := ChainHead(hash, ps[..m]), ChainHead(hash, qs[..n]);
      x, y := a + ps[m], b + qs[n];
      if x == y {
        HeadHasNoBrace(hash, ps[..m]);
        HeadHasNoBrace(hash, qs[..n]);
        SplitAtBrace(a, ps[m], b, qs[n]);
        x, y := EqualHeads(hash, ps[..m], qs[..n]);
        assert ps == ps[..m] + [ps[m]] && qs == qs[..n] + [qs[n]];
      }
    }
  }

  /** The head of an intact trail fixes its payloads, up to a collision of the hash. */
  lemma HeadFixesTrail(hash: string -> string, file: Option<string>, file': Option<string>)
    returns (x: string, y: string)
    requires IsHash(hash) && Verified(file, hash).Some? && Verified(file', hash).Some?
    requires Braced(Verified(file, hash).value.payloads) && Braced(Verified(file', hash).value.payloads)
    requires Verified(file, hash).value.head == Verified(file', hash).value.head
    ensures Verified(file, hash) == Verified(file', hash) || (x != y && hash(x) == hash(y))
  {
    hide Replay;
    if file.Some? {
      ReplayIsChain(file.value, EMPTY, hash);
    }
    if file'.Some? {
      ReplayIsChain(file'.value, EMPTY, hash);
    }
    x, y := EqualHeads(hash, Verified(file, hash).value.payloads, Verified(file', hash).value.payloads);
  }

  lemma {:induction false} HeadIsShort(rest: string, sofar: Trail, hash: string -> string)
    requires IsHash(hash) && Replay(rest, sofar, hash).Some? && 0 < |sofar.head| < DIGEST_MAX
    ensures 0 < |Replay(rest, sofar, hash).value.head| < DIGEST_MAX
    decreases |rest|
  {
    hide CheckLine, Replay;
    if rest == [] {
      ReplayEnd(sofar, hash);
    } else {
      ReplayStep(rest, sofar, hash);
      var n := ChunkLength(rest, LINE_MAX - 1);
      CheckedHash(rest[..n], sofar.head, hash);
      var record := CheckLine(rest[..n], sofar.head, hash).value;
      assert IsDigest(hash(sofar.head + record.0));
      HeadIsShort(rest[n..], Trail(sofar.payloads + [record.0], record.1), hash);
    }
  }

  // ----- The append operation -----

  /** The arguments are all short enough and so is the payload. */
  predicate Acceptable(f: Fields, args: seq<string>) {
    (forall i :: 0 <= i < |args| ==> Fits(args[i])) && |Payload(f, Joined(args, |args|))| < PAYLOAD_MAX
  }

  function Content(file: Option<string>): string {
    if file.None? then [] else file.value
  }

  /**
   Append one record. A trail that does not verify is refused and left alone; otherwise the record is added, and
   the new trail verifies with exactly this payload more if and only if the raw fields are clean.
   */
  method Append(file: Option<string>, f: Fields, args: seq<string>, writable: bool, hash: string -> string)
    returns (rc: int, after: Option<string>)
    requires IsHash(hash) && IsCString(f.digest) && IsCString(f.alg) && IsCString(f.backends)
    ensures rc == if Verified(file, hash).Some? && Acceptable(f, args) && writable then 0 else -1
    ensures rc == -1 ==> after == file
    ensures rc == 0 ==>
              var payload := Payload(f, Joined(args, |args|));
              var digest := hash(Verified(file, hash).value.head + payload);
              && after == Some(Content(file) + Line(payload, digest))
              && (Verified(after, hash) == Some(Trail(Verified(file, hash).value.payloads + [payload], digest))
                  <==> CleanFields(f))
  {
    hide Replay, Payload, Fits, Joined, CleanFields, ReadsBack;
    after := file;
    var count, tail := VerifyChain(file, hash);
    if count < 0 {
      return -1, file;
    }
    var av := JoinArgs(args);
    if av.None? {
      return -1, file;
    }
    var payload := Payload(f, av.value);
    if |payload| >= PAYLOAD_MAX {
      return -1, file;
    }
    if file.Some? {
      HeadIsShort(file.value, EMPTY, hash);
    }
    var prev := if tail != [] then tail else "0";
    var digest := RecordHash(hash, prev, payload);
    if digest.None? {
      return -1, file;
    }
    assert IsDigest(hash(prev + payload));
    var line := Line(payload, digest.value);
    if |line| >= LINE_MAX || !writable {
      return -1, file;
    }
    after := Some(Content(file) + line);
    rc := 0;
    JoinedIsTame(args, |args|);
    PayloadIsText(f, av.value);
    ReadsBackIff(f, av.value, digest.value);
    ReplayEnd(EMPTY, hash);
    var trail := Verified(file, hash).value;
    if CleanFields(f) {
      AppendedVerifies(Content(file), trail, payload, hash);
    } else if Verified(after, hash) == Some(Trail(trail.payloads + [payload], digest.value)) {
      OnlyReadBacksVerify(Content(file), trail, payload, digest.value, hash);
    }
  }

  /**
   A newline in a raw field is enough to break a trail: the first record with such a field leaves a file that no
   longer verifies, so every later append is refused.
   */
  lemma NewlineBreaksTheTrail(hash: string -> string)
    requires IsHash(hash)
    ensures var f := Fields(0, 0, "d", "a", "\n");
            && Acceptable(f, []) && !CleanFields(f)
            && Verified(Some(Line(Payload(f, []), hash("0" + Payload(f, [])))), hash).None?
  {
    var f := Fields(0, 0, "d", "a", "\n");
    ShortOpening(f);
    assert Joined([], 0) == [];
    assert f.backends[0] == '\n';
    hide Payload, Opening, Replay;
    DirtyLineFails(f, hash("0" + Payload(f, [])), hash);
  }

  lemma DirtyLineFails(f: Fields, digest: string, hash: string -> string)
    requires f == Fields(0, 0, "d", "a", "\n")
    ensures Replay(Line(Payload(f, []), digest), EMPTY, hash).None?
  {
    hide Opening, Replay, CheckLine, ChunkLength;
    OpeningShape(f);
    ShortOpening(f);
    var head, rest := Opening(f) + DIRTY, BEFORE_ARGV + "]}" + MARK + digest + "\"}\n";
    var o := Opening(f);
    assert o + "d" + BEFORE_ALG + "a" + BEFORE_BACKENDS + "\n" + BEFORE_ARGV + [] + "]}" + MARK + digest + "\"}\n"
        == head + "\n" + rest;
    DirtyHead(o);
    FirstLine(head, rest);
    ReplayStep(head + "\n" + rest, EMPTY, hash);
    NoMarkNoRecord(head + "\n", "0", hash);
  }

  const DIRTY := "d" + BEFORE_ALG + "a" + BEFORE_BACKENDS

  lemma DirtyHead(o: string)
    requires |o| > 2 && o[2] == 't' && '{' !in o[1..] && '\n' !in o && '\0' !in o
    ensures '\n' !in o + DIRTY && '{' !in (o + DIRTY + "\n")[1..] && IsCString(o + DIRTY + "\n")
  {
    var s := o + DIRTY + "\n";
    assert s[1..] == o[1..] + (DIRTY + "\n");
    assert '{' !in DIRTY && '\n' !in DIRTY && '\0' !in DIRTY;
  }

  lemma ShortOpening(f: Fields)
    requires f.ts == 0 && f.pid == 0
    ensures |Opening(f)| < 100
  {
    assert Signed(0) == "0";
  }

  lemma {:induction false} FirstLine(head: string, rest: string)
    requires '\n' !in head && |head| < LINE_MAX - 1
    ensures ChunkLength(head + "\n" + rest, LINE_MAX - 1) == |head| + 1
    ensures (head + "\n" + rest)[..|head| + 1] == head + "\n"
  {
    var s := head + "\n" + rest;
    var n := ChunkLength(s, LINE_MAX - 1);
    assert s[|head|] == '\n';
    assert forall k :: 0 <= k < |head| ==> s[k] == head[k];
  }

  /** A line with one brace, at its start and not of the marker, holds no record. */
  lemma NoMarkNoRecord(line: string, prev: string, hash: string -> string)
    requires |line| > 2 && line[2] != 'h' && '{' !in line[1..] && IsCString(line)
    ensures CheckLine(line, prev, hash).None?
  {
    forall k: nat | k < |line| ensures !MarkAt(line, k) {
      assert k > 0 ==> line[1..][k - 1] == line[k];
      MarkShape(line, k);
    }
  }
}
