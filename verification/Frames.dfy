/**
 The control protocol's frames: a 12-byte little-endian header and a payload, encoded into a
 caller's buffer, decoded from a received one, and cut out of a byte stream that arrives in
 arbitrary pieces.
 */
module Frames {
  import opened Common

  type byte = x: int | 0 <= x < 256
  type u16 = x: int | 0 <= x < 0x1_0000
  type u32 = x: int | 0 <= x < 0x1_0000_0000

  const HEADER: nat := 12
  const PAYLOAD_MAX: nat := 0x10_0000
  const MAGIC: seq<byte> := [82, 84, 82, 68]   // "RTRD"

  datatype Frame = Frame(version: u16, kind: u16, payload: seq<byte>)

  predicate WellFormed(f: Frame) {
    |f.payload| <= PAYLOAD_MAX
  }

  // ----- The wire format -----

  function U16(v: u16): (b: seq<byte>)
    ensures |b| == 2
  {
    [v % 256, v / 256]
  }

  function U32(v: u32): (b: seq<byte>)
    ensures |b| == 4
  {
    [v % 256, v / 0x100 % 256, v / 0x1_0000 % 256, v / 0x100_0000]
  }

  function GetU16(b: seq<byte>, i: nat): u16
    requires i + 2 <= |b|
  {
    var b0: int, b1: int := b[i], b[i + 1];
    b0 + 0x100 * b1
  }

  function GetU32(b: seq<byte>, i: nat): u32
    requires i + 4 <= |b|
  {
    var b0: int, b1: int, b2: int, b3: int := b[i], b[i + 1], b[i + 2], b[i + 3];
    b0 + 0x100 * b1 + 0x1_0000 * b2 + 0x100_0000 * b3
  }

  lemma U16RoundTrip(v: u16, w: seq<byte>, i: nat)
    requires i + 2 <= |w|
    ensures w[i..i + 2] == U16(v) <==> GetU16(w, i) == v
  {
    assert w[i..i + 2] == [w[i], w[i + 1]];
  }

  lemma U32RoundTrip(v: u32, w: seq<byte>, i: nat)
    requires i + 4 <= |w|
    ensures w[i..i + 4] == U32(v) <==> GetU32(w, i) == v
  {
    assert w[i..i + 4] == [w[i], w[i + 1], w[i + 2], w[i + 3]];
    FourDigits(v, w[i], w[i + 1], w[i + 2], w[i + 3]);
  }

  lemma OneDigit(v: nat, lo: int, hi: int)
    requires 0 <= lo < 256
    ensures v == lo + 0x100 * hi <==> lo == v % 256 && hi == v / 256
  {
  }

  lemma FourDigits(v: nat, b0: int, b1: int, b2: int, b3: int)
    requires 0 <= b0 < 256 && 0 <= b1 < 256 && 0 <= b2 < 256
    ensures v == b0 + 0x100 * b1 + 0x1_0000 * b2 + 0x100_0000 * b3
       <==> b0 == v % 256 && b1 == v / 0x100 % 256 && b2 == v / 0x1_0000 % 256 && b3 == v / 0x100_0000
  {
    var v1 := v / 0x100;
    var v2 := v1 / 0x100;
    assert v2 == v / 0x1_0000;
    assert v2 / 0x100 == v / 0x100_0000;
    OneDigit(v, b0, b1 + 0x100 * (b2 + 0x100 * b3));
    OneDigit(v1, b1, b2 + 0x100 * b3);
    OneDigit(v2, b2, b3);
  }

  function HeaderBytes(f: Frame): (b: seq<byte>)
    requires WellFormed(f)
    ensures |b| == HEADER
  {
    MAGIC + U16(f.version) + U16(f.kind) + U32(|f.payload|)
  }

  function FrameBytes(f: Frame): (b: seq<byte>)
    requires WellFormed(f)
    ensures |b| == HEADER + |f.payload|
  {
    HeaderBytes(f) + f.payload
  }

  datatype Decoded =
    | Header(version: u16, kind: u16, length: u32)
    | ShortBuffer
    | BadMagic
    | TooLong

  /** The header at the front of a buffer. */
  function Decode(b: seq<byte>): (d: Decoded)
    ensures d.ShortBuffer? <==> |b| < HEADER
    ensures d.Header? ==> d.length <= PAYLOAD_MAX
  {
    if |b| < HEADER then ShortBuffer
    else if b[0] != MAGIC[0] || b[1] != MAGIC[1] || b[2] != MAGIC[2] || b[3] != MAGIC[3] then BadMagic
    else if GetU32(b, 8) > PAYLOAD_MAX then TooLong
    else Header(GetU16(b, 4), GetU16(b, 6), GetU32(b, 8))
  }

  /** A buffer decodes to a header exactly when it starts with that header's encoding. */
  lemma DecodeInvertsEncode(f: Frame, b: seq<byte>)
    requires WellFormed(f) && |b| >= HEADER
    ensures b[..HEADER] == HeaderBytes(f) <==> Decode(b) == Header(f.version, f.kind, |f.payload|)
  {
    var h := HeaderBytes(f);
    U16RoundTrip(f.version, b, 4);
    U16RoundTrip(f.kind, b, 6);
    U32RoundTrip(|f.payload|, b, 8);
    assert h[..4] == MAGIC && h[4..6] == U16(f.version) && h[6..8] == U16(f.kind) && h[8..12] == U32(|f.payload|);
    assert b[..HEADER] == b[..4] + b[4..6] + b[6..8] + b[8..12];
    assert b[..4] == [b[0], b[1], b[2], b[3]];
    if b[..HEADER] == h {
      assert b[4..6] == b[..HEADER][4..6] && b[6..8] == b[..HEADER][6..8] && b[8..12] == b[..HEADER][8..12];
      assert b[..4] == b[..HEADER][..4];
    }
  }

  /** The number that bytes spell, lowest first. */
  function LittleEndian(b: seq<byte>): int {
    if b == [] then 0 else LittleEndian(b[1..]) * 256 + b[0]
  }

  lemma LittleCons(x: byte, b: seq<byte>)
    ensures LittleEndian([x] + b) == LittleEndian(b) * 256 + x
  {
    assert ([x] + b)[1..] == b;
  }

  lemma TwoBytes(v: u16)
    ensures LittleEndian(U16(v)) == v
  {
    hide LittleEndian;
    var b := U16(v);
    NoBytes();
    LittleCons(b[1], []);
    LittleCons(b[0], [b[1]]);
    assert [b[1]] + [] == [b[1]] && b == [b[0]] + [b[1]];
  }

  lemma FourBytes(v: u32)
    ensures LittleEndian(U32(v)) == v
  {
    hide LittleEndian;
    var b := U32(v);
    NoBytes();
    LittleCons(b[3], []);
    LittleCons(b[2], [b[3]]);
    LittleCons(b[1], [b[2], b[3]]);
    LittleCons(b[0], [b[1], b[2], b[3]]);
    assert [b[3]] + [] == [b[3]] && [b[2]] + [b[3]] == [b[2], b[3]] && [b[1]] + [b[2], b[3]] == [b[1], b[2], b[3]];
    assert b == [b[0]] + [b[1], b[2], b[3]];
    FourDigits(v, b[0], b[1], b[2], b[3]);
  }

  lemma NoBytes()
    ensures LittleEndian([]) == 0
  {
  }

  /** The twelve bytes before a payload. */
  lemma WireLayout(f: Frame)
    requires WellFormed(f)
    ensures var b := FrameBytes(f);
            && |b| == 12 + |f.payload| && b[12..] == f.payload
            && b[0] == 'R' as int && b[1] == 'T' as int && b[2] == 'R' as int && b[3] == 'D' as int
            && LittleEndian(b[4..6]) == f.version && LittleEndian(b[6..8]) == f.kind
            && LittleEndian(b[8..12]) == |f.payload|
  {
    hide LittleEndian, U16, U32;
    var b := FrameBytes(f);
    TwoBytes(f.version);
    TwoBytes(f.kind);
    FourBytes(|f.payload|);
    assert b[4..6] == U16(f.version) && b[6..8] == U16(f.kind) && b[8..12] == U32(|f.payload|);
  }

  datatype EncodeResult = Encoded | Invalid | NoRoom

  /** Encoding into a caller's buffer: the frame, and nothing outside it. */
  method Encode(out: array<byte>, version: u16, kind: u16, payload: seq<byte>) returns (rc: EncodeResult)
    modifies out
    ensures rc == if |payload| > PAYLOAD_MAX then Invalid
                  else if out.Length < HEADER + |payload| then NoRoom
                  else Encoded
    ensures rc.Encoded? ==>
              var f := Frame(version, kind, payload);
              out[..] == FrameBytes(f) + old(out[..])[HEADER + |payload|..]
    ensures !rc.Encoded? ==> out[..] == old(out[..])
  {
    hide HeaderBytes;
    if |payload| > PAYLOAD_MAX {
      return Invalid;
    }
    if out.Length < HEADER + |payload| {
      return NoRoom;
    }
    ghost var f := Frame(version, kind, payload);
    ghost var before := out[..];
    WriteHeader(out, version, kind, payload);
    forall i | 0 <= i < |payload| {
      out[HEADER + i] := payload[i];
    }
    assert out[..HEADER] == HeaderBytes(f);
    assert out[HEADER..HEADER + |payload|] == payload;
    assert out[HEADER + |payload|..] == before[HEADER + |payload|..];
    assert out[..] == out[..HEADER] + out[HEADER..HEADER + |payload|] + out[HEADER + |payload|..];
    return Encoded;
  }

  method WriteHeader(out: array<byte>, version: u16, kind: u16, payload: seq<byte>)
    requires |payload| <= PAYLOAD_MAX && HEADER <= out.Length
    modifies out
    ensures out[..HEADER] == HeaderBytes(Frame(version, kind, payload))
    ensures forall i :: HEADER <= i < out.Length ==> out[i] == old(out[i])
  {
    out[0], out[1], out[2], out[3] := MAGIC[0], MAGIC[1], MAGIC[2], MAGIC[3];
    out[4], out[5] := version % 256, version / 256;
    out[6], out[7] := kind % 256, kind / 256;
    var n: u32 := |payload|;
    out[8], out[9], out[10], out[11] := n % 256, n / 0x100 % 256, n / 0x1_0000 % 256, n / 0x100_0000;
  }

  // ----- Cutting frames out of the receive buffer -----

  /** The complete frames at the front of a buffer and what stays; a bad header discards everything. */
  function Extract(b: seq<byte>): (r: (seq<Frame>, seq<byte>))
    ensures |r.1| <= |b|
    decreases |b|
  {
    match Decode(b)
    case Header(version, kind, length) =>
      if |b| < HEADER + length then ([], b)
      else
        var (frames, rest) := Extract(b[HEADER + length..]);
        ([Frame(version, kind, b[HEADER..HEADER + length])] + frames, rest)
    case ShortBuffer => ([], b)
    case _ => ([], [])
  }

  const RBUF: nat := HEADER + 4096

  /** The agent's receive side: a fixed buffer and its fill. */
  class Receiver {
    const rbuf: array<byte>
    var rfill: nat

    ghost predicate Valid()
      reads this
    {
      rbuf.Length == RBUF && rfill <= RBUF
    }

    ghost function Buffered(): seq<byte>
      requires Valid()
      reads this, rbuf
    {
      rbuf[..rfill]
    }

    constructor ()
      ensures Valid() && rfill == 0 && fresh(rbuf)
    {
      rbuf := new byte[RBUF](_ => 0);
      rfill := 0;
    }

    /** Bytes read from the socket land behind those already there. */
    method Fill(chunk: seq<byte>)
      requires Valid() && |chunk| <= RBUF - rfill
      modifies this, rbuf
      ensures Valid() && Buffered() == old(Buffered()) + chunk
    {
      forall i | 0 <= i < |chunk| {
        rbuf[rfill + i] := chunk[i];
      }
      rfill := rfill + |chunk|;
    }

    /** Hand over every complete frame, moving the rest to the front each time. */
    method HandleFrames() returns (frames: seq<Frame>)
      requires Valid()
      modifies this, rbuf
      ensures Valid()
      ensures (frames, Buffered()) == Extract(old(Buffered()))
    {
      hide Decode;
      frames := [];
      ghost var start := Buffered();
      assert [] + Extract(start).0 == Extract(start).0;
      while rfill >= HEADER
        invariant Valid()
        invariant Extract(start) == (frames + Extract(Buffered()).0, Extract(Buffered()).1)
        decreases rfill
      {
        var view := rbuf[..rfill];
        var header := Decode(view);
        if !header.Header? {
          rfill := 0;
          break;
        }
        var size := HEADER + header.length;
        if rfill < size {
          break;
        }
        var frame := Frame(header.version, header.kind, view[HEADER..size]);
        Assoc(frames, [frame], Extract(view[size..]).0);
        frames := frames + [frame];
        forall i | 0 <= i < rfill - size {
          rbuf[i] := rbuf[i + size];
        }
        rfill := rfill - size;
        assert Buffered() == view[size..];
      }
      assert frames + [] == frames;
    }
  }

  // ----- Streams -----

  predicate AllWellFormed(fs: seq<Frame>) {
    forall i :: 0 <= i < |fs| ==> WellFormed(fs[i])
  }

  function StreamBytes(fs: seq<Frame>): seq<byte>
    requires AllWellFormed(fs)
  {
    if fs == [] then [] else FrameBytes(fs[0]) + StreamBytes(fs[1..])
  }

  /** The buffer holds no complete frame and nothing that would be discarded. */
  predicate Incomplete(b: seq<byte>) {
    |b| < HEADER || (Decode(b).Header? && |b| < HEADER + Decode(b).length)
  }

  lemma HeadOfStream(fs: seq<Frame>, b: seq<byte>)
    requires AllWellFormed(fs) && |b| >= HEADER && b <= StreamBytes(fs)
    ensures fs != []
    ensures Decode(b) == Header(fs[0].version, fs[0].kind, |fs[0].payload|)
    ensures var size := HEADER + |fs[0].payload|;
            |b| >= size ==>
              && b[HEADER..size] == fs[0].payload
              && b[size..] <= StreamBytes(fs[1..])
              && b[..size] == FrameBytes(fs[0])
  {
    var all := StreamBytes(fs);
    assert WellFormed(fs[0]);
    assert all == FrameBytes(fs[0]) + StreamBytes(fs[1..]);
    assert b[..HEADER] == all[..HEADER] == HeaderBytes(fs[0]);
    DecodeInvertsEncode(fs[0], b);
    var size := HEADER + |fs[0].payload|;
    if |b| >= size {
      assert b == all[..|b|];
      assert b[size..] == all[size..][..|b| - size];
      assert all[size..] == StreamBytes(fs[1..]);
      assert b[..size] == all[..size] == FrameBytes(fs[0]);
      assert b[HEADER..size] == b[..size][HEADER..];
    }
  }

  lemma EmptyStream()
    ensures StreamBytes([]) == []
  {
  }

  lemma ConsStream(fs: seq<Frame>, m: nat)
    requires AllWellFormed(fs) && 0 < m <= |fs|
    ensures fs[..m] == [fs[0]] + fs[1..][..m - 1]
    ensures fs[m..] == fs[1..][m - 1..]
    ensures StreamBytes(fs[..m]) == FrameBytes(fs[0]) + StreamBytes(fs[1..][..m - 1])
  {
    assert fs[..m][1..] == fs[1..][..m - 1];
  }

  /** From any prefix of a stream, exactly the frames that are complete in it come out. */
  lemma {:induction false} ExtractFromStream(fs: seq<Frame>, b: seq<byte>) returns (m: nat)
    requires AllWellFormed(fs) && b <= StreamBytes(fs)
    ensures m <= |fs|
    ensures Extract(b).0 == fs[..m]
    ensures b == StreamBytes(fs[..m]) + Extract(b).1
    ensures Extract(b).1 <= StreamBytes(fs[m..])
    ensures Incomplete(Extract(b).1)
    decreases |fs|
  {
    hide Decode, StreamBytes, FrameBytes;
    EmptyStream();
    if |b| < HEADER {
      m := 0;
      assert fs[0..] == fs && fs[..0] == [] && [] + b == b;
    } else {
      HeadOfStream(fs, b);
      var size := HEADER + |fs[0].payload|;
      if |b| < size {
        m := 0;
        assert fs[0..] == fs && fs[..0] == [] && [] + b == b;
      } else {
        var k := ExtractFromStream(fs[1..], b[size..]);
        m := k + 1;
        ConsStream(fs, m);
        assert b == b[..size] + b[size..];
        Assoc(FrameBytes(fs[0]), StreamBytes(fs[1..][..k]), Extract(b[size..]).1);
      }
    }
  }

  /** A header that no frame has. */
  ghost predicate IsBad(b: seq<byte>) {
    |b| >= 12 && (b[..4] != [82, 84, 82, 68] || GetU32(b, 8) > 0x10_0000)
  }

  /** A header, or part of one, whose frame is not all there. */
  ghost predicate IsPartial(b: seq<byte>) {
    |b| < 12 || (!IsBad(b) && |b| < 12 + GetU32(b, 8))
  }

  lemma DecodedIsFrame(b: seq<byte>)
    requires |b| >= 12 && !IsBad(b) && |b| >= 12 + GetU32(b, 8)
    ensures var n := 12 + GetU32(b, 8);
            var f := Frame(GetU16(b, 4), GetU16(b, 6), b[12..n]);
            && Decode(b) == Header(f.version, f.kind, |f.payload|) && WellFormed(f)
            && b[..n] == FrameBytes(f)
  {
    assert b[..4] == [b[0], b[1], b[2], b[3]];
    var n := 12 + GetU32(b, 8);
    var f := Frame(GetU16(b, 4), GetU16(b, 6), b[12..n]);
    DecodeInvertsEncode(f, b);
    assert b[..n] == b[..12] + b[12..n];
  }

  /**
   Of any bytes at all: they are whole frames and a rest, the frames come out in order, and the rest stays if it may
   still grow into a frame and is thrown away if its header is bad.
   */
  lemma {:induction false} ExtractIsExact(b: seq<byte>) returns (rest: seq<byte>)
    ensures AllWellFormed(Extract(b).0) && b == StreamBytes(Extract(b).0) + rest
    ensures IsBad(rest) || IsPartial(rest)
    ensures Extract(b).1 == if IsBad(rest) then [] else rest
    decreases |b|
  {
    hide StreamBytes, Extract, GetU32, AllWellFormed;
    if IsBad(b) || IsPartial(b) {
      ExtractStops(b);
      EmptyStream();
      assert [] + b == b;
      NoFrames();
      rest := b;
    } else {
      var n := 12 + GetU32(b, 8);
      rest := ExtractIsExact(b[n..]);
      var f := ExtractOne(b);
      var fs := Extract(b[n..]).0;
      StreamCons(f, fs);
      Assoc(FrameBytes(f), StreamBytes(fs), rest);
      assert b == b[..n] + b[n..];
    }
  }

  lemma NoFrames()
    ensures AllWellFormed([])
  {
  }

  lemma ExtractStops(b: seq<byte>)
    requires IsBad(b) || IsPartial(b)
    ensures Extract(b) == ([], if IsBad(b) then [] else b)
  {
    hide GetU16, GetU32;
    assert |b| >= 4 ==> b[..4] == [b[0], b[1], b[2], b[3]];
  }

  lemma ExtractOne(b: seq<byte>) returns (f: Frame)
    requires !IsBad(b) && !IsPartial(b)
    ensures var n := 12 + GetU32(b, 8);
            && WellFormed(f) && b[..n] == FrameBytes(f)
            && Extract(b) == ([f] + Extract(b[n..]).0, Extract(b[n..]).1)
  {
    hide GetU16, GetU32, FrameBytes;
    var n := 12 + GetU32(b, 8);
    f := Frame(GetU16(b, 4), GetU16(b, 6), b[12..n]);
    DecodedIsFrame(b);
    hide Decode;
  }

  lemma StreamCons(f: Frame, fs: seq<Frame>)
    requires WellFormed(f) && AllWellFormed(fs)
    ensures AllWellFormed([f] + fs) && StreamBytes([f] + fs) == FrameBytes(f) + StreamBytes(fs)
  {
    assert ([f] + fs)[1..] == fs;
  }

  // ----- The connection -----

  /** The bytes still on their way, the receive buffer, the frames handed over, and whether the socket is open. */
  datatype Link = Link(pending: seq<byte>, buffer: seq<byte>, delivered: seq<Frame>, connected: bool)

  /**
   One turn of the receive loop: a read of `n` bytes, at most what is pending and what fits; when
   nothing fits the read returns zero and the connection is dropped.
   */
  ghost predicate Receive(s: Link, s': Link, n: nat) {
    && s.connected
    && |s.buffer| <= RBUF
    && if |s.buffer| == RBUF then
         n == 0 && s' == s.(connected := false, buffer := [])
       else
         && 0 < n <= |s.pending| && n <= RBUF - |s.buffer|
         && var (frames, rest) := Extract(s.buffer + s.pending[..n]);
            s' == Link(s.pending[n..], rest, s.delivered + frames, true)
  }

  /** A run over a stream of frames, cut into reads in any way. */
  ghost predicate IsRun(fs: seq<Frame>, states: seq<Link>, sizes: seq<nat>)
    requires AllWellFormed(fs)
  {
    && |states| == |sizes| + 1
    && states[0] == Link(StreamBytes(fs), [], [], true)
    && forall i :: 0 <= i < |sizes| ==> Receive(states[i], states[i + 1], sizes[i])
  }

  /** The frame fits the receive buffer. */
  predicate Fits(f: Frame) {
    |f.payload| <= 4096
  }

  ghost predicate LinkInv(fs: seq<Frame>, s: Link)
    requires AllWellFormed(fs)
  {
    && |s.delivered| <= |fs|
    && s.delivered == fs[..|s.delivered|]
    && (forall i :: 0 <= i < |s.delivered| ==> Fits(fs[i]))
    && |s.buffer| <= RBUF
    && (s.connected ==>
          && s.buffer + s.pending == StreamBytes(fs[|s.delivered|..])
          && Incomplete(s.buffer))
    && (!s.connected ==> |s.delivered| < |fs| && !Fits(fs[|s.delivered|]))
  }

  /** A full buffer without a complete frame means the frame at hand cannot fit. */
  lemma FullMeansOversize(fs: seq<Frame>, b: seq<byte>)
    requires AllWellFormed(fs) && b <= StreamBytes(fs) && |b| == RBUF && Incomplete(b)
    ensures fs != [] && !Fits(fs[0])
  {
    HeadOfStream(fs, b);
  }

  lemma {:induction false} WholeFramesFit(fs: seq<Frame>, b: seq<byte>, i: nat)
    requires AllWellFormed(fs) && StreamBytes(fs) <= b && i < |fs|
    ensures HEADER + |fs[i].payload| <= |b|
    decreases |fs|
  {
    if i > 0 {
      assert StreamBytes(fs[1..]) <= b[|FrameBytes(fs[0])|..];
      WholeFramesFit(fs[1..], b[|FrameBytes(fs[0])|..], i - 1);
    }
  }

  /** Cutting a buffer that starts a stream leaves a buffer that starts the rest of the stream. */
  lemma CutKeepsStream(left: seq<Frame>, b: seq<byte>, after: seq<byte>) returns (m: nat)
    requires AllWellFormed(left) && b + after == StreamBytes(left) && |b| <= RBUF
    ensures m <= |left| && Extract(b).0 == left[..m]
    ensures forall i :: 0 <= i < m ==> Fits(left[i])
    ensures Extract(b).1 + after == StreamBytes(left[m..])
    ensures Incomplete(Extract(b).1)
  {
    hide Extract, StreamBytes, Decode, Incomplete;
    assert b <= b + after;
    m := ExtractFromStream(left, b);
    forall i | 0 <= i < m
      ensures Fits(left[i])
    {
      WholeFramesFit(left[..m], b, i);
    }
    SplitStream(left, m);
    Assoc(StreamBytes(left[..m]), Extract(b).1, after);
    CancelPrefix(StreamBytes(left[..m]), Extract(b).1 + after, StreamBytes(left[m..]));
  }

  lemma ReceiveKeeps(fs: seq<Frame>, s: Link, s': Link, n: nat)
    requires AllWellFormed(fs) && LinkInv(fs, s) && Receive(s, s', n)
    ensures LinkInv(fs, s')
  {
    hide Extract, StreamBytes, Decode, Incomplete;
    var k := |s.delivered|;
    var left := fs[k..];
    if |s.buffer| == RBUF {
      assert s.buffer <= s.buffer + s.pending;
      FullMeansOversize(left, s.buffer);
    } else {
      var b := s.buffer + s.pending[..n];
      assert s.pending == s.pending[..n] + s.pending[n..];
      Assoc(s.buffer, s.pending[..n], s.pending[n..]);
      var m := CutKeepsStream(left, b, s.pending[n..]);
      assert fs[..k] + left[..m] == fs[..k + m];
      assert left[m..] == fs[k + m..];
      forall i | 0 <= i < k + m
        ensures Fits(fs[i])
      {
        if k <= i {
          assert left[i - k] == fs[i];
        }
      }
    }
  }

  lemma CancelPrefix(a: seq<byte>, x: seq<byte>, y: seq<byte>)
    requires a + x == a + y
    ensures x == y
  {
    assert x == (a + x)[|a|..] == (a + y)[|a|..] == y;
  }

  lemma {:induction false} SplitStream(fs: seq<Frame>, m: nat)
    requires AllWellFormed(fs) && m <= |fs|
    ensures StreamBytes(fs) == StreamBytes(fs[..m]) + StreamBytes(fs[m..])
    decreases m
  {
    if m == 0 {
      assert fs[..0] == [] && fs[0..] == fs;
    } else {
      ConsStream(fs, m);
      SplitStream(fs[1..], m - 1);
      Assoc(FrameBytes(fs[0]), StreamBytes(fs[1..][..m - 1]), StreamBytes(fs[1..][m - 1..]));
    }
  }

  lemma {:induction false} RunKeeps(fs: seq<Frame>, states: seq<Link>, sizes: seq<nat>, n: nat)
    requires AllWellFormed(fs) && IsRun(fs, states, sizes) && n < |states|
    ensures LinkInv(fs, states[n])
    decreases n
  {
    if n == 0 {
      assert fs[0..] == fs && [] + StreamBytes(fs) == StreamBytes(fs);
    } else {
      RunKeeps(fs, states, sizes, n - 1);
      assert Receive(states[n - 1], states[n - 1 + 1], sizes[n - 1]);
      ReceiveKeeps(fs, states[n - 1], states[n], sizes[n - 1]);
    }
  }

  /**
   However the stream is cut into reads, the agent hands over a prefix of its frames, once each and in
   order, whatever their types; while it is connected the buffer has room for the next read; and when the
   whole stream has been read, every frame has been handed over.
   */
  lemma FramesArriveInOrder(fs: seq<Frame>, states: seq<Link>, sizes: seq<nat>, n: nat)
    requires AllWellFormed(fs) && IsRun(fs, states, sizes) && n < |states|
    ensures states[n].delivered <= fs
    ensures (forall i :: 0 <= i < |fs| ==> Fits(fs[i])) ==>
              states[n].connected && |states[n].buffer| < RBUF
    ensures states[n].connected && states[n].pending == [] && |states[n].buffer| < RBUF ==>
              states[n].delivered == fs && states[n].buffer == []
    ensures !states[n].connected ==>
              |states[n].delivered| < |fs| && !Fits(fs[|states[n].delivered|])
  {
    RunKeeps(fs, states, sizes, n);
    var s := states[n];
    if s.connected {
      var left := fs[|s.delivered|..];
      assert s.buffer <= s.buffer + s.pending;
      if |s.buffer| == RBUF {
        FullMeansOversize(left, s.buffer);
        assert left[0] == fs[|s.delivered|];
      }
      if s.pending == [] && left != [] {
        assert s.buffer == StreamBytes(left);
        HeadOfStream(left, s.buffer);
      }
      if left == [] {
        assert fs[..|s.delivered|] == fs;
      }
    }
  }

  /** A run delivers the whole stream only if every payload is at most 4096 bytes. */
  lemma OnlyFittingStreamsArrive(fs: seq<Frame>, states: seq<Link>, sizes: seq<nat>, n: nat)
    requires AllWellFormed(fs) && IsRun(fs, states, sizes) && n < |states|
    ensures states[n].delivered == fs ==> forall i :: 0 <= i < |fs| ==> Fits(fs[i])
  {
    RunKeeps(fs, states, sizes, n);
  }
}
