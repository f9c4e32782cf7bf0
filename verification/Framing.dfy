/**
 The peer-to-peer message stream: frames of a 24-byte header and a payload, and what a byte stream
 means as a sequence of frames, however it is cut up.
 */
module Framing {

  type Byte = x: int | 0 <= x < 256

  const HEADER_SIZE := 24
  const MAX_SIZE := 0x02000000
  const MAX_PROTOCOL_MESSAGE_LENGTH := 4_000_000

  // ---- Frames ----

  /** A message: the command as it stands in the header, and the payload. */
  datatype Message = Message(command: seq<Byte>, data: seq<Byte>)

  function LittleEndian(x: nat): (r: seq<Byte>)
    ensures |r| == 4
  {
    [x % 256, x / 0x100 % 256, x / 0x1_0000 % 256, x / 0x100_0000 % 256]
  }

  function FromBytes(b0: nat, b1: nat, b2: nat, b3: nat): nat
  {
    b0 + 0x100 * b1 + 0x1_0000 * b2 + 0x100_0000 * b3
  }

  /** nMessageSize, at offset 16 of the header. */
  function SizeOf(header: seq<Byte>): nat
    requires |header| == HEADER_SIZE
  {
    FromBytes(header[16], header[17], header[18], header[19])
  }

  predicate GoodMessage(m: Message)
  {
    |m.command| == 12 && |m.data| <= MAX_PROTOCOL_MESSAGE_LENGTH
  }

  function Header(magic: seq<Byte>, m: Message, checksum: seq<Byte> -> seq<Byte>): (r: seq<Byte>)
    requires |magic| == 4 && |m.command| == 12
  {
    var sum := checksum(m.data);
    var four := if |sum| >= 4 then sum[..4] else [0, 0, 0, 0];
    magic + m.command + LittleEndian(|m.data|) + four
  }

  function Frame(magic: seq<Byte>, m: Message, checksum: seq<Byte> -> seq<Byte>): seq<Byte>
    requires |magic| == 4 && |m.command| == 12
  {
    Header(magic, m, checksum) + m.data
  }

  /** What the receiver takes from a frame. */
  function MessageOf(frame: seq<Byte>): Message
    requires |frame| >= HEADER_SIZE
  {
    Message(frame[4..16], frame[HEADER_SIZE..])
  }

  /** A frame the receiver accepts: its size field is right and within the limit. */
  predicate GoodFrame(frame: seq<Byte>)
  {
    |frame| >= HEADER_SIZE && SizeOf(frame[..HEADER_SIZE]) == |frame| - HEADER_SIZE <= MAX_PROTOCOL_MESSAGE_LENGTH
  }

  lemma SizeRoundTrip(x: nat)
    requires x < 0x1_0000_0000
    ensures var r := LittleEndian(x); FromBytes(r[0], r[1], r[2], r[3]) == x
  {
    var y, z, w := x / 0x100, x / 0x1_0000, x / 0x100_0000;
    assert z == y / 0x100 && w == z / 0x100 && w < 0x100;
    assert x == 0x100 * y + x % 0x100 && y == 0x100 * z + y % 0x100 && z == 0x100 * w + z % 0x100;
    assert w % 0x100 == w;
  }

  /** The header announces the size, up to 32 bits. */
  lemma FrameAnnounces(magic: seq<Byte>, m: Message, checksum: seq<Byte> -> seq<Byte>)
    requires |magic| == 4 && |m.command| == 12 && |m.data| < 0x1_0000_0000
    ensures var frame := Frame(magic, m, checksum);
      |frame| == HEADER_SIZE + |m.data| && SizeOf(frame[..HEADER_SIZE]) == |m.data|
  {
    hide LittleEndian;
    var h := Header(magic, m, checksum);
    SizeRoundTrip(|m.data|);
    assert Frame(magic, m, checksum)[..HEADER_SIZE] == h && h[16..20] == LittleEndian(|m.data|);
    assert forall i | 0 <= i < 4 :: h[16 + i] == h[16..20][i];
  }

  lemma FrameGood(magic: seq<Byte>, m: Message, checksum: seq<Byte> -> seq<Byte>)
    requires |magic| == 4 && GoodMessage(m)
    ensures GoodFrame(Frame(magic, m, checksum)) && MessageOf(Frame(magic, m, checksum)) == m
  {
    hide LittleEndian, SizeOf;
    FrameAnnounces(magic, m, checksum);
    var frame := Frame(magic, m, checksum);
    assert frame[4..16] == m.command && frame[HEADER_SIZE..] == m.data;
  }

  // ---- A byte stream read byte by byte ----

  /** The frames completed so far, the bytes of the one in progress, and whether reading has failed
      for good. */
  datatype Stream = Stream(done: seq<seq<Byte>>, partial: seq<Byte>, failed: bool)

  const START := Stream([], [], false)

  /** What the bytes of the frame in progress amount to. */
  function Settle(s: Stream, p: seq<Byte>): Stream
  {
    if |p| < HEADER_SIZE then s.(partial := p)
    else if SizeOf(p[..HEADER_SIZE]) > MAX_PROTOCOL_MESSAGE_LENGTH then s.(partial := p, failed := true)
    else if |p| - HEADER_SIZE == SizeOf(p[..HEADER_SIZE]) then s.(done := s.done + [p], partial := [])
    else s.(partial := p)
  }

  function FeedByte(s: Stream, b: Byte): Stream
  {
    if s.failed then s else Settle(s, s.partial + [b])
  }

  function Feed(s: Stream, bytes: seq<Byte>): Stream
  {
    if bytes == [] then s else FeedByte(Feed(s, bytes[..|bytes| - 1]), bytes[|bytes| - 1])
  }

  /** How the stream is cut up makes no difference. */
  lemma {:induction false} FeedSplit(s: Stream, a: seq<Byte>, b: seq<Byte>)
    ensures Feed(s, a + b) == Feed(Feed(s, a), b)
  {
    if b == [] {
      assert a + b == a;
    } else {
      var n := |b| - 1;
      assert (a + b)[..|a + b| - 1] == a + b[..n];
      FeedSplit(s, a, b[..n]);
    }
  }

  /** More bytes are needed before anything happens: still in the header, or still in the payload. */
  predicate Growing(p: seq<Byte>)
  {
    |p| < HEADER_SIZE
    || (SizeOf(p[..HEADER_SIZE]) <= MAX_PROTOCOL_MESSAGE_LENGTH && |p| - HEADER_SIZE < SizeOf(p[..HEADER_SIZE]))
  }

  lemma GrowingPrefix(p: seq<Byte>, n: nat)
    requires Growing(p) && n <= |p|
    ensures Growing(p[..n])
  {
    if n >= HEADER_SIZE {
      assert p[..n][..HEADER_SIZE] == p[..HEADER_SIZE];
    }
  }

  lemma {:induction false} FeedGrowing(s: Stream, c: seq<Byte>)
    requires !s.failed && Growing(s.partial + c)
    ensures Feed(s, c) == s.(partial := s.partial + c)
  {
    if c == [] {
      assert s.partial + c == s.partial;
    } else {
      var n := |c| - 1;
      var p := s.partial + c;
      assert p[..|p| - 1] == s.partial + c[..n];
      GrowingPrefix(p, |p| - 1);
      FeedGrowing(s, c[..n]);
      assert s.partial + c[..n] + [c[n]] == p;
    }
  }

  /** Up to the byte that decides, bytes only accumulate. */
  lemma FeedChunk(s: Stream, c: seq<Byte>)
    requires !s.failed && c != [] && Growing(s.partial + c[..|c| - 1])
    ensures Feed(s, c) == Settle(s, s.partial + c)
  {
    hide Growing;
    var n := |c| - 1;
    FeedGrowing(s, c[..n]);
    assert s.partial + c[..n] + [c[n]] == s.partial + c;
  }

  lemma {:induction false} FeedFailed(s: Stream, c: seq<Byte>)
    requires s.failed
    ensures Feed(s, c) == s
  {
    if c != [] {
      FeedFailed(s, c[..|c| - 1]);
    }
  }

  lemma FeedFrame(s: Stream, frame: seq<Byte>)
    requires !s.failed && s.partial == [] && GoodFrame(frame)
    ensures Feed(s, frame) == Stream(s.done + [frame], [], false)
  {
    var n := |frame| - 1;
    assert [] + frame[..n] == frame[..n] && frame[..n] + [frame[n]] == frame;
    assert Growing(frame[..n]) by {
      assert n >= HEADER_SIZE ==> frame[..n][..HEADER_SIZE] == frame[..HEADER_SIZE];
    }
    FeedChunk(s, frame);
    assert [] + frame == frame;
  }

  function Concat(parts: seq<seq<Byte>>): seq<Byte>
  {
    if parts == [] then [] else Concat(parts[..|parts| - 1]) + parts[|parts| - 1]
  }

  lemma {:induction false} ConcatSplit(a: seq<seq<Byte>>, b: seq<seq<Byte>>)
    ensures Concat(a + b) == Concat(a) + Concat(b)
  {
    if b == [] {
      assert a + b == a;
    } else {
      var n := |b| - 1;
      assert (a + b)[..|a + b| - 1] == a + b[..n];
      ConcatSplit(a, b[..n]);
      assert Concat(a) + (Concat(b[..n]) + b[n]) == Concat(a) + Concat(b[..n]) + b[n];
    }
  }

  ghost predicate AllGood(frames: seq<seq<Byte>>)
  {
    forall i | 0 <= i < |frames| :: GoodFrame(frames[i])
  }

  lemma {:induction false} FeedFrames(frames: seq<seq<Byte>>)
    requires AllGood(frames)
    ensures Feed(START, Concat(frames)) == Stream(frames, [], false)
  {
    if frames != [] {
      var n := |frames| - 1;
      FeedFrames(frames[..n]);
      FeedSplit(START, Concat(frames[..n]), frames[n]);
      FeedFrame(Stream(frames[..n], [], false), frames[n]);
      assert frames[..n] + [frames[n]] == frames;
    }
  }

  /** Any part of the stream reads as some first frames and the beginning of the next. */
  lemma {:induction false} FeedPart(frames: seq<seq<Byte>>, k: nat) returns (j: nat)
    requires AllGood(frames) && k <= |Concat(frames)|
    ensures j <= |frames| && |Concat(frames[..j])| <= k && (j < |frames| ==> k < |Concat(frames[..j + 1])|)
    ensures Feed(START, Concat(frames)[..k]) == Stream(frames[..j], Concat(frames)[|Concat(frames[..j])|..k], false)
  {
    hide Feed;
    var n := |frames| - 1;
    if frames == [] || k == |Concat(frames)| {
      j := |frames|;
      assert frames[..j] == frames && Concat(frames)[..k] == Concat(frames) && Concat(frames)[k..k] == [];
      FeedFrames(frames);
    } else if k < |Concat(frames[..n])| {
      j := FeedPart(frames[..n], k);
      assert frames[..n][..j] == frames[..j];
      assert j < n ==> frames[..n][..j + 1] == frames[..j + 1];
      assert Concat(frames)[..k] == Concat(frames[..n])[..k];
    } else {
      j := n;
      assert frames[..n + 1] == frames;
      LastPart(frames, k);
    }
  }

  lemma LastPart(frames: seq<seq<Byte>>, k: nat)
    requires AllGood(frames) && frames != [] && |Concat(frames[..|frames| - 1])| <= k < |Concat(frames)|
    ensures var n := |frames| - 1;
      Feed(START, Concat(frames)[..k]) == Stream(frames[..n], Concat(frames)[|Concat(frames[..n])|..k], false)
  {
    var n := |frames| - 1;
    var before, last := Concat(frames[..n]), frames[n];
    var c := last[..k - |before|];
    assert Concat(frames)[..k] == before + c && Concat(frames)[|before|..k] == c;
    FeedFrames(frames[..n]);
    FeedSplit(START, before, c);
    assert Growing(c) by {
      assert |c| >= HEADER_SIZE ==> c[..HEADER_SIZE] == last[..HEADER_SIZE];
    }
    assert [] + c == c;
    FeedGrowing(Stream(frames[..n], [], false), c);
  }

  /** Chunk after chunk, as the socket delivers them. */
  function FeedAll(s: Stream, chunks: seq<seq<Byte>>): Stream
  {
    if chunks == [] then s else Feed(FeedAll(s, chunks[..|chunks| - 1]), chunks[|chunks| - 1])
  }

  /** What is received depends only on the bytes, not on how they were cut into chunks. */
  lemma {:induction false} ChunksIrrelevant(s: Stream, chunks: seq<seq<Byte>>)
    ensures FeedAll(s, chunks) == Feed(s, Concat(chunks))
  {
    if chunks != [] {
      ChunksIrrelevant(s, chunks[..|chunks| - 1]);
      FeedSplit(s, Concat(chunks[..|chunks| - 1]), chunks[|chunks| - 1]);
    }
  }
}
