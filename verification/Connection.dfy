/**
 A connection's two ends: the send queue, emptied by partial writes, and the receiver, fed by
 partial reads.
 */
module Connection {
  import opened Framing

  // ---- Receiving ----

  /** CNetMessage: a header buffer and a payload buffer, each with its fill position. */
  datatype NetMessage = NetMessage(inData: bool, hdrbuf: seq<Byte>, nHdrPos: nat, vRecv: seq<Byte>, nDataPos: nat)
  {
    /** The fill positions are within the buffers, and the payload buffer within the announced size. */
    predicate Valid()
    {
      && |hdrbuf| == HEADER_SIZE && nHdrPos <= HEADER_SIZE
      && if inData then nHdrPos == HEADER_SIZE && nDataPos <= |vRecv| <= SizeOf(hdrbuf)
         else nHdrPos < HEADER_SIZE && nDataPos == 0 == |vRecv|
    }

    predicate Complete()
      requires |hdrbuf| == HEADER_SIZE
    {
      inData && SizeOf(hdrbuf) == nDataPos
    }

    /** The bytes of the stream taken in so far. */
    function Bytes(): seq<Byte>
      requires nHdrPos <= |hdrbuf| && nDataPos <= |vRecv|
    {
      hdrbuf[..nHdrPos] + vRecv[..nDataPos]
    }
  }

  function FreshMessage(): NetMessage { NetMessage(false, Zeros(HEADER_SIZE), 0, [], 0) }

  function Zeros(n: nat): (r: seq<Byte>)
    ensures |r| == n
  {
    seq(n, _ => 0)
  }

  function Min(a: nat, b: nat): nat { if a < b then a else b }

  /** Copies bytes into a buffer at a position. */
  function Overwrite(buffer: seq<Byte>, at: nat, bytes: seq<Byte>): (r: seq<Byte>)
    requires at + |bytes| <= |buffer|
    ensures |r| == |buffer| && r[..at + |bytes|] == buffer[..at] + bytes
  {
    buffer[..at] + bytes + buffer[at + |bytes|..]
  }

  /** Takes in header bytes; negative when the announced size is beyond all bounds. */
  method ReadHeader(m: NetMessage, bytes: seq<Byte>) returns (m': NetMessage, handled: int)
    requires m.Valid() && !m.inData && bytes != []
    ensures var n := Min(HEADER_SIZE - m.nHdrPos, |bytes|);
      && |m'.hdrbuf| == HEADER_SIZE && m'.nHdrPos == m.nHdrPos + n && m'.nDataPos == 0 && m'.vRecv == []
      && m'.Bytes() == m.Bytes() + bytes[..n]
      && (m'.inData <==> m'.nHdrPos == HEADER_SIZE && SizeOf(m'.hdrbuf) <= MAX_SIZE)
      && handled == (if m'.nHdrPos == HEADER_SIZE && SizeOf(m'.hdrbuf) > MAX_SIZE then -1 else n)
      && (handled >= 0 ==> m'.Valid())
  {
    var nCopy := Min(HEADER_SIZE - m.nHdrPos, |bytes|);
    m' := m.(hdrbuf := Overwrite(m.hdrbuf, m.nHdrPos, bytes[..nCopy]), nHdrPos := m.nHdrPos + nCopy);
    handled := nCopy;
    if m'.nHdrPos < HEADER_SIZE {
      return;
    }
    if SizeOf(m'.hdrbuf) > MAX_SIZE {
      return m', -1;
    }
    m' := m'.(inData := true);
  }

  /** Takes in payload bytes, growing the buffer ahead of need but never past the announced size. */
  method ReadData(m: NetMessage, bytes: seq<Byte>) returns (m': NetMessage, handled: nat)
    requires m.Valid() && m.inData && !m.Complete() && bytes != []
    ensures m'.Valid() && m'.inData && m'.hdrbuf == m.hdrbuf
    ensures handled == Min(SizeOf(m.hdrbuf) - m.nDataPos, |bytes|) && m'.nDataPos == m.nDataPos + handled
    ensures m'.Bytes() == m.Bytes() + bytes[..handled]
  {
    var size := SizeOf(m.hdrbuf);
    var nCopy := Min(size - m.nDataPos, |bytes|);
    var buffer := m.vRecv;
    if |buffer| < m.nDataPos + nCopy {
      buffer := buffer + Zeros(Min(size, m.nDataPos + nCopy + 256 * 1024) - |buffer|);
    }
    assert buffer[..m.nDataPos] == m.vRecv[..m.nDataPos];
    m' := m.(vRecv := Overwrite(buffer, m.nDataPos, bytes[..nCopy]), nDataPos := m.nDataPos + nCopy);
    handled := nCopy;
    assert m'.Bytes() == m.Bytes() + bytes[..handled];
  }

  predicate GoodMsg(m: NetMessage)
  {
    m.Valid() && (m.inData ==> SizeOf(m.hdrbuf) <= MAX_PROTOCOL_MESSAGE_LENGTH)
  }

  predicate AllComplete(msgs: seq<NetMessage>)
  {
    forall i | 0 <= i < |msgs| :: GoodMsg(msgs[i]) && msgs[i].Complete()
  }

  /** A receive list: complete messages, and perhaps one more in progress. */
  predicate GoodList(msgs: seq<NetMessage>)
  {
    msgs == [] || (AllComplete(msgs[..|msgs| - 1]) && GoodMsg(msgs[|msgs| - 1]))
  }

  function FramesOf(msgs: seq<NetMessage>): seq<seq<Byte>>
    requires AllComplete(msgs)
  {
    seq(|msgs|, i requires 0 <= i < |msgs| => msgs[i].Bytes())
  }

  /** The stream a receive list stands for. */
  function StreamOf(msgs: seq<NetMessage>): Stream
    requires GoodList(msgs)
  {
    if msgs == [] then START
    else
      var n := |msgs| - 1;
      if msgs[n].Complete() then Stream(FramesOf(msgs[..n]) + [msgs[n].Bytes()], [], false)
      else Stream(FramesOf(msgs[..n]), msgs[n].Bytes(), false)
  }

  /** Opening a new message once the last is complete. */
  function Opened(msgs: seq<NetMessage>): (r: seq<NetMessage>)
    requires GoodList(msgs)
    ensures r != [] && GoodList(r) && !r[|r| - 1].Complete()
  {
    if msgs == [] || msgs[|msgs| - 1].Complete() then msgs + [FreshMessage()] else msgs
  }

  lemma OpenedSame(msgs: seq<NetMessage>)
    requires GoodList(msgs)
    ensures StreamOf(Opened(msgs)) == StreamOf(msgs)
  {
    var r := Opened(msgs);
    if |r| > |msgs| {
      assert r[..|r| - 1] == msgs;
      assert FreshMessage().Bytes() == [];
      assert msgs != [] ==> FramesOf(msgs) == FramesOf(msgs[..|msgs| - 1]) + [msgs[|msgs| - 1].Bytes()];
    }
  }

  /** The message in progress has not got all its bytes. */
  lemma InProgress(m: NetMessage)
    requires GoodMsg(m) && !m.Complete()
    ensures Growing(m.Bytes()) && (m.inData ==> m.Bytes()[..HEADER_SIZE] == m.hdrbuf)
  {
    if m.inData {
      assert m.Bytes()[..HEADER_SIZE] == m.hdrbuf;
    }
  }

  /** The bytes taken in at once never run past the point where the frame is settled. */
  lemma ChunkGrows(m: NetMessage, c: seq<Byte>)
    requires GoodMsg(m) && !m.Complete() && c != []
    requires |c| <= if m.inData then SizeOf(m.hdrbuf) - m.nDataPos else HEADER_SIZE - m.nHdrPos
    ensures Growing(m.Bytes() + c[..|c| - 1])
  {
    InProgress(m);
    var p := m.Bytes() + c[..|c| - 1];
    if m.inData {
      assert p[..HEADER_SIZE] == m.Bytes()[..HEADER_SIZE];
    }
  }

  /** Where a list with its last message replaced stands in the stream. */
  lemma Replaced(msgs: seq<NetMessage>, m: NetMessage)
    requires msgs != [] && GoodList(msgs) && !msgs[|msgs| - 1].Complete() && GoodMsg(m)
    requires m.inData || m.nHdrPos < HEADER_SIZE
    ensures GoodList(msgs[|msgs| - 1 := m])
    ensures StreamOf(msgs[|msgs| - 1 := m]) == Settle(StreamOf(msgs), m.Bytes())
    ensures |StreamOf(msgs[|msgs| - 1 := m]).done| == |StreamOf(msgs).done| + if m.Complete() then 1 else 0
  {
    var n := |msgs| - 1;
    assert msgs[n := m][..n] == msgs[..n];
    if m.inData {
      assert m.Bytes()[..HEADER_SIZE] == m.hdrbuf;
    }
  }

  lemma LastOf(msgs: seq<NetMessage>)
    requires msgs != [] && GoodList(msgs) && !msgs[|msgs| - 1].Complete()
    ensures var n := |msgs| - 1;
      && GoodMsg(msgs[n]) && AllComplete(msgs[..n])
      && StreamOf(msgs) == Stream(FramesOf(msgs[..n]), msgs[n].Bytes(), false)
  {
  }

  /** The stream is broken by these bytes; the complete messages are those before the break. */
  ghost predicate Rejects(msgs: seq<NetMessage>, bytes: seq<Byte>, msgs': seq<NetMessage>)
    requires GoodList(msgs)
  {
    && Feed(StreamOf(msgs), bytes).failed
    && msgs' != [] && AllComplete(msgs'[..|msgs'| - 1])
    && FramesOf(msgs'[..|msgs'| - 1]) == Feed(StreamOf(msgs), bytes).done
  }

  lemma SettleFails(s: Stream, p: seq<Byte>)
    requires |p| >= HEADER_SIZE && SizeOf(p[..HEADER_SIZE]) > MAX_PROTOCOL_MESSAGE_LENGTH
    ensures Settle(s, p) == s.(partial := p, failed := true)
  {
  }

  lemma OversizeRejects(msgs: seq<NetMessage>, m': NetMessage, bytes: seq<Byte>, k: nat)
    requires msgs != [] && GoodList(msgs) && !msgs[|msgs| - 1].Complete() && !msgs[|msgs| - 1].inData
    requires k == HEADER_SIZE - msgs[|msgs| - 1].nHdrPos <= |bytes|
    requires |m'.hdrbuf| == HEADER_SIZE == m'.nHdrPos && m'.nDataPos == 0 && m'.vRecv == []
    requires m'.Bytes() == msgs[|msgs| - 1].Bytes() + bytes[..k] && SizeOf(m'.hdrbuf) > MAX_PROTOCOL_MESSAGE_LENGTH
    ensures Rejects(msgs, bytes, msgs[|msgs| - 1 := m']) && Feed(StreamOf(msgs), bytes).done == StreamOf(msgs).done
  {
    hide Growing, Feed, StreamOf, GoodList, GoodMsg, FramesOf, AllComplete, Settle, SizeOf, NetMessage.Bytes;
    hide NetMessage.Complete;
    var n := |msgs| - 1;
    LastOf(msgs);
    HeaderComes(msgs[n], bytes, k);
    HeaderFirst(m');
    OversizeFails(StreamOf(msgs), bytes, k);
    assert msgs[n := m'][..n] == msgs[..n];
  }

  lemma HeaderComes(m: NetMessage, bytes: seq<Byte>, k: nat)
    requires GoodMsg(m) && !m.Complete() && !m.inData && k == HEADER_SIZE - m.nHdrPos <= |bytes|
    ensures k > 0 && Growing(m.Bytes() + bytes[..k][..|bytes[..k]| - 1])
  {
    hide Growing;
    ChunkGrows(m, bytes[..k]);
  }

  lemma HeaderFirst(m: NetMessage)
    requires |m.hdrbuf| == HEADER_SIZE == m.nHdrPos && m.nDataPos == 0 && m.vRecv == []
    ensures |m.Bytes()| >= HEADER_SIZE && m.Bytes()[..HEADER_SIZE] == m.hdrbuf
  {
  }

  /** Once a header announces too much, the rest of the stream is not read. */
  lemma OversizeFails(s: Stream, bytes: seq<Byte>, k: nat)
    requires !s.failed && 0 < k <= |bytes| && Growing(s.partial + bytes[..k][..|bytes[..k]| - 1])
    requires |s.partial + bytes[..k]| >= HEADER_SIZE
    requires SizeOf((s.partial + bytes[..k])[..HEADER_SIZE]) > MAX_PROTOCOL_MESSAGE_LENGTH
    ensures Feed(s, bytes).failed && Feed(s, bytes).done == s.done
  {
    hide Growing, Feed, Settle, SizeOf;
    FeedChunk(s, bytes[..k]);
    SettleFails(s, s.partial + bytes[..k]);
    assert bytes == bytes[..k] + bytes[k..];
    FeedSplit(s, bytes[..k], bytes[k..]);
    FeedFailed(Feed(s, bytes[..k]), bytes[k..]);
  }

  lemma FeedNothing(s: Stream)
    ensures Feed(s, []) == s
  {
  }

  lemma StreamIsAlive(msgs: seq<NetMessage>)
    requires GoodList(msgs)
    ensures !StreamOf(msgs).failed
  {
  }

  lemma RejectsLater(msgs0: seq<NetMessage>, msgs: seq<NetMessage>, bytes: seq<Byte>, rest: seq<Byte>,
    msgs': seq<NetMessage>)
    requires GoodList(msgs0) && GoodList(msgs) && Rejects(msgs, rest, msgs')
    requires Feed(StreamOf(msgs0), bytes) == Feed(StreamOf(msgs), rest)
    ensures Rejects(msgs0, bytes, msgs') && Feed(StreamOf(msgs0), bytes).failed
  {
  }

  class Receiver {
    var vRecvMsg: seq<NetMessage>

    constructor ()
      ensures GoodList(vRecvMsg) && StreamOf(vRecvMsg) == START
    {
      vRecvMsg := [];
    }

    /** One round of the receive loop: as many bytes as the header or the payload still wants. */
    method TakeChunk(bytes: seq<Byte>) returns (ok: bool, handled: nat)
      requires GoodList(vRecvMsg) && bytes != []
      modifies this
      ensures ok ==> 0 < handled <= |bytes| && GoodList(vRecvMsg)
                     && StreamOf(vRecvMsg) == Feed(old(StreamOf(vRecvMsg)), bytes[..handled])
      ensures ok ==> vRecvMsg != [] && |vRecvMsg[|vRecvMsg| - 1].hdrbuf| == HEADER_SIZE
                     && |StreamOf(vRecvMsg).done| ==
                        |old(StreamOf(vRecvMsg)).done| + if vRecvMsg[|vRecvMsg| - 1].Complete() then 1 else 0
      ensures !ok ==> Rejects(old(vRecvMsg), bytes, vRecvMsg)
                      && Feed(old(StreamOf(vRecvMsg)), bytes).done == old(StreamOf(vRecvMsg)).done
    {
      hide Settle, Feed, StreamOf, GoodList, Growing;
      OpenedSame(vRecvMsg);
      vRecvMsg := Opened(vRecvMsg);
      ghost var msgs := vRecvMsg;
      LastOf(msgs);
      var n := |vRecvMsg| - 1;
      var m := vRecvMsg[n];
      var m', count;
      if !m.inData {
        m', count := ReadHeader(m, bytes);
      } else {
        m', count := ReadData(m, bytes);
      }
      vRecvMsg := vRecvMsg[n := m'];
      if count < 0 || (m'.inData && SizeOf(m'.hdrbuf) > MAX_PROTOCOL_MESSAGE_LENGTH) {
        OversizeRejects(msgs, m', bytes, HEADER_SIZE - m.nHdrPos);
        return false, 0;
      }
      handled := count;
      ChunkGrows(m, bytes[..handled]);
      FeedChunk(StreamOf(msgs), bytes[..handled]);
      Replaced(msgs, m');
      ok := true;
    }

    /** Takes in whatever arrived.  False means the peer is to be disconnected. */
    method ReceiveMsgBytes(bytes: seq<Byte>) returns (ok: bool, complete: bool)
      requires GoodList(vRecvMsg)
      modifies this
      ensures ok <==> !Feed(old(StreamOf(vRecvMsg)), bytes).failed
      ensures ok ==> GoodList(vRecvMsg) && StreamOf(vRecvMsg) == Feed(old(StreamOf(vRecvMsg)), bytes)
      ensures !ok ==> Rejects(old(vRecvMsg), bytes, vRecvMsg)
      ensures complete <==> |Feed(old(StreamOf(vRecvMsg)), bytes).done| > |old(StreamOf(vRecvMsg)).done|
    {
      hide Feed, StreamOf, GoodList, Rejects;
      ghost var s0 := StreamOf(vRecvMsg);
      complete := false;
      var k := 0;
      FeedNothing(s0);
      assert bytes[..0] == [];
      while k < |bytes|
        invariant k <= |bytes| && GoodList(vRecvMsg) && StreamOf(vRecvMsg) == Feed(s0, bytes[..k])
        invariant complete <==> |StreamOf(vRecvMsg).done| > |s0.done|
        invariant |StreamOf(vRecvMsg).done| >= |s0.done|
      {
        ghost var msgs := vRecvMsg;
        var handled;
        ok, handled := TakeChunk(bytes[k..]);
        assert bytes[..k] + bytes[k..] == bytes;
        FeedSplit(s0, bytes[..k], bytes[k..]);
        if !ok {
          RejectsLater(old(vRecvMsg), msgs, bytes, bytes[k..], vRecvMsg);
          return;
        }
        assert bytes[..k + handled] == bytes[..k] + bytes[k..][..handled];
        FeedSplit(s0, bytes[..k], bytes[k..][..handled]);
        k := k + handled;
        if vRecvMsg[|vRecvMsg| - 1].Complete() {
          complete := true;
        }
      }
      assert bytes[..k] == bytes;
      StreamIsAlive(vRecvMsg);
      ok := true;
    }
  }

  // ---- Sending ----

  function TotalSize(parts: seq<seq<Byte>>): nat { |Concat(parts)| }

  /** Every message has its twelve-byte command. */
  predicate Named(pushed: seq<Message>)
  {
    forall i | 0 <= i < |pushed| :: |pushed[i].command| == 12
  }

  /** The frames of the messages pushed. */
  function FramesFor(magic: seq<Byte>, pushed: seq<Message>, checksum: seq<Byte> -> seq<Byte>): (r: seq<seq<Byte>>)
    requires |magic| == 4 && Named(pushed)
    ensures |r| == |pushed|
  {
    seq(|pushed|, i requires 0 <= i < |pushed| => Frame(magic, pushed[i], checksum))
  }

  lemma ConcatOne(part: seq<Byte>)
    ensures Concat([part]) == part
  {
    assert [part][..0] == [];
  }

  lemma ConcatFirst(parts: seq<seq<Byte>>)
    requires parts != []
    ensures Concat(parts) == parts[0] + Concat(parts[1..])
  {
    assert parts == [parts[0]] + parts[1..];
    ConcatSplit([parts[0]], parts[1..]);
    ConcatOne(parts[0]);
  }

  predicate NoneEmpty(parts: seq<seq<Byte>>)
  {
    forall i | 0 <= i < |parts| :: parts[i] != []
  }

  /** The send queue: the buffers queued, how far the first is sent, and their total size.  What was
      sent and what is pending make up `stream`. */
  ghost predicate QueueOk(parts: seq<seq<Byte>>, offset: nat, size: nat, wire: seq<Byte>, stream: seq<Byte>)
  {
    && NoneEmpty(parts)
    && (if parts == [] then offset == 0 else offset < |parts[0]|)
    && size == TotalSize(parts) && offset <= size
    && wire + Concat(parts)[offset..] == stream
  }

  lemma SomeSent(parts: seq<seq<Byte>>, offset: nat, size: nat, wire: seq<Byte>, stream: seq<Byte>, n: nat)
    requires QueueOk(parts, offset, size, wire, stream) && parts != [] && n < |parts[0]| - offset
    ensures QueueOk(parts, offset + n, size, wire + parts[0][offset..offset + n], stream)
  {
    ConcatFirst(parts);
    hide Concat;
    var all := Concat(parts);
    assert all[offset..] == parts[0][offset..offset + n] + all[offset + n..];
    assert wire + parts[0][offset..offset + n] + all[offset + n..] == wire + all[offset..];
  }

  lemma AllSent(parts: seq<seq<Byte>>, offset: nat, size: nat, wire: seq<Byte>, stream: seq<Byte>)
    requires QueueOk(parts, offset, size, wire, stream) && parts != []
    ensures size >= |parts[0]| && QueueOk(parts[1..], 0, size - |parts[0]|, wire + parts[0][offset..], stream)
  {
    ConcatFirst(parts);
    hide Concat;
    var all, rest := Concat(parts), Concat(parts[1..]);
    assert all[offset..] == parts[0][offset..] + rest && rest[0..] == rest;
    assert wire + parts[0][offset..] + rest == wire + all[offset..];
  }

  lemma Queued(parts: seq<seq<Byte>>, more: seq<seq<Byte>>, offset: nat, size: nat, wire: seq<Byte>, stream: seq<Byte>)
    requires QueueOk(parts, offset, size, wire, stream) && more != [] && NoneEmpty(more)
    ensures QueueOk(parts + more, offset, size + TotalSize(more), wire, stream + Concat(more))
  {
    assert NoneEmpty(parts + more);
    hide Concat, NoneEmpty;
    ConcatSplit(parts, more);
    TailJoin(wire, Concat(parts), Concat(more), offset);
  }

  lemma TailJoin(wire: seq<Byte>, all: seq<Byte>, more: seq<Byte>, offset: nat)
    requires offset <= |all|
    ensures wire + (all + more)[offset..] == wire + all[offset..] + more
  {
    assert (all + more)[offset..] == all[offset..] + more;
  }

  lemma PushedFrames(magic: seq<Byte>, pushed: seq<Message>, m: Message, checksum: seq<Byte> -> seq<Byte>)
    requires |magic| == 4 && |m.command| == 12 && Named(pushed)
    ensures Concat(FramesFor(magic, pushed + [m], checksum)) ==
      Concat(FramesFor(magic, pushed, checksum)) + Frame(magic, m, checksum)
  {
    var frames := FramesFor(magic, pushed + [m], checksum);
    assert frames[..|pushed|] == FramesFor(magic, pushed, checksum);
  }

  /** What the socket does with a write. */
  datatype SendResult = Accepts(n: nat) | WouldBlock | Error

  /** How many bytes a socket that answers like this takes from the queue: whole buffers while it
      accepts them whole, then part of one. */
  function Taken(parts: seq<seq<Byte>>, offset: nat, results: seq<SendResult>): nat
    requires parts != [] ==> offset <= |parts[0]|
  {
    if parts == [] || results == [] || !results[0].Accepts? then 0
    else
      var want := |parts[0]| - offset;
      if results[0].n >= want then want + Taken(parts[1..], 0, results[1..]) else results[0].n
  }

  /** Whether a socket that answers like this fails before the queue is written out. */
  predicate Breaks(parts: seq<seq<Byte>>, offset: nat, results: seq<SendResult>)
    requires parts != [] ==> offset <= |parts[0]|
  {
    && parts != [] && results != []
    && (results[0].Error? || (results[0].Accepts? && results[0].n >= |parts[0]| - offset
      && Breaks(parts[1..], 0, results[1..])))
  }

  lemma TakenNext(parts: seq<seq<Byte>>, offset: nat, results: seq<SendResult>)
    requires parts != [] && offset < |parts[0]|
    ensures Breaks(parts, offset, results) <==>
            results != []
              && (results[0].Error? || (results[0].Accepts? && results[0].n >= |parts[0]| - offset
                && Breaks(parts[1..], 0, results[1..])))
    ensures Taken(parts, offset, results) ==
            if results == [] || !results[0].Accepts? then 0
            else if results[0].n >= |parts[0]| - offset then |parts[0]| - offset + Taken(parts[1..], 0, results[1..])
            else results[0].n
  {
  }

  lemma TakenNone(offset: nat, results: seq<SendResult>)
    ensures Taken([], offset, results) == 0 && !Breaks([], offset, results)
  {
  }

  /** The send side of a connection.  `wire` is what the socket has accepted so far. */
  class Sender {
    const magic: seq<Byte>
    const checksum: seq<Byte> -> seq<Byte>
    const nSendBufferMaxSize: nat
    var vSendMsg: seq<seq<Byte>>
    var nSendOffset: nat
    var nSendSize: nat
    var fPauseSend: bool
    var open: bool
    ghost var wire: seq<Byte>
    ghost var pushed: seq<Message>

    constructor (magic: seq<Byte>, checksum: seq<Byte> -> seq<Byte>, maxSize: nat)
      requires |magic| == 4
      ensures Valid() && wire == [] && pushed == [] && open
      ensures this.magic == magic && this.checksum == checksum
    {
      this.magic, this.checksum, nSendBufferMaxSize := magic, checksum, maxSize;
      vSendMsg, nSendOffset, nSendSize, fPauseSend, open, wire, pushed := [], 0, 0, false, true, [], [];
    }

    ghost predicate Addressed()
      reads this
    {
      |magic| == 4 && Named(pushed)
    }

    /** The frames of all messages pushed, one after another. */
    ghost function Stream(): seq<Byte>
      requires Addressed()
      reads this
    {
      Concat(FramesFor(magic, pushed, checksum))
    }

    ghost predicate Valid()
      reads this
    {
      && Addressed() && QueueOk(vSendMsg, nSendOffset, nSendSize, wire, Stream())
      && (fPauseSend <==> nSendSize > nSendBufferMaxSize)
    }

    /** Writes queued buffers until the socket takes no more.  `results` is what the socket does with
        each write in turn. */
    method SocketSendData(results: seq<SendResult>) returns (nSentSize: nat)
      requires Valid()
      modifies this
      ensures Valid() && pushed == old(pushed) && old(wire) <= wire && |wire| == |old(wire)| + nSentSize
      ensures old(vSendMsg != [] ==> nSendOffset <= |vSendMsg[0]|)
      ensures nSentSize == if old(open) then old(Taken(vSendMsg, nSendOffset, results)) else 0
      ensures open <==> old(open && !Breaks(vSendMsg, nSendOffset, results))
    {
      hide QueueOk, Taken, Breaks, Concat, FramesFor, Named;
      nSentSize := 0;
      var it := 0;
      FirstFits(vSendMsg, nSendOffset, nSendSize, wire, Stream());
      ghost var total := if open then Taken(vSendMsg, nSendOffset, results) else 0;
      ghost var breaks := Breaks(vSendMsg, nSendOffset, results);
      var rs := results;
      assert vSendMsg[0..] == vSendMsg;
      ghost var stream := Stream();
      while it < |vSendMsg|
        invariant it <= |vSendMsg| && pushed == old(pushed) && Addressed() && Stream() == stream
        invariant QueueOk(vSendMsg[it..], nSendOffset, nSendSize, wire, stream)
        invariant fPauseSend <==> nSendSize > nSendBufferMaxSize
        invariant old(wire) <= wire && |wire| == |old(wire)| + nSentSize
        invariant it < |vSendMsg| ==> nSendOffset <= |vSendMsg[it]|
        invariant open == old(open) && total == nSentSize + if open then Taken(vSendMsg[it..], nSendOffset, rs) else 0
        invariant breaks == Breaks(vSendMsg[it..], nSendOffset, rs)
      {
        var data := vSendMsg[it];
        FirstPart(vSendMsg[it..], nSendOffset, nSendSize, wire, stream);
        assert vSendMsg[it..][0] == data;
        TakenNext(vSendMsg[it..], nSendOffset, rs);
        if !open {
          break;
        }
        var result := if rs != [] then rs[0] else WouldBlock;
        if result.Error? {
          open := false;
          break;
        }
        var nBytes := if result.Accepts? then Min(result.n, |data| - nSendOffset) else 0;
        if nBytes == 0 {
          break;
        }
        nSentSize := nSentSize + nBytes;
        if nSendOffset + nBytes == |data| {
          AllSent(vSendMsg[it..], nSendOffset, nSendSize, wire, stream);
          assert vSendMsg[it..][1..] == vSendMsg[it + 1..];
          wire := wire + data[nSendOffset..];
          nSendOffset := 0;
          nSendSize := nSendSize - |data|;
          fPauseSend := nSendSize > nSendBufferMaxSize;
          it := it + 1;
          rs := rs[1..];
          FirstFits(vSendMsg[it..], nSendOffset, nSendSize, wire, stream);
        } else {
          SomeSent(vSendMsg[it..], nSendOffset, nSendSize, wire, stream, nBytes);
          wire := wire + data[nSendOffset..nSendOffset + nBytes];
          nSendOffset := nSendOffset + nBytes;
          break;
        }
      }
      if it == |vSendMsg| {
        assert vSendMsg[it..] == [];
        TakenNone(nSendOffset, rs);
        assert nSendOffset == 0 && nSendSize == 0 by {
          NothingQueued(nSendOffset, nSendSize, wire, stream);
        }
      }
      vSendMsg := vSendMsg[it..];
    }

    /** Queues a message; writes at once only if nothing is ahead of it. */
    method PushMessage(m: Message, results: seq<SendResult>)
      requires Valid() && |m.command| == 12
      modifies this
      ensures Valid() && pushed == old(pushed) + [m] && old(wire) <= wire
      ensures old(vSendMsg) != [] ==> wire == old(wire) && open == old(open)
    {
      hide QueueOk, Concat;
      var optimistic := vSendMsg == [];
      var header := Header(magic, m, checksum);
      var parts := [header];
      if m.data != [] {
        parts := parts + [m.data];
      }
      PartsOf(header, m.data, parts);
      assert NoneEmpty(parts);
      Queued(vSendMsg, parts, nSendOffset, nSendSize, wire, Stream());
      PushedFrames(magic, pushed, m, checksum);
      nSendSize := nSendSize + |m.data| + HEADER_SIZE;
      if nSendSize > nSendBufferMaxSize {
        fPauseSend := true;
      }
      vSendMsg := vSendMsg + parts;
      pushed := pushed + [m];
      if optimistic {
        var _ := SocketSendData(results);
      }
    }
  }

  lemma FirstFits(parts: seq<seq<Byte>>, offset: nat, size: nat, wire: seq<Byte>, stream: seq<Byte>)
    requires QueueOk(parts, offset, size, wire, stream)
    ensures parts != [] ==> offset < |parts[0]|
  {
  }

  lemma FirstPart(parts: seq<seq<Byte>>, offset: nat, size: nat, wire: seq<Byte>, stream: seq<Byte>)
    requires QueueOk(parts, offset, size, wire, stream) && parts != []
    ensures offset < |parts[0]|
  {
  }

  lemma NothingQueued(offset: nat, size: nat, wire: seq<Byte>, stream: seq<Byte>)
    requires QueueOk([], offset, size, wire, stream)
    ensures offset == 0 && size == 0 && wire == stream
  {
    assert wire + [] == wire;
  }

  lemma PartsOf(header: seq<Byte>, data: seq<Byte>, parts: seq<seq<Byte>>)
    requires parts == if data == [] then [header] else [header] + [data]
    ensures Concat(parts) == header + data
  {
    ConcatOne(header);
    ConcatOne(data);
    ConcatSplit([header], [data]);
    assert header + [] == header;
  }

  // ---- End to end ----

  /** However the sender's writes and the receiver's reads are cut up: once the receiver has taken in
      some first part of what the socket accepted, it has not failed, and the messages it has
      completed are the first of those pushed, all whose frames have arrived. */
  lemma Delivered(magic: seq<Byte>, pushed: seq<Message>, checksum: seq<Byte> -> seq<Byte>, received: seq<Byte>)
    returns (j: nat)
    requires |magic| == 4 && Named(pushed) && forall i | 0 <= i < |pushed| :: GoodMessage(pushed[i])
    requires received <= Concat(FramesFor(magic, pushed, checksum))
    ensures j <= |pushed| && !Feed(START, received).failed
    ensures Feed(START, received).done == FramesFor(magic, pushed, checksum)[..j]
    ensures forall i | 0 <= i < j :: Carries(Feed(START, received).done[i], pushed[i])
    ensures received == Concat(FramesFor(magic, pushed, checksum)) ==> j == |pushed|
  {
    var frames := FramesFor(magic, pushed, checksum);
    FramesCarry(magic, pushed, checksum);
    hide FramesFor, Feed, Concat, AllGood, Carries;
    j := FeedPart(frames, |received|);
    assert received == Concat(frames)[..|received|];
    if j < |frames| {
      ConcatPrefix(frames, j + 1);
    }
  }

  /** With an oversized message among those pushed: the messages before it are delivered as ever, and once
      its header has arrived the receiver fails, with exactly those messages completed. */
  lemma DeliveredUntil(magic: seq<Byte>, pushed: seq<Message>, checksum: seq<Byte> -> seq<Byte>, received: seq<Byte>,
    k: nat)
    returns (j: nat)
    requires |magic| == 4 && Named(pushed) && k < |pushed| && forall i | 0 <= i < k :: GoodMessage(pushed[i])
    requires MAX_PROTOCOL_MESSAGE_LENGTH < |pushed[k].data| < 0x1_0000_0000
    requires received <= Concat(FramesFor(magic, pushed, checksum))
    ensures j <= k && Feed(START, received).done == FramesFor(magic, pushed, checksum)[..j]
    ensures forall i | 0 <= i < j :: Carries(Feed(START, received).done[i], pushed[i])
    ensures Feed(START, received).failed <==>
      |received| >= |Concat(FramesFor(magic, pushed, checksum)[..k])| + HEADER_SIZE
    ensures |received| >= |Concat(FramesFor(magic, pushed, checksum)[..k])| ==> j == k
  {
    hide FramesFor, Feed, Concat, AllGood, Carries, Frame, SizeOf, Settle;
    var frames, before := FramesFor(magic, pushed, checksum), FramesFor(magic, pushed[..k], checksum);
    FramesForPrefix(magic, pushed, checksum, k);
    assert frames == frames[..k] + frames[k..];
    ConcatSplit(frames[..k], frames[k..]);
    var sent, first := Concat(frames), Concat(before);
    if |received| <= |first| {
      assert received == sent[..|received|] == first[..|received|];
      j := Delivered(magic, pushed[..k], checksum, received);
    } else {
      j := k;
      FramesCarry(magic, pushed[..k], checksum);
      FeedFrames(before);
      var c := received[|first|..];
      assert received == first + c by {
        assert received == sent[..|received|] && received[..|first|] == sent[..|first|] == first;
      }
      FeedSplit(START, first, c);
      var rest := Concat(frames[k..]);
      ConcatFirst(frames[k..]);
      assert frames[k..][0] == frames[k] && frames[k] <= rest;
      assert c == sent[|first|..|received|] == rest[..|c|];
      OversizedArrives(Stream(before, [], false), frames[k], c, rest);
    }
  }

  lemma FramesForPrefix(magic: seq<Byte>, pushed: seq<Message>, checksum: seq<Byte> -> seq<Byte>, k: nat)
    requires |magic| == 4 && Named(pushed) && k < |pushed| && |pushed[k].data| < 0x1_0000_0000
    ensures FramesFor(magic, pushed, checksum)[..k] == FramesFor(magic, pushed[..k], checksum)
    ensures var frame := FramesFor(magic, pushed, checksum)[k];
      |frame| == HEADER_SIZE + |pushed[k].data| && SizeOf(frame[..HEADER_SIZE]) == |pushed[k].data|
  {
    hide Frame, SizeOf;
    FrameAnnounces(magic, pushed[k], checksum);
  }

  lemma OversizedArrives(s: Stream, frame: seq<Byte>, c: seq<Byte>, rest: seq<Byte>)
    requires !s.failed && s.partial == [] && |frame| >= HEADER_SIZE
    requires SizeOf(frame[..HEADER_SIZE]) > MAX_PROTOCOL_MESSAGE_LENGTH
    requires c <= rest && frame <= rest
    ensures Feed(s, c).done == s.done && (Feed(s, c).failed <==> |c| >= HEADER_SIZE)
  {
    hide Feed, SizeOf;
    assert [] + c == c;
    if |c| < HEADER_SIZE {
      FeedGrowing(s, c);
    } else {
      assert c[..HEADER_SIZE] == rest[..HEADER_SIZE] == frame[..HEADER_SIZE];
      assert s.partial + c[..HEADER_SIZE] == c[..HEADER_SIZE] && c[..HEADER_SIZE][..HEADER_SIZE] == c[..HEADER_SIZE];
      OversizeFails(s, c, HEADER_SIZE);
    }
  }

  lemma ConcatPrefix(parts: seq<seq<Byte>>, j: nat)
    requires j <= |parts|
    ensures |Concat(parts[..j])| <= |Concat(parts)|
  {
    hide Concat;
    assert parts == parts[..j] + parts[j..];
    ConcatSplit(parts[..j], parts[j..]);
  }

  /** The frame holds the message. */
  predicate Carries(frame: seq<Byte>, m: Message)
  {
    GoodFrame(frame) && MessageOf(frame) == m
  }

  lemma FramesCarry(magic: seq<Byte>, pushed: seq<Message>, checksum: seq<Byte> -> seq<Byte>)
    requires |magic| == 4 && Named(pushed) && forall i | 0 <= i < |pushed| :: GoodMessage(pushed[i])
    ensures AllGood(FramesFor(magic, pushed, checksum))
    ensures forall i | 0 <= i < |pushed| :: Carries(FramesFor(magic, pushed, checksum)[i], pushed[i])
  {
    hide Frame;
    var frames := FramesFor(magic, pushed, checksum);
    forall i | 0 <= i < |pushed| ensures GoodFrame(frames[i]) && Carries(frames[i], pushed[i]) {
      FrameGood(magic, pushed[i], checksum);
    }
  }
}
