/** `TransLayer`: framed spans into the send buffer, bytes of the collector out of the receive
    buffer, and the reset that starts every connection on a frame boundary. */
module TransLayer {
  import opened Bytes
  import opened Framing
  import opened SendPipe
  import opened Chunk
  import opened Connection

  /** One connection to the collector agent, reopened as often as it breaks. */
  class TransLayer {
    const chunks: Chunks
    const pipe: Pipe
    var reading: bool
    var error: bool
    var fd: int

    const inBuf: array<byte>
    var inSize: nat
    const routes: set<int>
    /** What a handler answers; it may depend on every call so far, the last one included. */
    const verdict: seq<Msg> -> bool
    var calls: seq<Msg>

    /** An observer's record. Spans accepted since the last reset. */
    var accepted: seq<Bytes>
    /** Bytes written on each closed connection, and the spans it was meant to carry. */
    var history: seq<(Bytes, seq<Bytes>)>
    /** Bytes received on this connection, and the calls made before it. */
    var received: Bytes
    var callsBefore: seq<Msg>

    ghost predicate BufferValid()
      reads this, chunks
    {
      && chunks.Valid() && chunks.Trimmed()
      && chunks.maxSize == CHUNK_MAX_SIZE && chunks.residentSize == CHUNK_HOLD_SIZE
      && chunks.allocSize <= ALLOC_BOUND
      && AllSpannable(accepted)
      && HistoryOk(history)
    }

    ghost predicate SendValid()
      reads this, chunks, pipe
    {
      && BufferValid()
      && pipe.wire + chunks.Pending() == Stream(accepted)
      && (fd == -1 ==> pipe.wire == [])
      && (fd != -1 ==> reading && error)
      && (chunks.Pending() != [] ==> pipe.writing)
    }

    /** The connection as a value. */
    function View(): (c: Conn)
      requires chunks.Valid()
      reads this, chunks, pipe
    {
      Conn(fd, pipe.writing, Sizes(chunks.ready), pipe.wire, accepted, history, received, callsBefore, calls)
    }

    lemma ViewOk()
      requires SendValid()
      ensures View().Ok() && (View().sizes == [] ==> chunks.allocSize <= CHUNK_HOLD_SIZE)
    {
      hide Stream;
      chunks.SizesPositive();
      SizesInCapacity(chunks.ready);
    }

    /** Every span ever accepted. */
    ghost function Taken(): (r: seq<Bytes>)
      reads this
    {
      AllSpans(history, accepted)
    }

    /** The receive buffer holds what the one-pass parser leaves over, and the calls are its messages'. */
    ghost predicate RecvValid()
      reads this, inBuf
    {
      && inBuf.Length == IN_MSG_BUF_SIZE && inSize < IN_MSG_BUF_SIZE
      && var p := Parse(received, BODY_LIMIT);
      && inBuf[..inSize] == p.rest
      && Heard(callsBefore, received, routes, verdict) == Calls(calls, true)
    }

    ghost predicate Valid()
      reads this, chunks, pipe, inBuf
    {
      SendValid() && RecvValid()
    }

    constructor (routes: set<int>, verdict: seq<Msg> -> bool)
      ensures Valid() && fresh(chunks) && fresh(pipe) && fresh(inBuf)
      ensures accepted == [] && history == [] && fd == -1 && calls == [] && received == [] && callsBefore == []
      ensures this.routes == routes && this.verdict == verdict && chunks.allocSize == 0 && View() == NEW_CONN
    {
      chunks := new Chunks(CHUNK_MAX_SIZE, CHUNK_HOLD_SIZE);
      pipe := new Pipe();
      inBuf := new byte[IN_MSG_BUF_SIZE](_ => 0);
      reading, error, fd, inSize := false, false, -1, 0;
      this.routes, this.verdict, calls := routes, verdict, [];
      accepted, received, callsBefore, history := [], [], [], [];
    }

    /** `copy_into_send_buffer`: the whole frame is queued, or nothing changes. */
    method CopyIntoSendBuffer(data: Bytes) returns (ok: bool)
      requires Valid() && Spannable(data)
      modifies this`accepted, chunks, pipe`writing
      ensures Valid()
      ensures accepted == if ok then old(accepted) + [data] else old(accepted)
      ensures Taken() == if ok then old(Taken()) + [data] else old(Taken())
      ensures !ok ==> chunks.Pending() == old(chunks.Pending()) && chunks.allocSize == old(chunks.allocSize)
      ensures ok ==> View() == old(View()).(accepted := accepted, writing := true, sizes := View().sizes)
      ensures !ok ==> View() == old(View())
      ensures ok <==> old(chunks.Fits(HEADER_SIZE + |data|))
      ensures chunks.allocSize <= old(chunks.allocSize) + FrameLoad(data)
    {
      hide Parse, Dispatch, Stream, Contents, Capacity, Frame, Chunks.Valid;
      ok := chunks.CheckCapacity(HEADER_SIZE + |data|);
      if !ok {
        return;
      }
      StreamSnoc(accepted, data);
      AllSpansSnoc(history, accepted, data);
      Assoc(pipe.wire, chunks.Pending(), Frame(Msg(REQ_UPDATE_SPAN, data)));
      QueueFrame(data);
      pipe.writing := true;
      accepted := accepted + [data];
    }

    /** Header and body go in one after the other; the checked capacity keeps every allocation small. */
    method QueueFrame(data: Bytes)
      requires chunks.Valid() && chunks.Trimmed() && chunks.allocSize <= ALLOC_BOUND && Spannable(data)
      requires HEADER_SIZE + |data| <= chunks.Avail() || chunks.allocSize + HEADER_SIZE + |data| <= CHUNK_MAX_SIZE
      modifies chunks
      ensures chunks.Valid() && chunks.Trimmed() && chunks.allocSize <= ALLOC_BOUND
      ensures chunks.allocSize <= old(chunks.allocSize) + FrameLoad(data)
      ensures chunks.Pending() == old(chunks.Pending()) + Frame(Msg(REQ_UPDATE_SPAN, data))
    {
      hide Contents, Capacity;
      chunks.RoomIsAllocated();
      var header := Header(REQ_UPDATE_SPAN, |data|);
      Assoc(chunks.Pending(), header, data);
      var _ := chunks.CopyDataIntoChunks(header);
      var _ := chunks.CopyDataIntoChunks(data);
    }

    /** `_reset_remote`: whatever was cut off goes with the old connection. */
    method ResetRemote()
      requires BufferValid() && inBuf.Length == IN_MSG_BUF_SIZE
      requires pipe.wire <= Stream(accepted)
      modifies this, chunks, pipe
      ensures Valid() && fd == -1 && chunks.Pending() == [] && accepted == [] && calls == old(calls)
      ensures received == [] && callsBefore == calls && pipe.wire == [] && chunks.allocSize <= old(chunks.allocSize)
      ensures old(fd) != -1 ==> View() == AfterReset(old(View()), NotTried)
      ensures if old(fd) == -1 then history == old(history) && pipe.writing == old(pipe.writing)
              else history == old(history) + [(old(pipe.wire), old(accepted))] && !pipe.writing && !reading && !error
    {
      hide Parse, Stream, Contents, Capacity, Heard, Emptied, HistoryOk, Chunks.Valid;
      HeardNothing(calls, routes, verdict);
      StreamEmpty();
      inSize := 0;
      if fd != -1 {
        CloseSocket();
      }
      pipe.wire := [];
      accepted, received, callsBefore := [], [], calls;
      chunks.ResetChunks();
    }

    /** The part of `_reset_remote` for an open descriptor. */
    method CloseSocket()
      requires HistoryOk(history) && AllSpannable(accepted) && pipe.wire <= Stream(accepted)
      modifies this`history, this`fd, this`reading, this`error, pipe`writing
      ensures fd == -1 && !reading && !error && !pipe.writing
      ensures HistoryOk(history) && history == old(history) + [(pipe.wire, accepted)]
    {
      hide Stream, HistoryOk;
      HistorySnoc(history, pipe.wire, accepted);
      history := history + [(pipe.wire, accepted)];
      fd := -1;
      reading, error, pipe.writing := false, false, false;
    }

    /** `connect_remote`, which only runs without a descriptor. */
    method ConnectRemote(attempt: Connect)
      requires Valid() && fd == -1
      modifies this`fd, this`reading, this`error, pipe`writing
      ensures Valid()
      ensures View() == Connected(old(View()), attempt)
      ensures reading == (old(reading) || attempt.Tried?) && error == (old(error) || attempt.Tried?)
    {
      hide Parse, Dispatch, Stream, Contents, Capacity, Chunks.Valid;
      if attempt.Tried? {
        fd := attempt.fd;
        reading, error, pipe.writing := true, true, true;
      }
    }

    /** `_send_msg_to_collector`. After an error the caller resets the connection. */
    method SendMsgToCollector(replies: seq<SendReply>) returns (ret: int)
      requires Valid() && fd != -1
      modifies chunks, pipe
      ensures old(View()).Ok() && ret == if Drain(replies, 0, old(View()).sizes).status == Broken then -1 else 0
      ensures ret == 0 ==> Valid() && View() == AfterWrite(old(View()), replies)
      ensures ret == -1 ==>
                BufferValid() && pipe.wire <= Stream(accepted) && pipe.wire == AfterWrite(old(View()), replies).wire
      ensures chunks.allocSize <= old(chunks.allocSize)
    {
      hide Parse, Dispatch, Stream, Contents, Sizes, Drain, Unsent;
      ViewOk();
      pipe.script, pipe.pos := replies, 0;
      ghost var wire, pending := pipe.wire, chunks.Pending();
      ghost var sent := Drain(replies, 0, Sizes(chunks.ready)).sent;
      ret := chunks.DrainOutWithPipe(pipe);
      TakeThenDrop(wire, pending, sent);
      assert Stream(accepted)[..|wire| + sent] == wire + pending[..sent];
    }

    /** `HandleMsgStream`: the offset of the first byte not consumed, or -1 for an oversized length
        or a failing handler. */
    method HandleMsgStream(buf: Bytes) returns (ret: int)
      modifies this`calls
      ensures (calls, ret) == Walk(buf, 0, old(calls), routes, verdict)
    {
      var offset := 0;
      while |buf| - offset >= HEADER_SIZE
        invariant 0 <= offset <= |buf|
        invariant Walk(buf, offset, calls, routes, verdict) == Walk(buf, 0, old(calls), routes, verdict)
      {
        var bodyLen := GetBE32(buf, offset + 4);
        if bodyLen > BODY_LIMIT {
          return -1;
        }
        var frameSize := HEADER_SIZE + bodyLen;
        if frameSize > |buf| - offset {
          return offset;
        }
        var m := Msg(GetBE32(buf, offset), buf[offset + HEADER_SIZE..offset + frameSize]);
        if AsInt32(m.kind) in routes {
          calls := calls + [m];
          if !verdict(calls) {
            return -1;
          }
        }
        offset := offset + frameSize;
      }
      return offset;
    }

    /** `recvByteStream` on a burst of bytes that arrives in pieces: the calls and the outcome depend
        on the bytes only. The exit for a full buffer is never taken: `inSize` stays below the buffer size. */
    method RecvByteStream(incoming: Bytes, cuts: seq<nat>, end: RecvEnd) returns (ret: int)
      requires RecvValid()
      modifies this`calls, this`inSize, this`received, inBuf
      ensures ret == 0 || ret == -1
      ensures var h := Heard(callsBefore, old(received) + incoming, routes, verdict);
              calls == h.log && (ret == 0 <==> h.ok && end == Drained)
      ensures ret == 0 ==> RecvValid() && received == old(received) + incoming
    {
      hide Parse, Dispatch, Walk, Heard;
      var at, i := 0, 0;
      assert incoming[..0] == [];
      while inSize < IN_MSG_BUF_SIZE
        invariant at <= |incoming| && RecvValid() && received == old(received) + incoming[..at]
        decreases |incoming| - at
      {
        if at == |incoming| {
          assert incoming[..at] == incoming;
          return if end == Drained then 0 else -1;
        }
        var n := PieceSize(cuts, i, IN_MSG_BUF_SIZE - inSize, |incoming| - at);
        var piece := incoming[at..at + n];
        TakeMore(old(received), incoming, at, at + n);
        ret := RecvPiece(piece);
        at, i := at + n, i + 1;
        if ret < 0 {
          HeardNoMore(callsBefore, received, incoming[at..], routes, verdict);
          TakeThenDrop(old(received), incoming, at);
          return;
        }
      }
      ret := -1;
    }

    /** One `recv` that yields `piece`, the pass over the buffer, and the move of the leftover to the front. */
    method RecvPiece(piece: Bytes) returns (ret: int)
      requires RecvValid() && 0 < |piece| <= IN_MSG_BUF_SIZE - inSize
      modifies this`calls, this`inSize, this`received, inBuf
      ensures ret == 0 || ret == -1
      ensures received == old(received) + piece
      ensures Heard(callsBefore, received, routes, verdict) == Calls(calls, ret == 0)
      ensures ret == 0 ==> RecvValid()
    {
      hide Parse, Dispatch, Walk, Heard;
      PassIsWholeStream(received, piece, callsBefore, calls, routes, verdict);
      var total := |piece| + inSize;
      Fill(inBuf, inSize, piece);
      assert inBuf[..total] == old(inBuf[..inSize]) + piece by {
        assert old(inBuf[0..inSize]) == old(inBuf[..inSize]) && inBuf[0..total] == inBuf[..total];
      }
      received := received + piece;
      var offset := HandleMsgStream(inBuf[..total]);
      if offset < 0 {
        return -1;
      } else if offset < total {
        inSize := total - offset;
        Compact(inBuf, offset, total);
        assert inBuf[0..inSize] == inBuf[..inSize];
      } else {
        inSize := 0;
      }
      ret := 0;
    }

    /** The read and the write event of `PoolEventOnce`. After an error the caller resets the connection. */
    method HandleEvents(select: Select) returns (failed: bool)
      requires Valid() && 0 <= fd < FD_SETSIZE && select.Selected?
      modifies this`calls, this`inSize, this`received, inBuf, chunks, pipe
      ensures old(View()).Ok()
      ensures var out := Expected(old(View()), select, routes, verdict); if failed then out.Closed? else out.Handled?
      ensures failed <==> Fatal(old(View()), old(pipe.writing), select, routes, verdict)
      ensures failed ==> BufferValid() && pipe.wire <= Stream(accepted)
      ensures !failed ==> Valid() && View() == AfterEvents(old(View()), select, routes, verdict)
      ensures var after := AfterEvents(old(View()), select, routes, verdict); calls == after.calls && pipe.wire == after.wire
      ensures chunks.allocSize <= old(chunks.allocSize)
    {
      hide Parse, Dispatch, Stream, Contents, Capacity, Heard, Drain, Sizes, Chunks.Valid, AfterWrite, Conn.Ok;
      ViewOk();
      ghost var c := View();
      if select.except && error {
        return true;
      }
      if select.readable && reading {
        var r := RecvByteStream(select.incoming, select.cuts, select.end);
        if r == -1 {
          return true;
        }
        assert View() == AfterRead(c, select, routes, verdict);
      }
      failed := false;
      if select.writable && pipe.writing {
        var r := SendMsgToCollector(select.replies);
        failed := r == -1;
      }
    }

    /** `PoolEventOnce` once there is a descriptor. */
    method PollConnected(select: Select, again: Connect) returns (ret: int)
      requires Valid() && fd != -1
      modifies this, chunks, pipe, inBuf
      ensures Valid() && chunks.allocSize <= old(chunks.allocSize)
      ensures old(View()).Ok() && View() == AfterSelect(old(View()), select, again, routes, verdict)
      ensures ret == if Expected(old(View()), select, routes, verdict).Handled? then 0 else -1
    {
      hide Parse, Dispatch, Stream, Contents, Capacity, Heard, Drain, Sizes, HistoryOk, Chunks.Valid;
      hide Expected, AfterEvents, Conn.Ok;
      ViewOk();
      ghost var c := View();
      ByDescriptor(c, select, routes, verdict);
      if fd < 0 || fd >= FD_SETSIZE {
        ResetRemote();
        return -1;
      }
      if select.SelectFailed? {
        return -1;
      }
      var failed := HandleEvents(select);
      if failed {
        assert AfterReset(View(), NotTried) == AfterReset(AfterEvents(c, select, routes, verdict), NotTried);
        ResetRemote();
        ConnectRemote(again);
        return -1;
      }
      return 0;
    }

    /** `PoolEventOnce`. */
    method PoolEventOnce(poll: Poll) returns (ret: int)
      requires Valid()
      modifies this, chunks, pipe, inBuf
      ensures Valid() && Taken() == old(Taken()) && chunks.allocSize <= old(chunks.allocSize)
      ensures old(View()).Ok() && View() == AfterPoll(old(View()), poll, routes, verdict)
      ensures ret == if Expected(Connected(old(View()), poll.first), poll.select, routes, verdict).Handled? then 0 else -1
      ensures var connects := old(fd) == -1 && poll.first.Tried?;
              PollTells(old(View()), if connects then poll.first.fd else old(fd), connects || old(pipe.writing),
                        poll.select, poll.again, View(), ret, routes, verdict)
    {
      hide Parse, Dispatch, Stream, Contents, Capacity, Heard, Drain, Sizes, HistoryOk, AllSpans, Chunks.Valid;
      hide AfterSelect, PollTells;
      ViewOk();
      PollEffect(View(), poll, routes, verdict);
      PollKeepsTaken(View(), poll, routes, verdict);
      if fd == -1 {
        ConnectRemote(poll.first);
        if fd == -1 {
          NoDescriptor(View(), poll.select, poll.again, routes, verdict);
          return -1;
        }
      }
      ret := PollConnected(poll.select, poll.again);
    }

    /** `SyncSendAll`: poll while there is something to write, a bounded number of times. */
    method SyncSendAll(polls: seq<Poll>) returns (used: nat)
      requires Valid()
      modifies this, chunks, pipe, inBuf
      ensures Valid() && Taken() == old(Taken()) && chunks.allocSize <= old(chunks.allocSize)
      ensures old(View()).Ok() && View() == AfterPolls(old(View()), polls, 0, routes, verdict)
      ensures used <= MAX_RETRY_ITEMS && used <= |polls|
      ensures used < MAX_RETRY_ITEMS && used < |polls| ==> !pipe.writing && chunks.Pending() == []
    {
      hide Contents, Capacity, Sizes, Drain, Stream, Heard, AllSpans, HistoryOk, AfterPoll, AfterSelect, Conn.Ok;
      ViewOk();
      used := 0;
      while pipe.writing && used < MAX_RETRY_ITEMS && used < |polls|
        invariant Valid() && Taken() == old(Taken()) && chunks.allocSize <= old(chunks.allocSize)
        invariant old(View()).Ok() && View().Ok() && used <= MAX_RETRY_ITEMS && used <= |polls|
        invariant AfterPolls(View(), polls, used, routes, verdict) == AfterPolls(old(View()), polls, 0, routes, verdict)
      {
        var _ := PoolEventOnce(polls[used]);
        used := used + 1;
      }
    }
  }
}
