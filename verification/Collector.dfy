/** The collector's side of a connection: `Server.handleClient` reassembling packets in a fixed
    buffer, and `Server.respToClient` writing one. */
module Collector {
  import opened Bytes
  import opened Framing

  /** Buffer sizes the 32-bit offsets of the source can express. */
  const MAX_RECV_BUF: nat := TWO_31 - HEADER_SIZE - 1

  /** `matchFullPacket`: the size of the packet at `start`, or 0 with the number of bytes missing
      (0 missing: the packet is refused). */
  method MatchFullPacket(buffer: Bytes, start: nat, total: nat, recvBufSize: nat)
    returns (token: nat, needs: nat, packet: Msg)
    requires start + total <= |buffer| <= recvBufSize <= MAX_RECV_BUF
    ensures var s := buffer[start..start + total];
            match FirstMsg(s, recvBufSize)
            case TooLong => token == 0 && needs == 0
            case Short => token == 0 && needs == Wanted(s) - total > 0
            case Whole(m) => token == HEADER_SIZE + |m.body| && packet == m
  {
    packet := Msg(0, []);
    if total < HEADER_SIZE {
      return 0, HEADER_SIZE - total, packet;
    }
    var s := buffer[start..start + total];
    var kind, bodyLen := GetBE32(s, 0), GetBE32(s, 4);
    if bodyLen > recvBufSize {
      return 0, 0, packet;
    }
    if total < bodyLen + HEADER_SIZE {
      return 0, bodyLen + HEADER_SIZE - total, packet;
    }
    assert s[HEADER_SIZE..HEADER_SIZE + bodyLen] == buffer[start + HEADER_SIZE..start + HEADER_SIZE + bodyLen];
    return bodyLen + HEADER_SIZE, 0, Msg(kind, buffer[start + HEADER_SIZE..start + HEADER_SIZE + bodyLen]);
  }

  /** Why the read loop ended. */
  datatype Stop =
    | EndOfInput
    | Oversized        // the announced body exceeds the buffer size
    | Overlap          // more than half the buffer is missing, and it does not fit behind what is there
    | EmptyRead        // the buffer is full, so the read slice is empty and reads as a close
    | Refused          // `parsePacket` returned an error

  /** The packet the tail of a stream has started: its size as far as it is known. */
  ghost function Wanted(rest: Bytes): (n: nat) {
    if |rest| < HEADER_SIZE then HEADER_SIZE else HEADER_SIZE + GetBE32(rest, 4)
  }

  /** Where the loop is, in positions of the stream: the buffer starts at `base`, the first packet not taken
      at `at`, and everything before `read` has been read. `k` packets had been taken when the buffer started there. */
  datatype Pos = Pos(base: nat, at: nat, read: nat, k: nat, done: seq<Msg>)

  const START: Pos := Pos(0, 0, 0, 0, [])

  ghost predicate InBuffer(input: Bytes, size: nat, c: Pos) {
    c.base <= c.at <= c.read <= |input| && c.read - c.base <= size && c.k <= |c.done|
  }

  /** What becomes of the packets in the buffer. */
  datatype Turn = Stopped(done: seq<Msg>, stop: Stop) | GoOn(pos: Pos)

  /** From `ParseAgain` on: take every whole packet, then decide how to go on reading. */
  ghost function TakeAll(input: Bytes, size: nat, accept: seq<Msg> -> bool, c: Pos): (t: Turn)
    requires InBuffer(input, size, c)
    ensures t.GoOn? ==> InBuffer(input, size, t.pos) && t.pos.read == c.read
    ensures t.Stopped? ==> t.stop != EndOfInput && t.stop != EmptyRead
    decreases c.read - c.at
  {
    var s := input[c.at..c.read];
    match FirstMsg(s, size)
    case TooLong => Stopped(c.done, Oversized)
    case Short => Decide(size, c, Wanted(s) - |s|)
    case Whole(m) =>
      var done, at := c.done + [m], c.at + HEADER_SIZE + |m.body|;
      if !accept(done) then Stopped(done, Refused)
      else if at == c.read then GoOn(Pos(at, at, at, |done|, done))
      else TakeAll(input, size, accept, c.(at := at, done := done))
  }

  /** With `needs` bytes missing: read on, move the started packet to the front, or give up. */
  ghost function Decide(size: nat, c: Pos, needs: int): (t: Turn)
    requires c.base <= c.read
  {
    if needs <= size - (c.read - c.base) then GoOn(c)
    else if needs > size / 2 then Stopped(c.done, Overlap)
    else GoOn(c.(base := c.at, k := |c.done|))
  }

  datatype Outcome = Outcome(dispatched: seq<Msg>, stop: Stop, read: nat)

  /** The whole loop, on an input that arrives in pieces of the given sizes. */
  ghost function Serve(input: Bytes, cuts: seq<nat>, size: nat, accept: seq<Msg> -> bool, c: Pos): (o: Outcome)
    requires InBuffer(input, size, c)
    decreases |input| - c.read
  {
    if c.read - c.base == size then Outcome(c.done, EmptyRead, c.read)
    else if c.read == |input| then Outcome(c.done, EndOfInput, c.read)
    else
      var n := PieceSize(cuts, 0, size - (c.read - c.base), |input| - c.read);
      match TakeAll(input, size, accept, c.(read := c.read + n))
      case Stopped(done, stop) => Outcome(done, stop, c.read + n)
      case GoOn(d) => Serve(input, if cuts == [] then [] else cuts[1..], size, accept, d)
  }

  /** What has been read is what has been dispatched, then the window. */
  ghost predicate InStep(stream: Bytes, dispatched: seq<Msg>, window: Bytes, limit: nat) {
    var p := Parse(stream, limit);
    var q := Parse(window, limit);
    p == Parsed(dispatched + q.msgs, q.rest, q.tooLong)
  }

  lemma InStepMore(input: Bytes, read: nat, n: nat, dispatched: seq<Msg>, window: Bytes, limit: nat)
    requires read + n <= |input|
    requires InStep(input[..read], dispatched, window, limit) && FirstMsg(window, limit) == Short
    ensures InStep(input[..read + n], dispatched, window + input[read..read + n], limit)
  {
    hide Parse, FirstMsg;
    ParseStep(window, limit);
    ParseAppend(input[..read], input[read..read + n], limit);
    assert input[..read] + input[read..read + n] == input[..read + n];
  }

  lemma {:induction false} InStepPacket(stream: Bytes, dispatched: seq<Msg>, window: Bytes, limit: nat)
    requires InStep(stream, dispatched, window, limit) && FirstMsg(window, limit).Whole?
    ensures var m := FirstMsg(window, limit).msg;
            && InStep(stream, dispatched + [m], window[HEADER_SIZE + |m.body|..], limit)
            && dispatched + [m] <= Parse(stream, limit).msgs
  {
    hide Parse, FirstMsg;
    ParseStep(window, limit);
    var m := FirstMsg(window, limit).msg;
    Assoc(dispatched, [m], Parse(window[HEADER_SIZE + |m.body|..], limit).msgs);
  }

  /** `parsePacket` returned no error for any of the packets. */
  ghost predicate AllAccepted(dispatched: seq<Msg>, accept: seq<Msg> -> bool) {
    forall k | 0 < k <= |dispatched| :: accept(dispatched[..k])
  }

  lemma AcceptedMore(dispatched: seq<Msg>, m: Msg, accept: seq<Msg> -> bool)
    requires AllAccepted(dispatched, accept)
    ensures (dispatched + [m])[..|dispatched|] == dispatched
    ensures accept(dispatched + [m]) ==> AllAccepted(dispatched + [m], accept)
  {
    var more := dispatched + [m];
    assert more[..|more|] == more;
    forall k | 0 < k <= |dispatched| ensures more[..k] == dispatched[..k] {
    }
  }

  /** The part of the loop from `ParseAgain` on, in the buffer. */
  method ParseAgain(buf: array<byte>, inOfs: nat, packetOfs: nat, done: seq<Msg>, accept: seq<Msg> -> bool,
                    ghost input: Bytes, ghost c: Pos)
    returns (inOffset: nat, packetOffset: nat, dispatched: seq<Msg>, goOn: bool, stop: Stop, ghost d: Pos)
    requires buf.Length <= MAX_RECV_BUF && Mirrors(buf, inOfs, packetOfs, done, input, c)
    modifies buf
    ensures TakeAll(input, buf.Length, accept, c) == if goOn then GoOn(d) else Stopped(dispatched, stop)
    ensures goOn ==> Mirrors(buf, inOffset, packetOffset, dispatched, input, d)
  {
    hide FirstMsg, TakeAll;
    inOffset, packetOffset, dispatched, stop := inOfs, packetOfs, done, EndOfInput;
    d := c;
    while true
      invariant Mirrors(buf, inOffset, packetOffset, dispatched, input, d)
      invariant TakeAll(input, buf.Length, accept, c) == TakeAll(input, buf.Length, accept, d)
      decreases inOffset - packetOffset
    {
      TakeStep(input, buf.Length, accept, d);
      var token, needs, packet := MatchFullPacket(buf[..], packetOffset, inOffset - packetOffset, buf.Length);
      assert buf[..][packetOffset..packetOffset + (inOffset - packetOffset)] == buf[packetOffset..inOffset];
      if token == 0 {
        if needs == 0 {
          return inOffset, packetOffset, dispatched, false, Oversized, d;
        }
        if buf.Length - inOffset < needs {
          if needs > buf.Length / 2 {
            return inOffset, packetOffset, dispatched, false, Overlap, d;
          }
          Compact(buf, packetOffset, inOffset);
          inOffset, packetOffset := inOffset - packetOffset, 0;
          d := d.(base := d.at, k := |d.done|);
        }
        return inOffset, packetOffset, dispatched, true, stop, d;
      }
      packetOffset := packetOffset + token;
      dispatched := dispatched + [packet];
      if !accept(dispatched) {
        return inOffset, packetOffset, dispatched, false, Refused, d;
      }
      if packetOffset == inOffset {
        d := Pos(d.read, d.read, d.read, |dispatched|, dispatched);
        assert buf[0..0] == input[d.at..d.read] == [];
        return 0, 0, dispatched, true, stop, d;
      }
      ghost var window := input[d.at..d.read];
      d := d.(at := d.at + token, done := dispatched);
      assert buf[packetOffset..inOffset] == window[token..] == input[d.at..d.read];
    }
  }

  /** The buffer holds the stretch of the stream that its offsets stand for. */
  ghost predicate Mirrors(buf: array<byte>, inOffset: nat, packetOffset: nat, done: seq<Msg>, input: Bytes, c: Pos)
    reads buf
  {
    && InBuffer(input, buf.Length, c) && done == c.done
    && packetOffset == c.at - c.base && inOffset == c.read - c.base
    && buf[packetOffset..inOffset] == input[c.at..c.read]
  }

  lemma {:induction false} TakeStep(input: Bytes, size: nat, accept: seq<Msg> -> bool, c: Pos)
    requires InBuffer(input, size, c)
    ensures var s := input[c.at..c.read];
            var t := TakeAll(input, size, accept, c);
            match FirstMsg(s, size)
            case TooLong => t == Stopped(c.done, Oversized)
            case Short => t == Decide(size, c, Wanted(s) - |s|)
            case Whole(m) =>
              var done, at := c.done + [m], c.at + HEADER_SIZE + |m.body|;
              if !accept(done) then t == Stopped(done, Refused)
              else if at == c.read then t == GoOn(Pos(at, at, at, |done|, done))
              else t == TakeAll(input, size, accept, c.(at := at, done := done))
  {
    hide FirstMsg, Wanted, Decide;
  }

  /** `handleClient`, on an input that arrives in pieces: the buffer, its two offsets and the moves do what
      the loop does on the stream itself. */
  method HandleClient(input: Bytes, cuts: seq<nat>, recvBufSize: nat, accept: seq<Msg> -> bool)
    returns (dispatched: seq<Msg>, stop: Stop, read: nat)
    requires recvBufSize <= MAX_RECV_BUF
    ensures Outcome(dispatched, stop, read) == Serve(input, cuts, recvBufSize, accept, START)
  {
    hide FirstMsg, TakeAll, Serve, Mirrors;
    var buf := new byte[recvBufSize](_ => 0);
    var inOffset: nat, packetOffset: nat, i: nat := 0, 0, 0;
    dispatched, read := [], 0;
    ghost var c, left := START, cuts;
    MirrorsStart(buf, input);
    while true
      invariant Mirrors(buf, inOffset, packetOffset, dispatched, input, c) && read == c.read <= |input|
      invariant InBuffer(input, recvBufSize, c) && inOffset == read - c.base && dispatched == c.done
      invariant left == if i <= |cuts| then cuts[i..] else []
      invariant Serve(input, cuts, recvBufSize, accept, START) == Serve(input, left, recvBufSize, accept, c)
      decreases |input| - read
    {
      ServeStep(input, left, recvBufSize, accept, c);
      if inOffset == recvBufSize {
        return dispatched, EmptyRead, read;
      }
      if read == |input| {
        return dispatched, EndOfInput, read;
      }
      var n := PieceSize(cuts, i, recvBufSize - inOffset, |input| - read);
      assert n == PieceSize(left, 0, recvBufSize - inOffset, |input| - read);
      ReadPiece(buf, inOffset, packetOffset, dispatched, input, read, n, c);
      c := c.(read := read + n);
      inOffset, read, i := inOffset + n, read + n, i + 1;
      var goOn;
      inOffset, packetOffset, dispatched, goOn, stop, c :=
        ParseAgain(buf, inOffset, packetOffset, dispatched, accept, input, c);
      if !goOn {
        return;
      }
      MirrorsPos(buf, inOffset, packetOffset, dispatched, input, c);
      left := if left == [] then [] else left[1..];
    }
  }

  /** `conn.Read` behind what is in the buffer. */
  method ReadPiece(buf: array<byte>, inOffset: nat, packetOffset: nat, ghost done: seq<Msg>, input: Bytes,
                   read: nat, n: nat,
                   ghost c: Pos)
    requires Mirrors(buf, inOffset, packetOffset, done, input, c) && read == c.read
    requires inOffset + n <= buf.Length && read + n <= |input|
    modifies buf
    ensures Mirrors(buf, inOffset + n, packetOffset, done, input, c.(read := read + n))
  {
    var piece := input[read..read + n];
    Fill(buf, inOffset, piece);
    assert buf[packetOffset..inOffset + n] == input[c.at..read] + piece;
    assert input[c.at..read + n] == input[c.at..read] + piece;
  }

  lemma MirrorsStart(buf: array<byte>, input: Bytes)
    ensures Mirrors(buf, 0, 0, [], input, START)
  {
    assert buf[0..0] == input[0..0] == [];
  }

  lemma MirrorsPos(buf: array<byte>, inOffset: nat, packetOffset: nat, done: seq<Msg>, input: Bytes, c: Pos)
    requires Mirrors(buf, inOffset, packetOffset, done, input, c)
    ensures InBuffer(input, buf.Length, c) && inOffset == c.read - c.base && done == c.done
  {
  }

  lemma {:induction false} ServeStep(input: Bytes, cuts: seq<nat>, size: nat, accept: seq<Msg> -> bool, c: Pos)
    requires InBuffer(input, size, c)
    ensures var o := Serve(input, cuts, size, accept, c);
            if c.read - c.base == size then o == Outcome(c.done, EmptyRead, c.read)
            else if c.read == |input| then o == Outcome(c.done, EndOfInput, c.read)
            else
              var n := PieceSize(cuts, 0, size - (c.read - c.base), |input| - c.read);
              match TakeAll(input, size, accept, c.(read := c.read + n))
              case Stopped(done, stop) => o == Outcome(done, stop, c.read + n)
              case GoOn(d) => o == Serve(input, if cuts == [] then [] else cuts[1..], size, accept, d)
  {
    hide TakeAll, PieceSize;
  }

  /** The position fits the packets taken, and the window is the unparsed rest of what was read. */
  ghost predicate Reached(input: Bytes, size: nat, c: Pos) {
    && InBuffer(input, size, c) && (forall m <- c.done :: Sendable(m))
    && c.base == |Frames(c.done[..c.k])| && c.at == |Frames(c.done)|
    && InStep(input[..c.read], c.done, input[c.at..c.read], size)
  }

  /** Between two reads: no whole packet is left in the window, and a full buffer starts with the window. */
  ghost predicate Ready(input: Bytes, size: nat, accept: seq<Msg> -> bool, c: Pos) {
    && Reached(input, size, c) && AllAccepted(c.done, accept)
    && FirstMsg(input[c.at..c.read], size) == Short && (c.read - c.base == size ==> c.base == c.at)
  }

  /** What the packets so far and the stop reason say about the stream read so far. */
  ghost predicate Explained(stream: Bytes, dispatched: seq<Msg>, stop: Stop, accept: seq<Msg> -> bool, size: nat) {
    var p := Parse(stream, size);
    if stop == Refused then
      dispatched != [] && dispatched <= p.msgs && AllAccepted(dispatched[..|dispatched| - 1], accept) && !accept(dispatched)
    else
      && dispatched == p.msgs && AllAccepted(dispatched, accept)
      && p.tooLong == (stop == Oversized)
      && (stop == Overlap ==> exists k | 0 <= k <= |p.msgs| :: Overlaps(p.rest, |Frames(p.msgs[k..])|, size))
      && (stop == EmptyRead ==> |p.rest| == size)
  }

  /** Behind `before` bytes of packets still in the buffer, the part of a packet that is there leaves more
      than half the buffer missing, and that does not fit. */
  ghost predicate Overlaps(rest: Bytes, before: nat, size: nat) {
    && 0 < |rest| && before + |rest| <= size < before + Wanted(rest)
    && Wanted(rest) - |rest| > size / 2
  }

  /** A packet taken off the front of the window. */
  lemma {:induction false} TookPacket(input: Bytes, size: nat, c: Pos)
    requires Reached(input, size, c) && FirstMsg(input[c.at..c.read], size).Whole?
    ensures var m := FirstMsg(input[c.at..c.read], size).msg;
            && Reached(input, size, c.(at := c.at + HEADER_SIZE + |m.body|, done := c.done + [m]))
            && c.done + [m] <= Parse(input[..c.read], size).msgs
  {
    hide Parse, FirstMsg, Frames, Frame;
    var s := input[c.at..c.read];
    var m := FirstMsg(s, size).msg;
    InStepPacket(input[..c.read], c.done, s, size);
    FramesSnoc(c.done, m);
    assert s[HEADER_SIZE + |m.body|..] == input[c.at + HEADER_SIZE + |m.body|..c.read];
    assert (c.done + [m])[..c.k] == c.done[..c.k];
  }

  /** An emptied buffer starts over. */
  lemma Restarted(input: Bytes, size: nat, accept: seq<Msg> -> bool, c: Pos)
    requires Reached(input, size, c) && AllAccepted(c.done, accept) && c.at == c.read
    ensures Ready(input, size, accept, Pos(c.at, c.at, c.at, |c.done|, c.done))
  {
    hide Parse, FirstMsg, Frames, AllAccepted;
    FirstOfNothing(size);
    assert input[c.at..c.at] == [] && c.done[..|c.done|] == c.done;
  }

  lemma {:induction false} TakeExplained(input: Bytes, size: nat, accept: seq<Msg> -> bool, c: Pos)
    requires Reached(input, size, c) && AllAccepted(c.done, accept) && c.at < c.read
    ensures match TakeAll(input, size, accept, c)
            case Stopped(done, stop) => Explained(input[..c.read], done, stop, accept, size)
            case GoOn(d) => Ready(input, size, accept, d)
    decreases c.read - c.at
  {
    hide Parse, FirstMsg, TakeAll, AllAccepted, Ready, Decide;
    TakeStep(input, size, accept, c);
    var s := input[c.at..c.read];
    match FirstMsg(s, size)
    case TooLong => ParseStep(s, size);
    case Short => DecideExplained(input, size, accept, c);
    case Whole(m) =>
      TookPacket(input, size, c);
      AcceptedMore(c.done, m, accept);
      var d := c.(at := c.at + HEADER_SIZE + |m.body|, done := c.done + [m]);
      if !accept(d.done) {
      } else if d.at == c.read {
        Restarted(input, size, accept, d);
      } else {
        TakeExplained(input, size, accept, d);
      }
  }

  lemma DecideExplained(input: Bytes, size: nat, accept: seq<Msg> -> bool, c: Pos)
    requires Reached(input, size, c) && AllAccepted(c.done, accept) && c.at < c.read
    requires FirstMsg(input[c.at..c.read], size) == Short
    ensures var s := input[c.at..c.read];
            match Decide(size, c, Wanted(s) - |s|)
            case Stopped(done, stop) => Explained(input[..c.read], done, stop, accept, size)
            case GoOn(d) => Ready(input, size, accept, d)
  {
    hide Parse, FirstMsg, AllAccepted, Frames;
    var s := input[c.at..c.read];
    ParseStep(s, size);
    ShortWants(s, size);
    FramesUpTo(c.done, c.k, |c.done|);
    assert c.done + [] == c.done && c.done[..|c.done|] == c.done && c.done[c.k..|c.done|] == c.done[c.k..];
    if Wanted(s) - |s| > size - (c.read - c.base) && Wanted(s) - |s| > size / 2 {
      assert Overlaps(s, |Frames(c.done[c.k..])|, size);
    }
  }

  lemma ShortWants(s: Bytes, size: nat)
    requires FirstMsg(s, size) == Short
    ensures Wanted(s) > |s|
  {
  }

  lemma FirstOfNothing(limit: nat)
    ensures FirstMsg([], limit) == Short
  {
  }

  /** However the input arrives, the dispatched packets are those of the reference parse of what was read,
      and the way the loop ends is explained. */
  lemma {:induction false} ServeExplained(input: Bytes, cuts: seq<nat>, size: nat, accept: seq<Msg> -> bool, c: Pos)
    requires Ready(input, size, accept, c)
    ensures var o := Serve(input, cuts, size, accept, c);
            && c.read <= o.read <= |input| && (o.stop == EndOfInput ==> o.read == |input|)
            && Explained(input[..o.read], o.dispatched, o.stop, accept, size)
    decreases |input| - c.read
  {
    hide Parse, FirstMsg, TakeAll, Serve, AllAccepted, PieceSize, Explained;
    ServeStep(input, cuts, size, accept, c);
    if c.read - c.base == size || c.read == |input| {
      EndExplained(input, size, accept, c);
    } else {
      var n := PieceSize(cuts, 0, size - (c.read - c.base), |input| - c.read);
      InStepMore(input, c.read, n, c.done, input[c.at..c.read], size);
      assert input[c.at..c.read] + input[c.read..c.read + n] == input[c.at..c.read + n];
      var more := c.(read := c.read + n);
      TakeExplained(input, size, accept, more);
      match TakeAll(input, size, accept, more)
      case Stopped(_, _) =>
      case GoOn(d) => ServeExplained(input, if cuts == [] then [] else cuts[1..], size, accept, d);
    }
  }

  lemma EndExplained(input: Bytes, size: nat, accept: seq<Msg> -> bool, c: Pos)
    requires Ready(input, size, accept, c)
    ensures Explained(input[..c.read], c.done, EndOfInput, accept, size)
    ensures c.read - c.base == size ==> Explained(input[..c.read], c.done, EmptyRead, accept, size)
  {
    hide Parse, FirstMsg, AllAccepted;
    ParseStep(input[c.at..c.read], size);
  }

  lemma StartIsReady(input: Bytes, size: nat, accept: seq<Msg> -> bool)
    ensures Ready(input, size, accept, START)
  {
    hide Parse, FirstMsg;
    FirstOfNothing(size);
    ParseStep([], size);
    assert input[..0] == [] && input[0..0] == [];
  }

  /** The loop gave up on the client. */
  ghost predicate TurnedAway(o: Outcome) {
    o.stop != EndOfInput && o.stop != Refused
  }

  /** A packet of which the stream `x` is the start, behind `before` bytes of packets read together with
      it, can be cut so that the loop gives up. */
  ghost predicate Cuttable(x: Bytes, before: nat, size: nat) {
    || (|x| >= HEADER_SIZE && Wanted(x) - HEADER_SIZE > size / 2 && before + HEADER_SIZE <= size < before + Wanted(x))
    || (|x| > 0 && size < 14 && before < size < before + HEADER_SIZE)
    || (before == 0 && HEADER_SIZE <= size <= |x| && Wanted(x) > size)
  }

  /** The packets up to the `j`-th are accepted, and the `j`-th is cuttable behind those from the `k`-th on. */
  ghost predicate CuttableAt(input: Bytes, size: nat, accept: seq<Msg> -> bool, k: nat, j: nat) {
    var ms := Parse(input, size).msgs;
    && k <= j <= |ms| && AllAccepted(ms[..j], accept) && |Frames(ms[..j])| <= |input|
    && Cuttable(input[|Frames(ms[..j])|..], |Frames(ms[k..j])|, size)
  }

  /** What makes a stream one that some cutting turns away. */
  ghost predicate Turnable(input: Bytes, size: nat, accept: seq<Msg> -> bool) {
    var p := Parse(input, size);
    || size == 0
    || (p.tooLong && AllAccepted(p.msgs, accept))
    || exists k: nat, j: nat :: CuttableAt(input, size, accept, k, j)
  }

  /** What was read, seen in the whole stream. */
  lemma {:induction false} WholeView(input: Bytes, read: nat, size: nat)
    requires read <= |input| && !Parse(input[..read], size).tooLong
    ensures var p, q := Parse(input[..read], size), Parse(input, size);
            && p.msgs <= q.msgs && |Frames(p.msgs)| <= |input|
            && input[|Frames(p.msgs)|..] == p.rest + input[read..]
  {
    hide Parse, Frames;
    var p := Parse(input[..read], size);
    ParseCovers(input[..read], size);
    ParseAppend(input[..read], input[read..], size);
    assert input == input[..read] + input[read..];
    assert input == Frames(p.msgs) + (p.rest + input[read..]);
  }

  lemma WantedMore(rest: Bytes, more: Bytes)
    ensures |rest| >= HEADER_SIZE ==> Wanted(rest + more) == Wanted(rest)
  {
    if |rest| >= HEADER_SIZE {
      assert GetBE32(rest + more, 4) == GetBE32(rest, 4);
    }
  }

  lemma OverlapsIsCuttable(rest: Bytes, more: Bytes, before: nat, size: nat)
    requires Overlaps(rest, before, size)
    ensures Cuttable(rest + more, before, size)
  {
    WantedMore(rest, more);
  }

  lemma FullIsCuttable(rest: Bytes, more: Bytes, size: nat)
    requires |rest| == size > 0 && Wanted(rest) > size
    ensures Cuttable(rest + more, 0, size)
  {
    WantedMore(rest, more);
  }

  /** Whoever is turned away had sent a stream of that kind. */
  lemma TurnedAwayOnly(input: Bytes, read: nat, dispatched: seq<Msg>, stop: Stop, accept: seq<Msg> -> bool, size: nat)
    requires read <= |input| && Explained(input[..read], dispatched, stop, accept, size)
    requires stop != EndOfInput && stop != Refused
    ensures Turnable(input, size, accept)
  {
    hide Parse, Frames, Cuttable, Overlaps, AllAccepted, FirstMsg;
    var p, q := Parse(input[..read], size), Parse(input, size);
    var j := |p.msgs|;
    if stop == Oversized {
      assert input == input[..read] + input[read..];
      ParseRejected(input[..read], input[read..], size);
    } else {
      WholeView(input, read, size);
      assert q.msgs[..j] == p.msgs && p.msgs[j..] == q.msgs[j..j];
      if stop == Overlap {
        var k :| 0 <= k <= j && Overlaps(p.rest, |Frames(p.msgs[k..])|, size);
        assert q.msgs[k..j] == p.msgs[k..];
        OverlapsIsCuttable(p.rest, input[read..], |Frames(p.msgs[k..])|, size);
        assert CuttableAt(input, size, accept, k, j);
      } else if size > 0 {
        ParseCovers(input[..read], size);
        ShortWants(p.rest, size);
        FullIsCuttable(p.rest, input[read..], size);
        FramesOfNone();
        assert q.msgs[j..j] == [];
        assert CuttableAt(input, size, accept, j, j);
      }
    }
  }

  lemma FramesOfNone()
    ensures Frames([]) == []
  {
  }

  /** The start of packet `i`, with an empty buffer. */
  ghost function Boundary(input: Bytes, size: nat, i: nat): (c: Pos)
    requires i <= |Parse(input, size).msgs|
  {
    var done := Parse(input, size).msgs[..i];
    var at := |Frames(done)|;
    Pos(at, at, at, i, done)
  }

  /** The stream from a packet boundary on. */
  lemma {:induction false} BoundaryView(input: Bytes, size: nat, i: nat)
    requires i <= |Parse(input, size).msgs|
    ensures var p := Parse(input, size);
            var at := |Frames(p.msgs[..i])|;
            && at <= |input| && input[at..] == Frames(p.msgs[i..]) + p.rest
  {
    hide Parse, Frames;
    var p := Parse(input, size);
    ParseCovers(input, size);
    FramesUpTo(p.msgs, i, |p.msgs|);
    assert p.msgs[..|p.msgs|] == p.msgs && p.msgs[i..|p.msgs|] == p.msgs[i..];
    assert input == Frames(p.msgs[..i]) + (Frames(p.msgs[i..]) + p.rest);
  }

  /** Whole packets at the front of the window are taken one after the other. */
  lemma {:induction false} TakeThrough(input: Bytes, size: nat, accept: seq<Msg> -> bool, c: Pos, j: nat)
    requires var ms := Parse(input, size).msgs;
             && InBuffer(input, size, c) && |c.done| <= j <= |ms| && c.done == ms[..|c.done|] && c.at == |Frames(c.done)|
             && AllAccepted(ms[..j], accept) && |Frames(ms[..j])| < c.read
    ensures var done := Parse(input, size).msgs[..j];
            var d := c.(at := |Frames(done)|, done := done);
            InBuffer(input, size, d) && TakeAll(input, size, accept, c) == TakeAll(input, size, accept, d)
    decreases j - |c.done|
  {
    hide Parse, Frames, Frame, FirstMsg, TakeAll, AllAccepted;
    var ms, i := Parse(input, size).msgs, |c.done|;
    if i == j {
    } else {
      FramesUpTo(ms, i + 1, j);
      TakeNext(input, size, i, c.read);
      TakeStep(input, size, accept, c);
      AcceptedAt(ms, i + 1, j, accept);
      assert ms[..i + 1] == ms[..i] + [ms[i]];
      TakeThrough(input, size, accept, c.(at := |Frames(ms[..i + 1])|, done := ms[..i + 1]), j);
    }
  }

  lemma AcceptedAt(ms: seq<Msg>, i: nat, j: nat, accept: seq<Msg> -> bool)
    requires 0 < i <= j <= |ms| && AllAccepted(ms[..j], accept)
    ensures accept(ms[..i])
  {
    assert ms[..j][..i] == ms[..i];
  }

  /** The next packet of the stream, once enough has been read. */
  lemma {:induction false} TakeNext(input: Bytes, size: nat, i: nat, read: nat)
    requires var ms := Parse(input, size).msgs; i < |ms| && |Frames(ms[..i + 1])| <= read <= |input|
    ensures var ms := Parse(input, size).msgs;
            var at := |Frames(ms[..i])|;
            && at + HEADER_SIZE + |ms[i].body| == |Frames(ms[..i + 1])|
            && FirstMsg(input[at..read], size) == Whole(ms[i])
  {
    hide Parse, Frames, FirstMsg;
    var p := Parse(input, size);
    var ms, at := p.msgs, |Frames(p.msgs[..i])|;
    assert ms[..i + 1] == ms[..i] + [ms[i]];
    FramesSnoc(ms[..i], ms[i]);
    BoundaryView(input, size, i);
    assert ms[i..] == [ms[i]] + ms[i + 1..];
    FramesCons(ms[i], ms[i + 1..]);
    ParsedWithin(input, size, i);
    var f := Frame(ms[i]);
    assert input[at..][..|f|] == f;
    assert input[at..read] == f + input[at + |f|..read];
    FirstOfFrame(ms[i], input[at + |f|..read], size);
  }

  lemma {:induction false} ParsedWithin(s: Bytes, limit: nat, i: nat)
    requires i < |Parse(s, limit).msgs|
    ensures |Parse(s, limit).msgs[i].body| <= limit
    decreases |s|
  {
    match FirstMsg(s, limit)
    case Whole(m) =>
      if i == 0 {
      } else {
        ParsedWithin(s[HEADER_SIZE + |m.body|..], limit, i - 1);
      }
  }

  /** How much of a cuttable packet to read. */
  ghost function CutAt(x: Bytes, before: nat, size: nat): (v: nat)
    requires Cuttable(x, before, size)
    ensures 0 < v <= |x| && before + v <= size && v < Wanted(x)
  {
    if |x| >= HEADER_SIZE && Wanted(x) - HEADER_SIZE > size / 2 && before + HEADER_SIZE <= size < before + Wanted(x) then
      HEADER_SIZE
    else if |x| > 0 && size < 14 && before < size < before + HEADER_SIZE then 1
    else size
  }

  /** What the loop makes of that much of it. */
  lemma CutPacket(x: Bytes, before: nat, size: nat)
    requires Cuttable(x, before, size)
    ensures var v := CutAt(x, before, size);
            var s := x[..v];
            || FirstMsg(s, size) == TooLong
            || (&& FirstMsg(s, size) == Short && Wanted(s) - v > size - (before + v)
                && (Wanted(s) - v > size / 2 || before + v == size == v))
  {
    var v := CutAt(x, before, size);
    var s := x[..v];
    if v >= HEADER_SIZE {
      assert x == s + x[v..];
      WantedMore(s, x[v..]);
    }
  }

  /** The whole of the packets from the `k`-th on in one read, with that much of the `j`-th. */
  lemma CutHere(input: Bytes, size: nat, accept: seq<Msg> -> bool, k: nat, j: nat) returns (cuts: seq<nat>)
    requires CuttableAt(input, size, accept, k, j) && size > 0
    ensures InBuffer(input, size, Boundary(input, size, k))
    ensures TurnedAway(Serve(input, cuts, size, accept, Boundary(input, size, k)))
  {
    hide Parse, Frames, FirstMsg, TakeAll, Serve, AllAccepted, Cuttable, CutAt, Wanted;
    var ms := Parse(input, size).msgs;
    var x, before := input[|Frames(ms[..j])|..], |Frames(ms[k..j])|;
    var c, v := Boundary(input, size, k), CutAt(x, before, size);
    FramesUpTo(ms, k, j);
    cuts := [before + v];
    ServeStep(input, cuts, size, accept, c);
    var read := c.read + before + v;
    TakeThrough(input, size, accept, c.(read := read), j);
    var d := c.(read := read, at := |Frames(ms[..j])|, done := ms[..j]);
    TakeStep(input, size, accept, d);
    assert input[d.at..read] == x[..v];
    CutPacket(x, before, size);
    match TakeAll(input, size, accept, d)
    case Stopped(_, _) =>
    case GoOn(e) => ServeStep(input, cuts[1..], size, accept, e);
  }

  /** From an empty buffer at packet `i`: packets up to the `k`-th are read one by one. */
  lemma {:induction false} CutFrom(input: Bytes, size: nat, accept: seq<Msg> -> bool, i: nat, k: nat, j: nat)
    returns (cuts: seq<nat>)
    requires i <= k && CuttableAt(input, size, accept, k, j) && size > 0
    ensures InBuffer(input, size, Boundary(input, size, i))
    ensures TurnedAway(Serve(input, cuts, size, accept, Boundary(input, size, i)))
    decreases k - i
  {
    hide Parse, Frames, FirstMsg, TakeAll, Serve, AllAccepted, Cuttable;
    var ms := Parse(input, size).msgs;
    if i == k {
      cuts := CutHere(input, size, accept, k, j);
    } else {
      AcceptedUpTo(ms, i, j, accept);
      AcceptedAt(ms, i + 1, j, accept);
      FramesUpTo(ms, i + 1, j);
      var w, c := HEADER_SIZE + |ms[i].body|, Boundary(input, size, i);
      TakeNext(input, size, i, |Frames(ms[..i + 1])|);
      if w > size {
        LongIsCuttable(input, size, accept, i);
        cuts := CutHere(input, size, accept, i, i);
      } else {
        var more := CutFrom(input, size, accept, i + 1, k, j);
        cuts := [w] + more;
        ServeStep(input, cuts, size, accept, c);
        TakeStep(input, size, accept, c.(read := c.at + w));
        assert ms[..i + 1] == ms[..i] + [ms[i]] && cuts[1..] == more;
      }
    }
  }

  lemma AcceptedUpTo(ms: seq<Msg>, i: nat, j: nat, accept: seq<Msg> -> bool)
    requires i <= j <= |ms| && AllAccepted(ms[..j], accept)
    ensures AllAccepted(ms[..i], accept)
  {
    forall k | 0 < k <= i ensures accept(ms[..i][..k]) {
      AcceptedAt(ms, k, j, accept);
      assert ms[..i][..k] == ms[..k];
    }
  }

  /** The size announced at a packet boundary. */
  lemma {:induction false} WantedAt(input: Bytes, size: nat, i: nat)
    requires i <= |Parse(input, size).msgs|
    ensures var p := Parse(input, size);
            var at := |Frames(p.msgs[..i])|;
            && at <= |input|
            && if i < |p.msgs| then Wanted(input[at..]) == HEADER_SIZE + |p.msgs[i].body| <= |input[at..]|
               else input[at..] == p.rest
  {
    hide Parse, Frames;
    var p := Parse(input, size);
    BoundaryView(input, size, i);
    FramesOfNone();
    if i < |p.msgs| {
      BoundaryView(input, size, i + 1);
      TakeNext(input, size, i, |input|);
    } else {
      assert p.msgs[i..] == [];
    }
  }

  lemma {:induction false} LongIsCuttable(input: Bytes, size: nat, accept: seq<Msg> -> bool, i: nat)
    requires var ms := Parse(input, size).msgs;
             i < |ms| && HEADER_SIZE + |ms[i].body| > size > 0 && AllAccepted(ms[..i], accept)
    ensures CuttableAt(input, size, accept, i, i)
  {
    hide Parse, Frames, Wanted, AllAccepted;
    WantedAt(input, size, i);
    FramesOfNone();
    assert Parse(input, size).msgs[i..i] == [];
  }

  /** The exact condition: some way of cutting the stream into reads is turned away. */
  lemma {:induction false} TurnedAwayIff(input: Bytes, size: nat, accept: seq<Msg> -> bool)
    ensures (exists cuts :: TurnedAway(Serve(input, cuts, size, accept, START))) <==> Turnable(input, size, accept)
  {
    hide Parse, Frames, Serve, CuttableAt, Explained, Ready, AllAccepted;
    StartIsReady(input, size, accept);
    forall cuts | TurnedAway(Serve(input, cuts, size, accept, START)) ensures Turnable(input, size, accept) {
      var o := Serve(input, cuts, size, accept, START);
      ServeExplained(input, cuts, size, accept, START);
      TurnedAwayOnly(input, o.read, o.dispatched, o.stop, accept, size);
    }
    var p := Parse(input, size);
    if size == 0 {
      ServeStep(input, [], size, accept, START);
    } else if p.tooLong && AllAccepted(p.msgs, accept) {
      RejectedAnyway(input, [], size, accept);
    } else if k: nat, j: nat :| CuttableAt(input, size, accept, k, j) {
      FramesOfNone();
      assert p.msgs[..0] == [];
      var cuts := CutFrom(input, size, accept, 0, k, j);
    }
  }

  lemma {:induction false} ParsedSoFar(input: Bytes, read: nat, size: nat)
    requires read <= |input|
    ensures Parse(input[..read], size).msgs <= Parse(input, size).msgs
  {
    hide Parse;
    if Parse(input[..read], size).tooLong {
      assert input == input[..read] + input[read..];
      ParseRejected(input[..read], input[read..], size);
    } else {
      WholeView(input, read, size);
    }
  }

  /** An announced body over the buffer size is turned away however it arrives. */
  lemma {:induction false} RejectedAnyway(input: Bytes, cuts: seq<nat>, size: nat, accept: seq<Msg> -> bool)
    requires var p := Parse(input, size); p.tooLong && AllAccepted(p.msgs, accept)
    ensures TurnedAway(Serve(input, cuts, size, accept, START))
  {
    hide Parse, Serve, Ready;
    StartIsReady(input, size, accept);
    ServeExplained(input, cuts, size, accept, START);
    var o := Serve(input, cuts, size, accept, START);
    ParsedSoFar(input, o.read, size);
    assert input[..|input|] == input;
    if o.stop == Refused {
      RefusedByPacket(Parse(input, size).msgs, o.dispatched, accept);
    }
  }

  lemma RefusedByPacket(ms: seq<Msg>, dispatched: seq<Msg>, accept: seq<Msg> -> bool)
    requires [] < dispatched <= ms && !accept(dispatched)
    ensures !AllAccepted(ms, accept)
  {
    assert dispatched == ms[..|dispatched|];
  }

  /** Any other stream: how it is cut into reads does not matter. */
  lemma {:induction false} CuttingIrrelevant(input: Bytes, cuts: seq<nat>, others: seq<nat>, size: nat,
                                             accept: seq<Msg> -> bool)
    requires !Turnable(input, size, accept)
    ensures var o := Serve(input, cuts, size, accept, START);
            var r := Serve(input, others, size, accept, START);
            var ms := Parse(input, size).msgs;
            && o.dispatched == r.dispatched && o.stop == r.stop
            && if AllAccepted(ms, accept) then o.stop == EndOfInput && o.dispatched == ms else o.stop == Refused
  {
    hide Parse, Serve, Turnable, AllAccepted, Ready;
    var o := Serve(input, cuts, size, accept, START);
    var r := Serve(input, others, size, accept, START);
    NotTurnedAway(input, cuts, size, accept);
    NotTurnedAway(input, others, size, accept);
    var ms := Parse(input, size).msgs;
    if o.stop == Refused {
      RefusedByPacket(ms, o.dispatched, accept);
    }
    if r.stop == Refused {
      RefusedByPacket(ms, r.dispatched, accept);
    }
    if o.stop == Refused && r.stop == Refused {
      OneRefused(ms, o.dispatched, r.dispatched, accept);
      OneRefused(ms, r.dispatched, o.dispatched, accept);
    }
  }

  lemma {:induction false} NotTurnedAway(input: Bytes, cuts: seq<nat>, size: nat, accept: seq<Msg> -> bool)
    requires !Turnable(input, size, accept)
    ensures var o := Serve(input, cuts, size, accept, START);
            var ms := Parse(input, size).msgs;
            if o.stop == Refused then
              [] < o.dispatched <= ms && AllAccepted(o.dispatched[..|o.dispatched| - 1], accept) && !accept(o.dispatched)
            else o.stop == EndOfInput && o.dispatched == ms && AllAccepted(ms, accept)
  {
    hide Parse, Serve, Turnable, AllAccepted, Ready;
    var o := Serve(input, cuts, size, accept, START);
    StartIsReady(input, size, accept);
    ServeExplained(input, cuts, size, accept, START);
    TurnedAwayIff(input, size, accept);
    ParsedSoFar(input, o.read, size);
    assert input[..|input|] == input;
    assert !TurnedAway(o);
  }

  lemma OneRefused(ms: seq<Msg>, d: seq<Msg>, e: seq<Msg>, accept: seq<Msg> -> bool)
    requires [] < d <= ms && !accept(d) && [] < e <= ms && AllAccepted(e[..|e| - 1], accept)
    ensures |e| <= |d|
  {
    if |e| > |d| {
      assert d == e[..|d|];
      AcceptedAt(e, |d|, |e| - 1, accept);
    }
  }

  /** Every packet of the stream, also one that is cut off, has at most `bound` bytes. */
  ghost predicate PacketsWithin(input: Bytes, limit: nat, bound: nat) {
    var p := Parse(input, limit);
    !p.tooLong && Wanted(p.rest) <= bound && forall m <- p.msgs :: HEADER_SIZE + |m.body| <= bound
  }

  /** Packets of at most half the buffer are safe. */
  lemma HalfBufferSuffices(input: Bytes, size: nat, accept: seq<Msg> -> bool)
    requires size >= 2 * HEADER_SIZE && PacketsWithin(input, size, size / 2)
    ensures !Turnable(input, size, accept)
  {
    hide Parse, Frames, Wanted, AllAccepted;
    forall k: nat, j: nat | CuttableAt(input, size, accept, k, j) ensures false {
      WantedAt(input, size, j);
    }
  }

  /** A stream of two packets, the buffer large enough for either: read packet by packet, both are
      dispatched; with the second packet's header read along with the first, the client is turned away. */
  lemma CuttingMatters(first: Msg, second: Msg, accept: seq<Msg> -> bool)
    requires Sendable(first) && Sendable(second) && |first.body| == 12 && |second.body| == 77
    requires AllAccepted([first, second], accept)
    ensures var input := Frames([first, second]);
            && Serve(input, [20, 85], 100, accept, START) == Outcome([first, second], EndOfInput, 105)
            && Serve(input, [28, 77], 100, accept, START) == Outcome([first], Overlap, 28)
  {
    hide Serve, TakeAll, FirstMsg, Frame, Frames, Wanted;
    var f, g, input := Frame(first), Frame(second), Frames([first, second]);
    assert [first, second] == [first] + [second] && [first] == [] + [first];
    FramesSnoc([first], second);
    FramesSnoc([], first);
    FramesOfNone();
    assert input == f + g;
    assert [first, second][..1] == [first] && [first, second][..2] == [first, second];

    assert input[0..20] == f + [] && input[20..105] == g + [] && [20, 85][1..] == [85];
    FirstOfFrame(first, [], 100);
    ServeStep(input, [20, 85], 100, accept, START);
    TakeStep(input, 100, accept, START.(read := 20));
    var one := Pos(20, 20, 20, 1, [first]);
    FirstOfFrame(second, [], 100);
    ServeStep(input, [85], 100, accept, one);
    TakeStep(input, 100, accept, one.(read := 105));
    ServeStep(input, [85][1..], 100, accept, Pos(105, 105, 105, 2, [first, second]));

    assert input[0..28] == f + g[..8] && input[20..28] == g[..8];
    FirstOfFrame(first, g[..8], 100);
    HeaderOnly(second, 100);
    ServeStep(input, [28, 77], 100, accept, START);
    TakeStep(input, 100, accept, START.(read := 28));
    TakeStep(input, 100, accept, Pos(0, 20, 28, 0, [first]));
  }

  lemma HeaderOnly(m: Msg, limit: nat)
    requires Sendable(m) && 0 < |m.body| <= limit
    ensures var s := Frame(m)[..HEADER_SIZE]; FirstMsg(s, limit) == Short && Wanted(s) == HEADER_SIZE + |m.body|
  {
    var s := Frame(m)[..HEADER_SIZE];
    assert s[4..8] == PutBE32(|m.body|);
    GetAfterPut(|m.body|, s, 4);
  }

  /** One answer of `Write`: up to `k` bytes taken, with or without an error. */
  datatype WriteReply = Wrote(k: nat, failed: bool)

  /** Bytes taken of `n`, and whether that was all of them without an error; no answer left is an error. */
  function Written(replies: seq<WriteReply>, n: nat): (r: (nat, bool))
    ensures r.0 <= n && (r.1 ==> r.0 == n)
    decreases |replies|
  {
    if n == 0 then (0, true)
    else if replies == [] then (0, false)
    else
      var took := if replies[0].k <= n then replies[0].k else n;
      if replies[0].failed || took == 0 then (took, false)
      else
        var r := Written(replies[1..], n - took);
        (took + r.0, r.1)
  }

  /** An answer that lets the writing go on. */
  predicate Progress(w: WriteReply) {
    w.k > 0 && !w.failed
  }

  function TakenBy(replies: seq<WriteReply>, m: nat): (n: nat)
    requires m <= |replies|
  {
    if m == 0 then 0 else TakenBy(replies, m - 1) + replies[m - 1].k
  }

  lemma {:induction false} WrittenTurn(replies: seq<WriteReply>, m: nat, n: nat)
    requires m <= |replies| && n > 0
    ensures var r := Written(replies[m..], n);
            if m == |replies| then r == (0, false)
            else if !Progress(replies[m]) then r == (if replies[m].k < n then replies[m].k else n, false)
            else if replies[m].k >= n then r == (n, true)
            else
              var rest := Written(replies[m + 1..], n - replies[m].k); r == (replies[m].k + rest.0, rest.1)
  {
    assert m < |replies| ==> replies[m..][0] == replies[m] && replies[m..][1..] == replies[m + 1..];
  }

  /** The first `m` answers are used: all but the last let the writing go on and leave something to write. All is
      written exactly when the last does too and nothing is left; what a failing answer took counts as well. */
  lemma {:induction false} WrittenIs(replies: seq<WriteReply>, n: nat) returns (m: nat)
    requires n > 0
    ensures m <= |replies| && forall i | 0 <= i < m - 1 :: Progress(replies[i]) && TakenBy(replies, i + 1) < n
    ensures var (sent, ok), taken := Written(replies, n), TakenBy(replies, m);
            sent == (if taken < n then taken else n) && (ok <==> m > 0 && Progress(replies[m - 1]) && taken >= n)
    ensures m < |replies| ==> m > 0 && (!Progress(replies[m - 1]) || TakenBy(replies, m) >= n)
  {
    hide Written, Progress;
    m := 0;
    var taken := 0;
    assert replies[0..] == replies;
    WrittenTurn(replies, 0, n);
    while m < |replies|
      invariant m <= |replies| && taken == TakenBy(replies, m) < n
      invariant forall i | 0 <= i < m :: Progress(replies[i]) && TakenBy(replies, i + 1) < n
      invariant var rest := Written(replies[m..], n - taken); Written(replies, n) == (taken + rest.0, rest.1)
    {
      WrittenTurn(replies, m, n - taken);
      m, taken := m + 1, taken + replies[m].k;
      if !Progress(replies[m - 1]) || taken >= n {
        return;
      }
    }
    WrittenTurn(replies, m, n - taken);
  }

  /** `respToClient`: the bytes put on the wire are the frame, or a prefix of it with an error. */
  method RespToClient(kind: nat, body: Bytes, replies: seq<WriteReply>) returns (ok: bool, wire: Bytes)
    requires kind < TWO_32
    ensures |body| >= TWO_31 ==> ok && wire == []
    ensures |body| < TWO_31 ==>
              var f, w := Frame(Msg(kind, body)), Written(replies, HEADER_SIZE + |body|);
              wire == f[..w.0] && ok == w.1
  {
    if |body| >= TWO_31 {
      return true, [];
    }
    var buffer := Frame(Msg(kind, body));
    var offset, i := 0, 0;
    wire := [];
    while offset < |buffer|
      invariant 0 <= offset <= |buffer| && wire == buffer[..offset] && i <= |replies|
      invariant var all, rest := Written(replies, |buffer|), Written(replies[i..], |buffer| - offset);
                all == (offset + rest.0, rest.1)
      decreases |replies| - i
    {
      if i == |replies| {
        return false, wire;
      }
      var n := if replies[i].k <= |buffer| - offset then replies[i].k else |buffer| - offset;
      wire := wire + buffer[offset..offset + n];
      if replies[i].failed || n == 0 {
        return false, wire;
      }
      offset, i := offset + n, i + 1;
    }
    return true, wire;
  }
}
