/** From `copy_into_send_buffer` in the agent to `DispatchPacket` in the collector. */
module Delivery {
  import opened Bytes
  import opened Framing
  import opened SendPipe
  import opened Chunk
  import opened Connection
  import opened TransLayer
  import opened Collector

  /** Every span's frame fits half the collector's buffer. */
  ghost predicate SpansWithin(spans: seq<Bytes>, size: nat) {
    size >= 2 * HEADER_SIZE && forall i | 0 <= i < |spans| :: HEADER_SIZE + |spans[i]| <= size / 2
  }

  /** The messages of which the collector has got the whole frames, up to the first its buffer cannot hold. */
  ghost function Arrived(spans: seq<Bytes>, wire: Bytes, size: nat): (r: seq<Msg>)
    requires AllSpannable(spans)
  {
    var ms := SpanMsgs(spans);
    ms[..Wholes(ms, FirstLarge(ms, size), |wire|)]
  }

  /** What the collector makes of a connection that carried a prefix of the frames of `spans`. */
  ghost predicate Delivered(spans: seq<Bytes>, wire: Bytes, dispatched: seq<Msg>, stop: Stop,
                            size: nat, accept: seq<Msg> -> bool)
    requires AllSpannable(spans)
  {
    && dispatched <= Arrived(spans, wire, size) && Answered(dispatched, stop, accept)
    && (stop == EndOfInput ==> dispatched == Arrived(spans, wire, size))
    && (stop == EndOfInput || stop == Refused || (Turnable(wire, size, accept) && !SpansWithin(spans, size)))
  }

  /** Every packet before the last was accepted, and the last one unless it stopped the collector. */
  ghost predicate Answered(dispatched: seq<Msg>, stop: Stop, accept: seq<Msg> -> bool) {
    if stop == Refused then
      dispatched != [] && AllAccepted(dispatched[..|dispatched| - 1], accept) && !accept(dispatched)
    else AllAccepted(dispatched, accept)
  }

  /** What the reference parser makes of a cut-off stream of spans. */
  lemma {:induction false} ParseCutStream(spans: seq<Bytes>, wire: Bytes, size: nat)
    requires AllSpannable(spans) && wire <= Stream(spans)
    ensures Parse(wire, size).msgs == Arrived(spans, wire, size)
    ensures SpansWithin(spans, size) ==> PacketsWithin(wire, size, size / 2)
  {
    hide Parse, Frames, Frame;
    var ms := SpanMsgs(spans);
    ParseCut(ms, wire, size);
    var n := FirstLarge(ms, size);
    var k := Wholes(ms, n, |wire|);
    assert ms[..|ms|] == ms;
    if SpansWithin(spans, size) && k < |spans| {
      CutWanted(ms, wire, k);
    }
  }

  /** A cut-off frame announces its size. */
  lemma {:induction false} CutWanted(ms: seq<Msg>, wire: Bytes, k: nat)
    requires (forall m <- ms :: Sendable(m)) && wire <= Frames(ms) && k < |ms| && |Frames(ms[..k])| <= |wire|
    ensures Wanted(wire[|Frames(ms[..k])|..]) <= HEADER_SIZE + |ms[k].body|
  {
    hide Frames, Frame;
    var rest := wire[|Frames(ms[..k])|..];
    if |rest| >= HEADER_SIZE {
      FramesUpTo(ms, k, |ms|);
      assert ms[..|ms|] == ms && ms[k..|ms|] == [ms[k]] + ms[k + 1..];
      FramesCons(ms[k], ms[k + 1..]);
      assert rest <= Frames(ms[k..|ms|]);
      LengthOfFrame(ms[k], Frames(ms[k + 1..]));
      assert GetBE32(rest, 4) == GetBE32(Frames(ms[k..|ms|]), 4);
    }
  }

  /** End to end: a connection that carries a prefix of whole frames hands the collector the accepted
      spans, in order, up to the last whole frame; it is turned away only where some cutting of the
      stream is, and never when every frame fits half the buffer. */
  lemma {:induction false} DeliveredInOrder(spans: seq<Bytes>, wire: Bytes, cuts: seq<nat>, size: nat,
                                            accept: seq<Msg> -> bool)
    requires AllSpannable(spans) && wire <= Stream(spans)
    ensures var o := Serve(wire, cuts, size, accept, START);
            Delivered(spans, wire, o.dispatched, o.stop, size, accept)
  {
    hide Parse, Frames, Serve, Arrived, Turnable, Ready, PacketsWithin;
    var o := Serve(wire, cuts, size, accept, START);
    ParseCutStream(spans, wire, size);
    StartIsReady(wire, size, accept);
    ServeExplained(wire, cuts, size, accept, START);
    ParsedSoFar(wire, o.read, size);
    assert wire[..|wire|] == wire;
    if TurnedAway(o) {
      TurnedAwayOnly(wire, o.read, o.dispatched, o.stop, accept, size);
      if SpansWithin(spans, size) {
        HalfBufferSuffices(wire, size, accept);
      }
    }
  }

  /** Once a whole stream is on the wire, every span of it has arrived. */
  lemma AllArrived(spans: seq<Bytes>, size: nat)
    requires AllSpannable(spans) && SpansWithin(spans, size)
    ensures Arrived(spans, Stream(spans), size) == SpanMsgs(spans)
  {
    hide Frames;
    var ms := SpanMsgs(spans);
    assert ms[..|ms|] == ms;
  }

  /** The other direction: of the responses the collector writes, cut off anywhere, the agent's handlers
      see the whole ones before the first that does not fit the receive buffer; that one costs the
      connection as soon as its header is there. */
  lemma {:induction false} ResponsesHeard(before: seq<Msg>, ms: seq<Msg>, wire: Bytes, routes: set<int>,
                                          verdict: seq<Msg> -> bool)
    requires (forall m <- ms :: Sendable(m)) && wire <= Frames(ms)
    ensures forall m <- ms[..Wholes(ms, FirstLarge(ms, BODY_LIMIT), |wire|)] :: m.kind < TWO_32
    ensures var n := FirstLarge(ms, BODY_LIMIT);
            var k := Wholes(ms, n, |wire|);
            var d := Dispatch(before, ms[..k], routes, verdict);
            var tooLarge := k == n < |ms| && |wire| >= |Frames(ms[..n])| + HEADER_SIZE;
            Heard(before, wire, routes, verdict) == Calls(d.log, d.ok && !tooLarge)
  {
    hide Parse, Dispatch, Frames;
    ParseCut(ms, wire, BODY_LIMIT);
  }

  /** What the agent does over time. */
  datatype Op = Submit(span: Bytes) | PollOnce(poll: Poll) | SendAll(polls: seq<Poll>)

  /** Memory that the submissions among the first `n` operations can take at most. */
  function Load(ops: seq<Op>, n: nat): (r: nat)
    requires n <= |ops|
  {
    if n == 0 then 0 else Load(ops, n - 1) + if ops[n - 1].Submit? then FrameLoad(ops[n - 1].span) else 0
  }

  /** A connection and the memory its send buffer has allocated. */
  datatype Snap = Snap(conn: Conn, alloc: nat)

  /** One operation: a submission is accepted as a whole, or refused because the buffer may be full; a poll does
      exactly what it finds to do. An idle buffer keeps no more than the resident size. */
  ghost predicate Step(op: Op, s: Snap, t: Snap, routes: set<int>, verdict: seq<Msg> -> bool) {
    && s.conn.Ok() && t.conn.Ok() && (t.conn.sizes == [] ==> t.alloc <= CHUNK_HOLD_SIZE)
    && match op
       case Submit(span) => Submitted(span, s, t) || (t == s && s.alloc + HEADER_SIZE + |span| > CHUNK_MAX_SIZE)
       case PollOnce(poll) => t.conn == AfterPoll(s.conn, poll, routes, verdict) && t.alloc <= s.alloc
       case SendAll(polls) => t.conn == AfterPolls(s.conn, polls, 0, routes, verdict) && t.alloc <= s.alloc
  }

  ghost predicate Submitted(span: Bytes, s: Snap, t: Snap) {
    && t.conn == s.conn.(accepted := s.conn.accepted + [span], writing := true, sizes := t.conn.sizes)
    && t.alloc <= s.alloc + FrameLoad(span)
  }

  /** A run of operations, from a new connection on. */
  ghost predicate Ran(ops: seq<Op>, snaps: seq<Snap>, routes: set<int>, verdict: seq<Msg> -> bool) {
    && 1 <= |snaps| <= |ops| + 1 && snaps[0] == Snap(NEW_CONN, 0)
    && forall i | 0 <= i < |snaps| - 1 :: Step(ops[i], snaps[i], snaps[i + 1], routes, verdict)
  }

  lemma RanSnoc(ops: seq<Op>, snaps: seq<Snap>, t: Snap, routes: set<int>, verdict: seq<Msg> -> bool)
    requires Ran(ops, snaps, routes, verdict) && |snaps| <= |ops|
    requires Step(ops[|snaps| - 1], snaps[|snaps| - 1], t, routes, verdict)
    ensures Ran(ops, snaps + [t], routes, verdict)
  {
    hide Step;
  }

  /** A submission adds its span or nothing to the spans accepted; nothing else changes them. */
  lemma StepTaken(op: Op, s: Snap, t: Snap, routes: set<int>, verdict: seq<Msg> -> bool)
    requires Step(op, s, t, routes, verdict)
    ensures var was, now := s.conn.Taken(), t.conn.Taken();
            if op.Submit? then now == (if t.conn.accepted == s.conn.accepted then was else was + [op.span]) else now == was
  {
    hide Conn.Ok, AfterPoll;
    match op
    case Submit(span) => AllSpansSnoc(s.conn.history, s.conn.accepted, span);
    case PollOnce(poll) => PollKeepsTaken(s.conn, poll, routes, verdict);
    case SendAll(polls) => PollsKeepTaken(s.conn, polls, 0, routes, verdict);
  }

  lemma {:induction false} PollsKeepTaken(c: Conn, polls: seq<Poll>, i: nat, routes: set<int>,
                                          verdict: seq<Msg> -> bool)
    requires c.Ok()
    ensures AfterPolls(c, polls, i, routes, verdict).Taken() == c.Taken()
    decreases |polls| - i
  {
    hide Conn.Ok, AfterPoll, Conn.Taken;
    if c.writing && i < MAX_RETRY_ITEMS && i < |polls| {
      PollKeepsTaken(c, polls[i], routes, verdict);
      PollsKeepTaken(AfterPoll(c, polls[i], routes, verdict), polls, i + 1, routes, verdict);
    }
  }

  /** Over any run the memory is bounded by what was submitted, so a span is refused only when the submissions
      before it may have filled the buffer. */
  lemma {:induction false} RanWithin(ops: seq<Op>, snaps: seq<Snap>, i: nat, routes: set<int>,
                                     verdict: seq<Msg> -> bool)
    requires Ran(ops, snaps, routes, verdict) && i < |snaps|
    ensures snaps[i].alloc <= Load(ops, i) && snaps[i].conn.Ok()
  {
    hide Conn.Ok, AfterPoll, AfterPolls, FrameLoad;
    if i == 0 {
      NewIsOk();
    } else {
      RanWithin(ops, snaps, i - 1, routes, verdict);
      assert Step(ops[i - 1], snaps[i - 1], snaps[i], routes, verdict);
    }
  }

  lemma NewIsOk()
    ensures NEW_CONN.Ok()
  {
    StreamEmpty();
  }

  /** An operation that meets no error. */
  ghost predicate Calm(op: Op) {
    match op
    case Submit(_) => true
    case PollOnce(poll) => CalmPoll(poll)
    case SendAll(polls) => forall p <- polls :: CalmPoll(p)
  }

  /** An operation that opens no descriptor beyond those `select` can watch. */
  predicate Connectable(op: Op) {
    match op
    case Submit(_) => true
    case PollOnce(poll) => Connects(poll)
    case SendAll(polls) => forall p <- polls :: Connects(p)
  }

  lemma {:induction false} CalmPolls(c: Conn, polls: seq<Poll>, i: nat, routes: set<int>, verdict: seq<Msg> -> bool)
    requires c.Ok() && AtEase(c, verdict) && forall p <- polls :: CalmPoll(p)
    ensures var d := AfterPolls(c, polls, i, routes, verdict); AtEase(d, verdict) && d.history == c.history
    decreases |polls| - i
  {
    hide Conn.Ok, AfterPoll, AtEase, CalmPoll;
    if c.writing && i < MAX_RETRY_ITEMS && i < |polls| {
      CalmStays(c, polls[i], routes, verdict);
      CalmPolls(AfterPoll(c, polls[i], routes, verdict), polls, i + 1, routes, verdict);
    }
  }

  lemma CalmStep(op: Op, s: Snap, t: Snap, routes: set<int>, verdict: seq<Msg> -> bool)
    requires Step(op, s, t, routes, verdict) && AtEase(s.conn, verdict) && Calm(op)
    ensures AtEase(t.conn, verdict) && t.conn.history == s.conn.history
  {
    hide Conn.Ok, AfterPoll, AfterPolls, CalmPoll, WholeMessages;
    match op
    case Submit(_) =>
    case PollOnce(poll) => CalmStays(s.conn, poll, routes, verdict);
    case SendAll(polls) => CalmPolls(s.conn, polls, 0, routes, verdict);
  }

  /** A run that meets no error stays on its first connection. */
  lemma {:induction false} RanCalm(ops: seq<Op>, snaps: seq<Snap>, i: nat, routes: set<int>, verdict: seq<Msg> -> bool)
    requires Ran(ops, snaps, routes, verdict) && i < |snaps| && Obliging(verdict) && forall op <- ops :: Calm(op)
    ensures AtEase(snaps[i].conn, verdict) && snaps[i].conn.history == []
  {
    hide Step, Calm, Parse;
    if i == 0 {
      HeardNothing([], {}, verdict);
    } else {
      RanCalm(ops, snaps, i - 1, routes, verdict);
      CalmStep(ops[i - 1], snaps[i - 1], snaps[i], routes, verdict);
    }
  }

  lemma {:induction false} WatchablePolls(c: Conn, polls: seq<Poll>, i: nat, routes: set<int>,
                                          verdict: seq<Msg> -> bool)
    requires c.Ok() && Watchable(c.fd) && forall p <- polls :: Connects(p)
    ensures Watchable(AfterPolls(c, polls, i, routes, verdict).fd)
    decreases |polls| - i
  {
    hide Conn.Ok, AfterPoll, Watchable, Connects;
    if c.writing && i < MAX_RETRY_ITEMS && i < |polls| {
      StaysWatchable(c, polls[i], routes, verdict);
      WatchablePolls(AfterPoll(c, polls[i], routes, verdict), polls, i + 1, routes, verdict);
    }
  }

  lemma WatchableStep(op: Op, s: Snap, t: Snap, routes: set<int>, verdict: seq<Msg> -> bool)
    requires Step(op, s, t, routes, verdict) && Watchable(s.conn.fd) && Connectable(op)
    ensures Watchable(t.conn.fd)
  {
    hide Conn.Ok, AfterPoll, AfterPolls;
    match op
    case Submit(_) =>
    case PollOnce(poll) => StaysWatchable(s.conn, poll, routes, verdict);
    case SendAll(polls) => WatchablePolls(s.conn, polls, 0, routes, verdict);
  }

  lemma {:induction false} RanWatchable(ops: seq<Op>, snaps: seq<Snap>, i: nat, routes: set<int>,
                                        verdict: seq<Msg> -> bool)
    requires Ran(ops, snaps, routes, verdict) && i < |snaps| && forall op <- ops :: Connectable(op)
    ensures Watchable(snaps[i].conn.fd)
  {
    hide Step, Connectable;
    if i == 0 {
    } else {
      RanWatchable(ops, snaps, i - 1, routes, verdict);
      WatchableStep(ops[i - 1], snaps[i - 1], snaps[i], routes, verdict);
    }
  }

  /** An operation that empties the send buffer without error. */
  ghost predicate FlushOp(op: Op, verdict: seq<Msg> -> bool) {
    match op
    case Submit(_) => false
    case PollOnce(poll) => Writes(poll) && CalmFlush(verdict, poll)
    case SendAll(polls) => polls != [] && Writes(polls[0]) && forall p <- polls :: CalmFlush(verdict, p)
  }

  lemma {:induction false} NothingPendingLater(c: Conn, polls: seq<Poll>, i: nat, routes: set<int>,
                                               verdict: seq<Msg> -> bool)
    requires c.Ok() && c.sizes == []
    ensures AfterPolls(c, polls, i, routes, verdict).sizes == []
    decreases |polls| - i
  {
    hide Conn.Ok, AfterPoll;
    if c.writing && i < MAX_RETRY_ITEMS && i < |polls| {
      NothingPending(c, polls[i], routes, verdict);
      NothingPendingLater(AfterPoll(c, polls[i], routes, verdict), polls, i + 1, routes, verdict);
    }
  }

  /** An error-free poll survives. */
  lemma CalmSurvives(c: Conn, poll: Poll, routes: set<int>, verdict: seq<Msg> -> bool)
    requires c.Ok() && AtEase(c, verdict) && CalmFlush(verdict, poll) && poll.select.Selected?
    ensures Survives(c, poll, routes, verdict)
  {
    hide Heard, WholeMessages, Conn.Ok;
    if poll.select.readable {
      HeardWhole(c.before, c.received, poll.select.incoming, routes, verdict);
    }
  }

  lemma FlushStep(op: Op, s: Snap, t: Snap, routes: set<int>, verdict: seq<Msg> -> bool)
    requires Step(op, s, t, routes, verdict) && AtEase(s.conn, verdict) && FlushOp(op, verdict)
    ensures t.conn.sizes == [] && t.alloc <= CHUNK_HOLD_SIZE
  {
    hide AfterPoll, AtEase, CalmFlush, Writes, Survives, Stream;
    var c := s.conn;
    match op
    case PollOnce(poll) =>
      WritesSelects(poll);
      CalmSurvives(c, poll, routes, verdict);
      FlushOutcome(c, poll, routes, verdict);
    case SendAll(polls) =>
      WritesSelects(polls[0]);
      CalmSurvives(c, polls[0], routes, verdict);
      FlushOutcome(c, polls[0], routes, verdict);
      if c.writing {
        NothingPendingLater(AfterPoll(c, polls[0], routes, verdict), polls, 1, routes, verdict);
      }
  }

  lemma WritesSelects(poll: Poll)
    requires Writes(poll)
    ensures poll.select.Selected?
  {
  }

  /** The operation `op` of a schedule. */
  method RunOp(t: TransLayer, op: Op)
    requires op.Submit? ==> Spannable(op.span)
    requires t.Valid()
    modifies t, t.chunks, t.pipe, t.inBuf
    ensures t.Valid()
    ensures var was, now := Snap(old(t.View()), old(t.chunks.allocSize)), Snap(t.View(), t.chunks.allocSize);
            Step(op, was, now, t.routes, t.verdict)
  {
    hide AllSpans, FrameLoad, Contents, Capacity, Sizes, Drain, Stream, Heard, AfterPoll, AfterPolls, Conn.Ok;
    t.ViewOk();
    match op {
      case Submit(span) => var _ := t.CopyIntoSendBuffer(span);
      case PollOnce(poll) => var _ := t.PoolEventOnce(poll);
      case SendAll(polls) => var _ := t.SyncSendAll(polls);
    }
    t.ViewOk();
  }

  /** Any schedule of submissions, polls, partial writes, errors and resets. */
  method RunAgent(ops: seq<Op>, routes: set<int>, verdict: seq<Msg> -> bool) returns (t: TransLayer, snaps: seq<Snap>)
    requires forall op <- ops :: op.Submit? ==> Spannable(op.span)
    ensures fresh(t) && fresh(t.chunks) && fresh(t.pipe) && fresh(t.inBuf) && t.Valid()
    ensures t.routes == routes && t.verdict == verdict
    ensures |snaps| == |ops| + 1 && Ran(ops, snaps, routes, verdict)
    ensures snaps[|ops|] == Snap(t.View(), t.chunks.allocSize)
  {
    hide Ran, Step, Chunks.Valid, TransLayer.RecvValid, Stream, Contents, HistoryOk, AllSpannable, Sizes;
    t := new TransLayer(routes, verdict);
    snaps := [Snap(t.View(), t.chunks.allocSize)];
    StartRan(ops, snaps[0], routes, verdict);
    for i := 0 to |ops|
      invariant fresh(t) && fresh(t.chunks) && fresh(t.pipe) && fresh(t.inBuf) && t.Valid()
      invariant t.routes == routes && t.verdict == verdict
      invariant |snaps| == i + 1 && Ran(ops, snaps, routes, verdict) && snaps[i] == Snap(t.View(), t.chunks.allocSize)
    {
      RunOp(t, ops[i]);
      var snap := Snap(t.View(), t.chunks.allocSize);
      RanSnoc(ops, snaps, snap, routes, verdict);
      snaps := snaps + [snap];
    }
  }

  lemma StartRan(ops: seq<Op>, s: Snap, routes: set<int>, verdict: seq<Msg> -> bool)
    requires s == Snap(NEW_CONN, 0)
    ensures Ran(ops, [s], routes, verdict)
  {
  }

  /** What connection `k` of a run carried, and the spans queued for it; the last one is the current one. */
  function Carried(c: Conn, k: nat): (r: (Bytes, seq<Bytes>)) {
    if k < |c.history| then c.history[k] else (c.wire, c.accepted)
  }

  /** Any connection of any such run, closed or current, read by the collector in any pieces. */
  method EndToEnd(ops: seq<Op>, routes: set<int>, verdict: seq<Msg> -> bool, connection: nat,
                  cuts: seq<nat>, size: nat, accept: seq<Msg> -> bool)
    returns (snaps: seq<Snap>, dispatched: seq<Msg>, stop: Stop)
    requires forall op <- ops :: op.Submit? ==> Spannable(op.span)
    requires size <= MAX_RECV_BUF
    ensures |snaps| == |ops| + 1 && Ran(ops, snaps, routes, verdict)
    ensures var (carried, spans) := Carried(snaps[|ops|].conn, connection);
            && AllSpannable(spans) && carried <= Stream(spans)
            && Delivered(spans, carried, dispatched, stop, size, accept)
  {
    hide Ran, Delivered, Stream, Serve;
    var t;
    t, snaps := RunAgent(ops, routes, verdict);
    var c := t.View();
    var (carried, spans) := Carried(c, connection);
    t.ViewOk();
    assert connection < |t.history| ==> t.history[connection] in t.history;
    var read;
    dispatched, stop, read := HandleClient(carried, cuts, size, accept);
    DeliveredInOrder(spans, carried, cuts, size, accept);
  }

  /** The connection is there and the poll meets no error. */
  ghost predicate CalmFlush(verdict: seq<Msg> -> bool, poll: Poll) {
    Obliging(verdict) && CalmPoll(poll) && Reaches(poll)
  }

  predicate QuietPoll(poll: Poll) {
    Reaches(poll) && poll.select.Selected? && !poll.select.except && !poll.select.readable
  }

  /** From any valid state one such poll empties the buffer onto the wire. */
  method Flush(t: TransLayer, poll: Poll) returns (ret: int)
    requires t.Valid() && Writes(poll)
    modifies t, t.chunks, t.pipe, t.inBuf
    ensures t.Valid() && t.Taken() == old(t.Taken())
    ensures old(t.View()).Ok() && t.View() == AfterPoll(old(t.View()), poll, t.routes, t.verdict)
    ensures ret == if Survives(old(t.View()), poll, t.routes, t.verdict) then 0 else -1
    ensures ret == 0 ==> t.accepted == old(t.accepted) && t.history == old(t.history)
    ensures ret == 0 ==> t.pipe.wire == Stream(t.accepted) && t.chunks.Pending() == []
    ensures ret == 0 ==> t.chunks.allocSize <= CHUNK_HOLD_SIZE
  {
    hide Stream, Contents, Sizes, AllSpans, Survives, Expected, AfterPoll, Writes, Conn.Ok;
    t.ViewOk();
    FlushOutcome(t.View(), poll, t.routes, t.verdict);
    ret := t.PoolEventOnce(poll);
    t.ViewOk();
  }

  /** When such a poll after a run keeps the connection. */
  lemma FlushKeeps(ops: seq<Op>, snaps: seq<Snap>, poll: Poll, routes: set<int>, verdict: seq<Msg> -> bool)
    requires |snaps| == |ops| + 1 && Ran(ops, snaps, routes, verdict) && Writes(poll)
    ensures (forall op <- ops :: Connectable(op)) && QuietPoll(poll) ==> Survives(snaps[|ops|].conn, poll, routes, verdict)
    ensures (forall op <- ops :: Calm(op)) && CalmFlush(verdict, poll) ==>
              Survives(snaps[|ops|].conn, poll, routes, verdict) && snaps[|ops|].conn.history == []
  {
    hide Ran, Calm, Connectable, Takes, CalmPoll, WholeMessages, Heard;
    RanWithin(ops, snaps, |ops|, routes, verdict);
    if forall op <- ops :: Connectable(op) {
      RanWatchable(ops, snaps, |ops|, routes, verdict);
    }
    if (forall op <- ops :: Calm(op)) && CalmFlush(verdict, poll) {
      RanCalm(ops, snaps, |ops|, routes, verdict);
      CalmSurvives(snaps[|ops|].conn, poll, routes, verdict);
    }
  }

  /** Any run, then such a poll: unless the poll costs the connection, the collector gets every span
      accepted since the last reset. */
  method FlushDelivery(ops: seq<Op>, routes: set<int>, verdict: seq<Msg> -> bool, poll: Poll,
                       cuts: seq<nat>, size: nat, accept: seq<Msg> -> bool)
    returns (snaps: seq<Snap>, ret: int, dispatched: seq<Msg>, stop: Stop)
    requires Writes(poll) && size <= MAX_RECV_BUF && forall op <- ops :: op.Submit? ==> Spannable(op.span)
    ensures |snaps| == |ops| + 1 && Ran(ops, snaps, routes, verdict)
    ensures ret == if Survives(snaps[|ops|].conn, poll, routes, verdict) then 0 else -1
    ensures ret == 0 ==>
              var spans := snaps[|ops|].conn.accepted;
              AllSpannable(spans) && Delivered(spans, Stream(spans), dispatched, stop, size, accept)
    ensures (forall op <- ops :: Connectable(op)) && QuietPoll(poll) ==> ret == 0
    ensures (forall op <- ops :: Calm(op)) && CalmFlush(verdict, poll) ==> ret == 0 && snaps[|ops|].conn.history == []
  {
    hide Ran, Delivered, Stream, Serve, Connectable, Calm, CalmFlush, QuietPoll, Survives, Writes, AfterPoll, Conn.Ok;
    var t;
    t, snaps := RunAgent(ops, routes, verdict);
    FlushKeeps(ops, snaps, poll, routes, verdict);
    ret := Flush(t, poll);
    var read;
    dispatched, stop, read := HandleClient(t.pipe.wire, cuts, size, accept);
    DeliveredInOrder(t.accepted, t.pipe.wire, cuts, size, accept);
  }

  /** A run that meets no error, then such a poll: the collector dispatches every accepted span, unless
      `parsePacket` stops it. */
  method CalmDelivery(ops: seq<Op>, routes: set<int>, verdict: seq<Msg> -> bool, poll: Poll,
                      cuts: seq<nat>, size: nat, accept: seq<Msg> -> bool)
    returns (snaps: seq<Snap>, dispatched: seq<Msg>, stop: Stop)
    requires forall op <- ops :: Calm(op) && (op.Submit? ==> Spannable(op.span))
    requires Writes(poll) && CalmFlush(verdict, poll) && size <= MAX_RECV_BUF
    ensures |snaps| == |ops| + 1 && Ran(ops, snaps, routes, verdict) && AllSpannable(snaps[|ops|].conn.Taken())
    ensures var spans := snaps[|ops|].conn.Taken();
            && Delivered(spans, Stream(spans), dispatched, stop, size, accept)
            && (SpansWithin(spans, size) ==>
                  var ms := SpanMsgs(spans);
                  if stop == Refused then dispatched <= ms else dispatched == ms)
  {
    hide Stream, Ran, Calm, CalmFlush, Writes, Arrived, Turnable;
    var ret;
    snaps, ret, dispatched, stop := FlushDelivery(ops, routes, verdict, poll, cuts, size, accept);
    ghost var spans := snaps[|ops|].conn.accepted;
    if SpansWithin(spans, size) {
      AllArrived(spans, size);
    }
  }

  /** Once everything pending has been written, any span up to the difference of the two limits is accepted,
      whatever was submitted before. */
  method SubmitAfterFlush(ops: seq<Op>, routes: set<int>, verdict: seq<Msg> -> bool, poll: Poll, span: Bytes)
    returns (snaps: seq<Snap>, t: TransLayer, ret: int, ok: bool)
    requires Writes(poll) && Spannable(span) && forall op <- ops :: op.Submit? ==> Spannable(op.span)
    ensures |snaps| == |ops| + 1 && Ran(ops, snaps, routes, verdict) && fresh(t) && t.Valid()
    ensures ret == if Survives(snaps[|ops|].conn, poll, routes, verdict) then 0 else -1
    ensures t.Taken() == snaps[|ops|].conn.Taken() + if ok then [span] else []
    ensures ret == 0 ==>
              var c := snaps[|ops|].conn;
              AllSpannable(c.accepted) && t.pipe.wire == Stream(c.accepted) && t.history == c.history
    ensures ret == 0 && HEADER_SIZE + |span| <= CHUNK_MAX_SIZE - CHUNK_HOLD_SIZE ==> ok
    ensures (forall op <- ops :: Connectable(op)) && QuietPoll(poll) ==> ret == 0
  {
    hide Ran, Stream, Connectable, Calm, CalmFlush, QuietPoll, Survives, Writes, AllSpans, AfterPoll, Conn.Ok;
    t, snaps := RunAgent(ops, routes, verdict);
    FlushKeeps(ops, snaps, poll, routes, verdict);
    ret := Flush(t, poll);
    ok := t.CopyIntoSendBuffer(span);
  }

  /** `respToClient` for one response after the other, until a write fails. */
  method Respond(ms: seq<Msg>, replies: seq<seq<WriteReply>>) returns (wire: Bytes, done: nat)
    requires |replies| == |ms| && forall i | 0 <= i < |ms| :: ms[i].kind < TWO_32 && |ms[i].body| < TWO_31
    ensures (forall m <- ms :: Sendable(m)) && done <= |ms|
    ensures Frames(ms[..done]) <= wire <= Frames(ms) && (done == |ms| ==> wire == Frames(ms))
    ensures done < |ms| ==> !Written(replies[done], |Frame(ms[done])|).1
    ensures forall i | 0 <= i < done :: Written(replies[i], |Frame(ms[i])|).1
  {
    hide Frames, Frame, Written;
    wire, done := [], 0;
    FramesNone(ms);
    while done < |ms|
      invariant done <= |ms| && wire == Frames(ms[..done])
      invariant forall i | 0 <= i < done :: Written(replies[i], |Frame(ms[i])|).1
      decreases |ms| - done
    {
      var ok, bytes := RespToClient(ms[done].kind, ms[done].body, replies[done]);
      FramesTo(ms, done);
      wire := wire + bytes;
      if !ok {
        return;
      }
      done := done + 1;
    }
    assert ms[..done] == ms;
  }

  lemma FramesNone(ms: seq<Msg>)
    ensures Frames(ms[..0]) == []
  {
  }

  lemma {:induction false} FramesTo(ms: seq<Msg>, i: nat)
    requires i < |ms| && forall m <- ms :: Sendable(m)
    ensures Frames(ms[..i + 1]) == Frames(ms[..i]) + Frame(ms[i])
    ensures forall n | 0 <= n <= |Frame(ms[i])| :: Frames(ms[..i]) + Frame(ms[i])[..n] <= Frames(ms)
  {
    hide Frames, Frame;
    assert ms[..i + 1] == ms[..i] + [ms[i]] && ms == ms[..|ms|];
    FramesSnoc(ms[..i], ms[i]);
    FramesUpTo(ms, i + 1, |ms|);
  }

  /** What the collector writes and the agent then makes of it, however writes and reads cut it. */
  method HearResponses(ms: seq<Msg>, replies: seq<seq<WriteReply>>, cuts: seq<nat>, end: RecvEnd,
                       routes: set<int>, verdict: seq<Msg> -> bool)
    returns (wire: Bytes, calls: seq<Msg>, ret: int)
    requires |replies| == |ms| && forall i | 0 <= i < |ms| :: ms[i].kind < TWO_32 && |ms[i].body| < TWO_31
    ensures (forall m <- ms :: Sendable(m)) && wire <= Frames(ms)
    ensures (forall i | 0 <= i < |ms| :: Written(replies[i], |Frame(ms[i])|).1) ==> wire == Frames(ms)
    ensures forall m <- ms[..Wholes(ms, FirstLarge(ms, BODY_LIMIT), |wire|)] :: m.kind < TWO_32
    ensures var n := FirstLarge(ms, BODY_LIMIT);
            var k := Wholes(ms, n, |wire|);
            var d := Dispatch([], ms[..k], routes, verdict);
            var tooLarge := k == n < |ms| && |wire| >= |Frames(ms[..n])| + HEADER_SIZE;
            calls == d.log && ret == if d.ok && !tooLarge && end == Drained then 0 else -1
  {
    hide Frames, Frame, Written, Dispatch, Wholes, FirstLarge, Heard, Parse, TransLayer.SendValid, TransLayer.View;
    var done;
    wire, done := Respond(ms, replies);
    var t := new TransLayer(routes, verdict);
    ret := t.RecvByteStream(wire, cuts, end);
    assert [] + wire == wire;
    ResponsesHeard([], ms, wire, routes, verdict);
    calls := t.calls;
  }

  /** A response with a body of `n` bytes reaches its handler and leaves the connection alone exactly when
      `n` is at most 4088: the collector writes longer ones too. */
  method LargestResponse(kind: nat, n: nat) returns (calls: seq<Msg>, ret: int)
    requires kind < TWO_32 && n < TWO_31
    ensures ret == if n <= 4088 then 0 else -1
    ensures |calls| == if n <= 4088 then 1 else 0
  {
    hide Frames, Frame;
    var m, reply := Msg(kind, seq(n, _ => 0)), Wrote(HEADER_SIZE + n, false);
    assert Written([reply], HEADER_SIZE + n) == (HEADER_SIZE + n, true) by {
      assert Written([reply][1..], 0) == (0, true);
    }
    var wire;
    wire, calls, ret := HearResponses([m], [[reply]], [], Drained, {AsInt32(kind)}, _ => true);
    FramesOne(m);
    FramesNone([m]);
    assert [m][..1] == [m] && [m][1..] == [];
  }
}
