/** What a connection of the agent carries and hears, on values: the stream of accepted spans, the handler calls
    for the bytes received, and the state a poll leaves behind. */
module Connection {
  import opened Bytes
  import opened Framing
  import opened SendPipe
  import opened Chunk

  const IN_MSG_BUF_SIZE: nat := 4096
  const BODY_LIMIT: nat := IN_MSG_BUF_SIZE - HEADER_SIZE
  const CHUNK_MAX_SIZE: nat := 10 * 1024 * 1024
  const CHUNK_HOLD_SIZE: nat := 40 * 1024
  const ALLOC_BOUND: nat := 2 * CHUNK_MAX_SIZE + 2048
  const FD_SETSIZE: int := 1024
  const REQ_UPDATE_SPAN: nat := 1
  const MAX_RETRY_ITEMS: nat := 20

  /** A span whose size, added to what the buffer may hold, a 32-bit word can express. */
  predicate Spannable(span: Bytes) {
    |span| + HEADER_SIZE + ALLOC_BOUND < TWO_32
  }

  /** Memory that queueing a span's frame can take at most: two chunks. */
  function FrameLoad(span: Bytes): (n: nat) {
    2 * |span| + 2 * THRESHOLD + 2 * CHUNK_HEADER
  }

  ghost predicate AllSpannable(spans: seq<Bytes>) {
    forall i | 0 <= i < |spans| :: Spannable(spans[i])
  }

  ghost function SpanMsgs(spans: seq<Bytes>): (r: seq<Msg>)
    requires AllSpannable(spans)
    ensures |r| == |spans| && forall i | 0 <= i < |r| :: r[i] == Msg(REQ_UPDATE_SPAN, spans[i])
    ensures forall m <- r :: Sendable(m)
  {
    seq(|spans|, i requires 0 <= i < |spans| => Msg(REQ_UPDATE_SPAN, spans[i]))
  }

  /** What a connection carries when nothing is cut off: whole frames, in order. */
  ghost function Stream(spans: seq<Bytes>): (r: Bytes)
    requires AllSpannable(spans)
  {
    Frames(SpanMsgs(spans))
  }

  lemma StreamEmpty()
    ensures Stream([]) == []
  {
    assert SpanMsgs([]) == [];
  }

  lemma StreamSnoc(spans: seq<Bytes>, span: Bytes)
    requires Spannable(span) && AllSpannable(spans)
    ensures AllSpannable(spans + [span])
    ensures Stream(spans + [span]) == Stream(spans) + Frame(Msg(REQ_UPDATE_SPAN, span))
  {
    var m := Msg(REQ_UPDATE_SPAN, span);
    assert SpanMsgs(spans + [span]) == SpanMsgs(spans) + [m];
    FramesConcat(SpanMsgs(spans), [m]);
    FramesCons(m, []);
    assert [m] + [] == [m] && Frame(m) + [] == Frame(m);
  }

  /** The handler calls for `ms`, after `log`: unrouted types are skipped, the first failing call is the last. */
  datatype Calls = Calls(log: seq<Msg>, ok: bool)

  function Dispatch(log: seq<Msg>, ms: seq<Msg>, routes: set<int>, verdict: seq<Msg> -> bool): (r: Calls)
    requires forall m <- ms :: m.kind < TWO_32
    decreases |ms|
  {
    if ms == [] then Calls(log, true)
    else if AsInt32(ms[0].kind) !in routes then Dispatch(log, ms[1..], routes, verdict)
    else if verdict(log + [ms[0]]) then Dispatch(log + [ms[0]], ms[1..], routes, verdict)
    else Calls(log + [ms[0]], false)
  }

  /** The messages some handler is registered for: the type is looked up as a signed number. */
  predicate HasRoute(m: Msg, routes: set<int>) {
    (if m.kind < TWO_31 then m.kind else m.kind - TWO_32) in routes
  }

  function Routed(ms: seq<Msg>, routes: set<int>): (r: seq<Msg>) {
    if ms == [] then []
    else
      var before, last := Routed(ms[..|ms| - 1], routes), ms[|ms| - 1];
      if HasRoute(last, routes) then before + [last] else before
  }

  /** Which calls are made: those for the routed messages in order, all of them, or up to and with the first
      that fails. */
  lemma {:induction false} DispatchIs(log: seq<Msg>, ms: seq<Msg>, routes: set<int>, verdict: seq<Msg> -> bool)
    returns (n: nat)
    requires forall m <- ms :: m.kind < TWO_32
    ensures n <= |ms|
    ensures var d := Dispatch(log, ms, routes, verdict);
            && d.log == log + Routed(ms[..n], routes)
            && (if d.ok then n == |ms| else n > 0 && HasRoute(ms[n - 1], routes) && !verdict(d.log))
    ensures forall i | 0 <= i < n && (i < n - 1 || Dispatch(log, ms, routes, verdict).ok) ::
              HasRoute(ms[i], routes) ==> verdict(log + Routed(ms[..i + 1], routes))
  {
    n := 0;
    assert ms[0..] == ms && log + Routed(ms[..0], routes) == log;
    while n < |ms|
      invariant n <= |ms|
      invariant Dispatch(log, ms, routes, verdict) == Dispatch(log + Routed(ms[..n], routes), ms[n..], routes, verdict)
      invariant forall i | 0 <= i < n :: HasRoute(ms[i], routes) ==> verdict(log + Routed(ms[..i + 1], routes))
    {
      var done, m := Routed(ms[..n], routes), ms[n];
      assert ms[..n + 1][..n] == ms[..n] && ms[n..][0] == m && ms[n..][1..] == ms[n + 1..];
      assert (log + done) + [m] == log + (done + [m]);
      n := n + 1;
      if HasRoute(m, routes) && !verdict(log + Routed(ms[..n], routes)) {
        return;
      }
    }
  }

  lemma {:induction false} DispatchCons(log: seq<Msg>, m: Msg, ms: seq<Msg>, routes: set<int>,
                                        verdict: seq<Msg> -> bool)
    requires m.kind < TWO_32 && forall k <- ms :: k.kind < TWO_32
    ensures Dispatch(log, [m] + ms, routes, verdict) ==
            if AsInt32(m.kind) !in routes then Dispatch(log, ms, routes, verdict)
            else if verdict(log + [m]) then Dispatch(log + [m], ms, routes, verdict)
            else Calls(log + [m], false)
  {
    assert ([m] + ms)[1..] == ms;
  }

  lemma {:induction false} DispatchConcat(log: seq<Msg>, a: seq<Msg>, b: seq<Msg>, routes: set<int>,
                                          verdict: seq<Msg> -> bool)
    requires (forall m <- a :: m.kind < TWO_32) && forall m <- b :: m.kind < TWO_32
    ensures forall m <- a + b :: m.kind < TWO_32
    ensures var first := Dispatch(log, a, routes, verdict);
            Dispatch(log, a + b, routes, verdict) == if first.ok then Dispatch(first.log, b, routes, verdict) else first
    decreases |a|
  {
    if a == [] {
      assert a + b == b;
    } else {
      assert (a + b)[1..] == a[1..] + b;
      DispatchConcat(if AsInt32(a[0].kind) in routes then log + [a[0]] else log, a[1..], b, routes, verdict);
    }
  }

  /** One pass over a buffer: the calls made and the offset reached, -1 when the pass is abandoned. */
  ghost function Walk(buf: Bytes, at: nat, log: seq<Msg>, routes: set<int>,
                      verdict: seq<Msg> -> bool): (r: (seq<Msg>, int))
    requires at <= |buf|
    decreases |buf| - at
  {
    if |buf| - at < HEADER_SIZE then (log, at)
    else
      var n := GetBE32(buf, at + 4);
      var next := at + HEADER_SIZE + n;
      if n > BODY_LIMIT then (log, -1)
      else if next > |buf| then (log, at)
      else
        var m := Msg(GetBE32(buf, at), buf[at + HEADER_SIZE..next]);
        if AsInt32(m.kind) !in routes then Walk(buf, next, log, routes, verdict)
        else if verdict(log + [m]) then Walk(buf, next, log + [m], routes, verdict)
        else (log + [m], -1)
  }

  /** The pass finds the messages of the reference parser and makes their calls. */
  lemma {:induction false} WalkIsParse(buf: Bytes, at: nat, log: seq<Msg>, routes: set<int>, verdict: seq<Msg> -> bool)
    requires at <= |buf|
    ensures var p := Parse(buf[at..], BODY_LIMIT);
            var d := Dispatch(log, p.msgs, routes, verdict);
            Walk(buf, at, log, routes, verdict) == (d.log, if d.ok && !p.tooLong then |buf| - |p.rest| else -1)
    decreases |buf| - at
  {
    hide Parse;
    if |buf| - at < HEADER_SIZE {
      ParseStep(buf[at..], BODY_LIMIT);
    } else {
      ParseAt(buf, at, BODY_LIMIT);
      var n := GetBE32(buf, at + 4);
      var next := at + HEADER_SIZE + n;
      if n <= BODY_LIMIT && next <= |buf| {
        var m := Msg(GetBE32(buf, at), buf[at + HEADER_SIZE..next]);
        DispatchCons(log, m, Parse(buf[next..], BODY_LIMIT).msgs, routes, verdict);
        WalkIsParse(buf, next, if AsInt32(m.kind) in routes then log + [m] else log, routes, verdict);
      }
    }
  }

  /** The calls a connection's bytes lead to, and whether the connection survives them. */
  ghost function Heard(before: seq<Msg>, stream: Bytes, routes: set<int>, verdict: seq<Msg> -> bool): (r: Calls) {
    var p := Parse(stream, BODY_LIMIT);
    var d := Dispatch(before, p.msgs, routes, verdict);
    Calls(d.log, d.ok && !p.tooLong)
  }

  lemma HeardNothing(before: seq<Msg>, routes: set<int>, verdict: seq<Msg> -> bool)
    ensures Heard(before, [], routes, verdict) == Calls(before, true) && Parse([], BODY_LIMIT).rest == []
  {
    hide Parse;
    ParseStep([], BODY_LIMIT);
  }

  /** After a fatal message nothing that follows is looked at. */
  lemma HeardNoMore(before: seq<Msg>, s: Bytes, t: Bytes, routes: set<int>, verdict: seq<Msg> -> bool)
    requires !Heard(before, s, routes, verdict).ok
    ensures Heard(before, s + t, routes, verdict) == Heard(before, s, routes, verdict)
  {
    hide Parse, Dispatch;
    var p := Parse(s, BODY_LIMIT);
    if p.tooLong {
      ParseRejected(s, t, BODY_LIMIT);
    } else {
      ParseAppend(s, t, BODY_LIMIT);
      DispatchConcat(before, p.msgs, Parse(p.rest + t, BODY_LIMIT).msgs, routes, verdict);
    }
  }

  /** More bytes for a connection: the leftover and the new bytes are parsed as the whole stream would be. */
  lemma {:induction false} PassIsWholeStream(received: Bytes, more: Bytes, before: seq<Msg>, log: seq<Msg>,
                          routes: set<int>, verdict: seq<Msg> -> bool)
    requires Heard(before, received, routes, verdict) == Calls(log, true)
    ensures var buf := Parse(received, BODY_LIMIT).rest + more;
            var q := Parse(received + more, BODY_LIMIT);
            var h := Heard(before, received + more, routes, verdict);
            && Walk(buf, 0, log, routes, verdict) == (h.log, if h.ok then |buf| - |q.rest| else -1)
            && (h.ok ==> |q.rest| <= |buf| && q.rest == buf[|buf| - |q.rest|..] && |q.rest| < IN_MSG_BUF_SIZE)
  {
    hide Parse, Dispatch, Walk, FirstMsg;
    var p := Parse(received, BODY_LIMIT);
    var buf := p.rest + more;
    var r := Parse(buf, BODY_LIMIT);
    ParseAppend(received, more, BODY_LIMIT);
    DispatchConcat(before, p.msgs, r.msgs, routes, verdict);
    WalkIsParse(buf, 0, log, routes, verdict);
    assert buf[0..] == buf;
    RestIsSuffix(buf);
  }

  lemma {:induction false} RestIsSuffix(s: Bytes)
    ensures var p := Parse(s, BODY_LIMIT);
            && |p.rest| <= |s| && p.rest == s[|s| - |p.rest|..]
            && (!p.tooLong ==> |p.rest| < IN_MSG_BUF_SIZE)
  {
    hide Parse;
    ParseCovers(s, BODY_LIMIT);
    var p := Parse(s, BODY_LIMIT);
    assert s[|s| - |p.rest|..] == p.rest;
  }

  /** The spans of the closed connections, in order, and then those of the current one. */
  ghost function AllSpans(history: seq<(Bytes, seq<Bytes>)>, accepted: seq<Bytes>): (r: seq<Bytes>) {
    if history == [] then accepted else history[0].1 + AllSpans(history[1..], accepted)
  }

  /** Every closed connection carried a prefix of whole frames. */
  ghost predicate HistoryOk(history: seq<(Bytes, seq<Bytes>)>) {
    forall h <- history :: AllSpannable(h.1) && h.0 <= Stream(h.1)
  }

  lemma HistorySnoc(history: seq<(Bytes, seq<Bytes>)>, wire: Bytes, spans: seq<Bytes>)
    requires HistoryOk(history) && AllSpannable(spans) && wire <= Stream(spans)
    ensures HistoryOk(history + [(wire, spans)])
  {
  }

  lemma {:induction false} AllSpansSnoc(history: seq<(Bytes, seq<Bytes>)>, accepted: seq<Bytes>, span: Bytes)
    ensures AllSpans(history, accepted + [span]) == AllSpans(history, accepted) + [span]
  {
    if history == [] {
    } else {
      AllSpansSnoc(history[1..], accepted, span);
      Assoc(history[0].1, AllSpans(history[1..], accepted), [span]);
    }
  }

  /** Closing a connection moves its spans into the history and loses none. */
  lemma {:induction false} AllSpansClosed(history: seq<(Bytes, seq<Bytes>)>, wire: Bytes, accepted: seq<Bytes>)
    ensures AllSpans(history + [(wire, accepted)], []) == AllSpans(history, accepted)
  {
    if history == [] {
      assert (history + [(wire, accepted)])[1..] == [];
      assert accepted + [] == accepted;
    } else {
      AllSpansClosed(history[1..], wire, accepted);
      assert (history + [(wire, accepted)])[1..] == history[1..] + [(wire, accepted)];
    }
  }

  /** How a burst of readable bytes ends. */
  datatype RecvEnd = Drained | Closed | Failed

  /** What `connect_remote` came to: too early or a bad address, or an attempt that yields a descriptor. */
  datatype Connect = NotTried | Tried(fd: int)

  /** What `select` reports: `incoming` is readable in pieces of the given sizes. */
  datatype Select =
    | SelectFailed
    | Selected(except: bool, readable: bool, incoming: Bytes, cuts: seq<nat>, end: RecvEnd,
               writable: bool, replies: seq<SendReply>)

  datatype Poll = Poll(first: Connect, select: Select, again: Connect)

  /** A descriptor that `select` can watch, or none. */
  predicate Watchable(fd: int) {
    -1 <= fd < FD_SETSIZE
  }

  /** A poll that meets no error: attempts to connect yield such descriptors, nothing exceptional is
      reported, what can be read is whole messages and not the end of the stream, and no write fails. */
  ghost predicate CalmPoll(poll: Poll) {
    && (poll.first.Tried? ==> Watchable(poll.first.fd))
    && (poll.select.Selected? ==>
          && !poll.select.except && Unbroken(poll.select.replies)
          && (poll.select.readable ==> poll.select.end == Drained && WholeMessages(poll.select.incoming)))
  }

  /** Attempts to connect that yield such descriptors. */
  predicate Connects(poll: Poll) {
    (poll.first.Tried? ==> Watchable(poll.first.fd)) && (poll.again.Tried? ==> Watchable(poll.again.fd))
  }

  /** Bytes that the receive loop consumes entirely. */
  ghost predicate WholeMessages(s: Bytes) {
    var p := Parse(s, BODY_LIMIT);
    p.rest == [] && !p.tooLong
  }

  /** Handlers that never fail. */
  ghost predicate Obliging(verdict: seq<Msg> -> bool) {
    forall log :: verdict(log)
  }

  lemma {:induction false} DispatchObliging(log: seq<Msg>, ms: seq<Msg>, routes: set<int>, verdict: seq<Msg> -> bool)
    requires Obliging(verdict) && forall m <- ms :: m.kind < TWO_32
    ensures Dispatch(log, ms, routes, verdict).ok
    decreases |ms|
  {
    if ms == [] {
    } else {
      DispatchObliging(if AsInt32(ms[0].kind) in routes then log + [ms[0]] else log, ms[1..], routes, verdict);
    }
  }

  /** Whole messages after whole messages, with such handlers: the connection survives. */
  lemma HeardWhole(before: seq<Msg>, received: Bytes, more: Bytes, routes: set<int>, verdict: seq<Msg> -> bool)
    requires WholeMessages(received) && WholeMessages(more) && Obliging(verdict)
    ensures WholeMessages(received + more) && Heard(before, received + more, routes, verdict).ok
  {
    hide Parse, Dispatch;
    ParseAppend(received, more, BODY_LIMIT);
    assert [] + more == more;
    DispatchObliging(before, Parse(received + more, BODY_LIMIT).msgs, routes, verdict);
  }

  /** What becomes of a poll: given up before any event, connection closed, or events handled. */
  datatype Outcome =
    | GaveUp
    | Closed(events: Events)
    | Handled(events: Events)

  /** The events taken up: whether bytes were read, and the write if there was one. */
  datatype Events = Events(read: bool, write: bool)

  /** The branches of `PoolEventOnce`, from the descriptor and flags it finds, whether the bytes to
      read leave the connection alive, and how a write would end. */
  function Polled(fd: int, writing: bool, select: Select, readOk: bool, sent: Status): (r: Outcome) {
    if fd == -1 then GaveUp
    else if fd < 0 || fd >= FD_SETSIZE then Outcome.Closed(Events(false, false))
    else if select.SelectFailed? then GaveUp
    else if select.except then Outcome.Closed(Events(false, false))
    else if select.readable && !readOk then Outcome.Closed(Events(true, false))
    else if !(select.writable && writing) then Handled(Events(select.readable, false))
    else if sent == Broken then Outcome.Closed(Events(select.readable, true))
    else Handled(Events(select.readable, true))
  }

  /** A connection: the descriptor, the `S_WRITING` bit, the unread bytes of each chunk still to be written, the
      bytes written and the spans accepted since the last reset, the same for every closed connection, the
      bytes received, and the handler calls before and until now. */
  datatype Conn = Conn(fd: int, writing: bool, sizes: seq<nat>, wire: Bytes, accepted: seq<Bytes>,
                       history: seq<(Bytes, seq<Bytes>)>, received: Bytes, before: seq<Msg>, calls: seq<Msg>)
  {
    /** What is written and what is pending make up the stream; what is pending fits the buffer and is flagged. */
    ghost predicate Ok() {
      && AllSpannable(accepted) && wire <= Stream(accepted)
      && |wire| + Total(sizes) == |Stream(accepted)|
      && Positive(sizes) && Total(sizes) <= ALLOC_BOUND && (sizes != [] ==> writing)
    }

    /** Every span ever accepted, in order, each under the one connection it was queued for. */
    ghost function Taken(): (r: seq<Bytes>) {
      AllSpans(history, accepted)
    }
  }

  const NEW_CONN: Conn := Conn(-1, false, [], [], [], [], [], [], [])

  /** What a connection will have heard once the readable bytes are in. */
  ghost function HeardIf(c: Conn, select: Select, routes: set<int>, verdict: seq<Msg> -> bool): (r: Calls)
    requires select.Selected?
  {
    Heard(c.before, c.received + select.incoming, routes, verdict)
  }

  /** The branch a poll takes. */
  ghost function Expected(c: Conn, select: Select, routes: set<int>, verdict: seq<Msg> -> bool): (r: Outcome)
    ensures r.Closed? || r.Handled? ==> (r.events.read || r.events.write ==> select.Selected?)
  {
    if select.SelectFailed? then Polled(c.fd, c.writing, select, true, Complete)
    else
      var readOk := HeardIf(c, select, routes, verdict).ok && select.end == Drained;
      Polled(c.fd, c.writing, select, readOk, Drain(select.replies, 0, c.sizes).status)
  }

  /** `connect_remote`, which only runs without a descriptor. */
  function Connected(c: Conn, attempt: Connect): (d: Conn) {
    if c.fd == -1 && attempt.Tried? then c.(fd := attempt.fd, writing := true) else c
  }

  /** The read event. */
  ghost function AfterRead(c: Conn, select: Select, routes: set<int>, verdict: seq<Msg> -> bool): (d: Conn)
    requires select.Selected?
  {
    c.(received := c.received + select.incoming, calls := HeardIf(c, select, routes, verdict).log)
  }

  /** The write event: what was sent comes off the front of the pending bytes. */
  ghost function AfterWrite(c: Conn, replies: seq<SendReply>): (d: Conn)
    requires c.Ok()
    ensures d.(wire := c.wire, sizes := c.sizes, writing := c.writing) == c
  {
    var r := Drain(replies, 0, c.sizes);
    DrainEndedBy(replies, 0, c.sizes);
    c.(wire := Stream(c.accepted)[..|c.wire| + r.sent], sizes := Unsent(c.sizes, r.sent),
       writing := if c.sizes == [] then c.writing else r.status == Blocked)
  }

  /** The events a poll takes up, also when the last of them ends the connection. */
  ghost function AfterEvents(c: Conn, select: Select, routes: set<int>, verdict: seq<Msg> -> bool): (d: Conn)
    requires c.Ok()
    ensures d.accepted == c.accepted && d.history == c.history && d.fd == c.fd && d.before == c.before
  {
    match Expected(c, select, routes, verdict)
    case GaveUp => c
    case Closed(ev) => After(c, ev, select, routes, verdict)
    case Handled(ev) => After(c, ev, select, routes, verdict)
  }

  ghost function After(c: Conn, ev: Events, select: Select, routes: set<int>, verdict: seq<Msg> -> bool): (d: Conn)
    requires c.Ok() && (ev.read || ev.write ==> select.Selected?)
    ensures d.accepted == c.accepted && d.history == c.history && d.fd == c.fd && d.before == c.before
  {
    var read := if ev.read then AfterRead(c, select, routes, verdict) else c;
    if ev.write then assert read.Ok(); AfterWrite(read, select.replies) else read
  }

  /** `_reset_remote` and the attempt to connect again. */
  ghost function AfterReset(c: Conn, again: Connect): (d: Conn) {
    var fd := if again.Tried? then again.fd else -1;
    Conn(fd, again.Tried?, [], [], [], c.history + [(c.wire, c.accepted)], [], c.calls, c.calls)
  }

  /** `PoolEventOnce` from the call of `select` on. */
  ghost function AfterSelect(c: Conn, select: Select, again: Connect, routes: set<int>,
                             verdict: seq<Msg> -> bool): (d: Conn)
    requires c.Ok()
  {
    var d := AfterEvents(c, select, routes, verdict);
    if Expected(c, select, routes, verdict).Closed? then AfterReset(d, if 0 <= c.fd < FD_SETSIZE then again else NotTried)
    else d
  }

  /** `PoolEventOnce`. */
  ghost function AfterPoll(c: Conn, poll: Poll, routes: set<int>, verdict: seq<Msg> -> bool): (d: Conn)
    requires c.Ok()
    ensures d.Ok()
  {
    var up := Connected(c, poll.first);
    assert up.Ok();
    SelectKeepsOk(up, poll.select, poll.again, routes, verdict);
    AfterSelect(up, poll.select, poll.again, routes, verdict)
  }

  lemma SelectKeepsOk(c: Conn, select: Select, again: Connect, routes: set<int>, verdict: seq<Msg> -> bool)
    requires c.Ok()
    ensures AfterSelect(c, select, again, routes, verdict).Ok()
  {
    hide Stream, Heard, Drain;
    StreamEmpty();
    match Expected(c, select, routes, verdict)
    case GaveUp =>
    case Closed(ev) =>
    case Handled(ev) =>
      if ev.write {
        var read := if ev.read then AfterRead(c, select, routes, verdict) else c;
        WriteKeepsOk(read, select.replies);
      }
  }

  lemma {:induction false} WriteKeepsOk(c: Conn, replies: seq<SendReply>)
    requires c.Ok() && Drain(replies, 0, c.sizes).status != Broken
    ensures AfterWrite(c, replies).Ok()
    ensures Drain(replies, 0, c.sizes).status == Complete ==>
              AfterWrite(c, replies).sizes == [] && AfterWrite(c, replies).wire == Stream(c.accepted)
  {
    hide Stream, Drain;
    var r := Drain(replies, 0, c.sizes);
    DrainEndedBy(replies, 0, c.sizes);
    UnsentTotal(c.sizes, r.sent);
    assert Stream(c.accepted)[..|Stream(c.accepted)|] == Stream(c.accepted);
  }

  /** What a descriptor decides before any event. */
  lemma ByDescriptor(c: Conn, select: Select, routes: set<int>, verdict: seq<Msg> -> bool)
    requires c.Ok() && c.fd != -1
    ensures var out := Expected(c, select, routes, verdict);
            var none := AfterEvents(c, select, routes, verdict) == c;
            if c.fd < 0 || c.fd >= FD_SETSIZE then out.Closed? && none
            else (out.GaveUp? <==> select.SelectFailed?) && (out.GaveUp? ==> none)
  {
  }

  lemma NoDescriptor(c: Conn, select: Select, again: Connect, routes: set<int>, verdict: seq<Msg> -> bool)
    requires c.Ok() && c.fd == -1
    ensures Expected(c, select, routes, verdict) == GaveUp && AfterSelect(c, select, again, routes, verdict) == c
  {
  }

  /** What ends a connection with a descriptor to watch: an exceptional condition, readable bytes that end or
      break the stream or lead to a message that is too long or a handler that fails, or a write that fails. */
  ghost predicate Fatal(c: Conn, writing: bool, select: Select, routes: set<int>, verdict: seq<Msg> -> bool) {
    && select.Selected?
    && (|| select.except
        || (select.readable && !(HeardIf(c, select, routes, verdict).ok && select.end == Drained))
        || (select.writable && writing && Drain(select.replies, 0, c.sizes).status == Broken))
  }

  /** `n` more bytes of the stream are on the wire. */
  ghost predicate Further(c: Conn, wire: Bytes, n: nat)
    requires c.Ok()
  {
    c.wire <= wire <= Stream(c.accepted) && |wire| == |c.wire| + n
  }

  /** What a poll does to each part of a connection that has the descriptor `fd`, and what it returns. */
  ghost predicate PollTells(c: Conn, fd: int, writing: bool, select: Select, again: Connect, d: Conn, ret: int,
                            routes: set<int>, verdict: seq<Msg> -> bool)
    requires c.Ok()
  {
    if fd == -1 || (0 <= fd < FD_SETSIZE && select.SelectFailed?) then
      ret == -1 && d == c.(fd := fd, writing := writing)
    else if fd < 0 || fd >= FD_SETSIZE then
      ret == -1 && d == Conn(-1, false, [], [], [], c.history + [(c.wire, c.accepted)], [], c.calls, c.calls)
    else
      var read := select.readable && !select.except;
      var survives := read ==> HeardIf(c, select, routes, verdict).ok && select.end == Drained;
      var wrote := select.writable && writing && !select.except && survives;
      var run := Drain(select.replies, 0, c.sizes);
      var sent := if wrote then run.sent else 0;
      var calls := if read then HeardIf(c, select, routes, verdict).log else c.calls;
      if Fatal(c, writing, select, routes, verdict) then
        && ret == -1 && |d.history| == |c.history| + 1 && d.history[..|c.history|] == c.history
        && d.history[|c.history|].1 == c.accepted && Further(c, d.history[|c.history|].0, sent)
        && d.fd == (if again.Tried? then again.fd else -1) && d.writing == again.Tried?
        && d.sizes == [] && d.wire == [] && d.accepted == [] && d.received == [] && d.before == d.calls == calls
      else
        && ret == 0 && d.history == c.history && d.accepted == c.accepted && d.fd == fd && d.before == c.before
        && d.calls == calls && d.received == (if read then c.received + select.incoming else c.received)
        && Further(c, d.wire, sent) && d.sizes == (if wrote then Unsent(c.sizes, sent) else c.sizes)
        && d.writing == (if wrote && c.sizes != [] then run.status == Blocked else writing)
  }

  /** Every poll, part by part. */
  lemma PollEffect(c: Conn, poll: Poll, routes: set<int>, verdict: seq<Msg> -> bool)
    requires c.Ok()
    ensures var connects := c.fd == -1 && poll.first.Tried?;
            var fd, writing := if connects then poll.first.fd else c.fd, connects || c.writing;
            var ret := if Expected(Connected(c, poll.first), poll.select, routes, verdict).Handled? then 0 else -1;
            PollTells(c, fd, writing, poll.select, poll.again, AfterPoll(c, poll, routes, verdict), ret, routes, verdict)
  {
    hide Heard, Stream, Drain, Unsent, PollTells;
    var up := Connected(c, poll.first);
    SelectEffect(up, poll.select, poll.again, routes, verdict);
    TellsConnected(c, up, poll, routes, verdict);
  }

  lemma SelectEffect(c: Conn, select: Select, again: Connect, routes: set<int>, verdict: seq<Msg> -> bool)
    requires c.Ok()
    ensures var ret := if Expected(c, select, routes, verdict).Handled? then 0 else -1;
            PollTells(c, c.fd, c.writing, select, again, AfterSelect(c, select, again, routes, verdict), ret, routes, verdict)
  {
    hide Heard, Stream, Drain, Unsent;
    if select.Selected? {
      DrainEndedBy(select.replies, 0, c.sizes);
    }
  }

  lemma TellsConnected(c: Conn, up: Conn, poll: Poll, routes: set<int>, verdict: seq<Msg> -> bool)
    requires c.Ok() && up == Connected(c, poll.first)
    ensures forall d, ret :: PollTells(c, up.fd, up.writing, poll.select, poll.again, d, ret, routes, verdict) <==>
                             PollTells(up, up.fd, up.writing, poll.select, poll.again, d, ret, routes, verdict)
  {
    hide Heard, Stream, Drain, Unsent;
  }

  /** `SyncSendAll`, from its `i`-th turn on. */
  ghost function AfterPolls(c: Conn, polls: seq<Poll>, i: nat, routes: set<int>, verdict: seq<Msg> -> bool): (d: Conn)
    requires c.Ok()
    ensures d.Ok()
    decreases |polls| - i
  {
    if c.writing && i < MAX_RETRY_ITEMS && i < |polls| then
      AfterPolls(AfterPoll(c, polls[i], routes, verdict), polls, i + 1, routes, verdict)
    else c
  }

  /** The states between the polls: one poll after the other while something is to be written, 20 at most. */
  lemma {:induction false} PollsAre(c: Conn, polls: seq<Poll>, i: nat, routes: set<int>, verdict: seq<Msg> -> bool)
    returns (states: seq<Conn>)
    requires c.Ok() && i <= 20 && i <= |polls|
    ensures 1 <= |states| && i + |states| - 1 <= 20 && i + |states| - 1 <= |polls| && states[0] == c
    ensures AfterPolls(c, polls, i, routes, verdict) == states[|states| - 1]
    ensures forall k | 0 <= k < |states| - 1 ::
              states[k].Ok() && states[k].writing && states[k + 1] == AfterPoll(states[k], polls[i + k], routes, verdict)
    ensures i + |states| - 1 == 20 || i + |states| - 1 == |polls| || !states[|states| - 1].writing
    decreases |polls| - i
  {
    hide AfterPoll, Conn.Ok;
    states := [c];
    if c.writing && i < 20 && i < |polls| {
      var rest := PollsAre(AfterPoll(c, polls[i], routes, verdict), polls, i + 1, routes, verdict);
      states := states + rest;
    }
  }

  /** No poll loses an accepted span. */
  lemma PollKeepsTaken(c: Conn, poll: Poll, routes: set<int>, verdict: seq<Msg> -> bool)
    requires c.Ok()
    ensures AfterPoll(c, poll, routes, verdict).Taken() == c.Taken()
  {
    hide Stream, Heard, Drain, Polled;
    var up := Connected(c, poll.first);
    match Expected(up, poll.select, routes, verdict)
    case GaveUp =>
    case Closed(_) => AllSpansClosed(up.history, AfterEvents(up, poll.select, routes, verdict).wire, up.accepted);
    case Handled(ev) =>
  }

  /** No error so far: the descriptor is one to watch, no message is cut off, and no handler will fail. */
  ghost predicate AtEase(c: Conn, verdict: seq<Msg> -> bool) {
    Watchable(c.fd) && WholeMessages(c.received) && Obliging(verdict)
  }

  /** A poll that meets no error closes nothing, and what it reads is whole messages. */
  lemma CalmOutcome(c: Conn, poll: Poll, routes: set<int>, verdict: seq<Msg> -> bool)
    requires c.Ok() && AtEase(c, verdict) && CalmPoll(poll)
    ensures match Expected(c, poll.select, routes, verdict)
            case GaveUp => c.fd == -1 || poll.select.SelectFailed?
            case Closed(_) => false
            case Handled(ev) => poll.select.Selected? && (ev.read ==> WholeMessages(c.received + poll.select.incoming))
  {
    hide Drain, Heard, WholeMessages, Stream;
    if poll.select.Selected? {
      NeverBroken(poll.select.replies, 0, c.sizes);
      if poll.select.readable {
        HeardWhole(c.before, c.received, poll.select.incoming, routes, verdict);
      }
    }
  }

  lemma CalmStays(c: Conn, poll: Poll, routes: set<int>, verdict: seq<Msg> -> bool)
    requires c.Ok() && AtEase(c, verdict) && CalmPoll(poll)
    ensures var d := AfterPoll(c, poll, routes, verdict); AtEase(d, verdict) && d.history == c.history
  {
    hide Drain, Heard, WholeMessages, Stream, Polled;
    var up := Connected(c, poll.first);
    CalmOutcome(up, poll, routes, verdict);
  }

  lemma StaysWatchable(c: Conn, poll: Poll, routes: set<int>, verdict: seq<Msg> -> bool)
    requires c.Ok() && Watchable(c.fd) && Connects(poll)
    ensures Watchable(AfterPoll(c, poll, routes, verdict).fd)
  {
    hide Drain, Heard, Stream, Polled;
    var up := Connected(c, poll.first);
    match Expected(up, poll.select, routes, verdict)
    case GaveUp =>
    case Closed(ev) =>
    case Handled(ev) =>
  }

  /** A poll that finds nothing to write leaves nothing to write. */
  lemma NothingPending(c: Conn, poll: Poll, routes: set<int>, verdict: seq<Msg> -> bool)
    requires c.Ok() && c.sizes == []
    ensures AfterPoll(c, poll, routes, verdict).sizes == []
  {
    hide Heard, Stream, Polled, Drain;
  }

  /** A poll whose `select` finds the socket writable, and the socket then takes whatever is pending. */
  ghost predicate Writes(poll: Poll) {
    poll.select.Selected? && poll.select.writable && Takes(poll.select.replies, 0, ALLOC_BOUND)
  }

  /** A connection, should one be needed, is there. */
  predicate Reaches(poll: Poll) {
    poll.first.Tried? && 0 <= poll.first.fd < FD_SETSIZE
  }

  /** The conditions under which such a poll keeps the connection: a descriptor to watch, nothing
      exceptional, and what is read leaves the connection alive. */
  ghost predicate Survives(c: Conn, poll: Poll, routes: set<int>, verdict: seq<Msg> -> bool)
    requires poll.select.Selected?
  {
    && 0 <= Connected(c, poll.first).fd < FD_SETSIZE && !poll.select.except
    && (poll.select.readable ==> HeardIf(c, poll.select, routes, verdict).ok && poll.select.end == Drained)
  }

  /** Such a poll puts everything pending on the wire. */
  lemma FlushOutcome(c: Conn, poll: Poll, routes: set<int>, verdict: seq<Msg> -> bool)
    requires c.Ok() && Writes(poll)
    ensures Survives(c, poll, routes, verdict) <==> Expected(Connected(c, poll.first), poll.select, routes, verdict).Handled?
    ensures Survives(c, poll, routes, verdict) ==>
              var d := AfterPoll(c, poll, routes, verdict);
              d.sizes == [] && d.wire == Stream(c.accepted) && d.accepted == c.accepted && d.history == c.history
  {
    hide Heard, Stream, Drain, Takes;
    var up := Connected(c, poll.first);
    FewerTakes(poll.select.replies, ALLOC_BOUND, Total(c.sizes));
    DrainTakes(poll.select.replies, 0, c.sizes);
    if Survives(c, poll, routes, verdict) && up.writing {
      var read := if poll.select.readable then AfterRead(up, poll.select, routes, verdict) else up;
      WriteKeepsOk(read, poll.select.replies);
    }
  }
}
