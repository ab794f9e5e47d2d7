/** `Agent::SendSpanTrace` to the collector's `DispatchPacket`: a trace becomes text, the text a frame, and
    what the collector gets reads back as the trace. */
module TraceDelivery {
  import opened Bytes
  import opened Framing
  import opened TraceForest
  import opened TracePool
  import opened TraceAgent
  import opened TraceBrackets
  import opened JsonValue
  import opened JsonGrammar
  import opened JsonRoundTrip
  import opened JsonWriter
  import opened JsonReader
  import opened SpanText
  import opened Connection
  import Collector
  import Delivery
  import TraceRuns

  /** The texts of spans. */
  function Texts(sent: seq<Span>): (texts: seq<Bytes>)
    ensures |texts| == |sent| && forall i | 0 <= i < |sent| :: texts[i] == Text(SpanValue(sent[i]))
  {
    seq(|sent|, i requires 0 <= i < |sent| => Text(SpanValue(sent[i])))
  }

  /** No text is too long to be submitted. */
  predicate AllShort(sent: seq<Span>) {
    forall i | 0 <= i < |sent| :: Spannable(Text(SpanValue(sent[i])))
  }

  /** `node_tree_to_string` of each span. */
  method WriteSpans(sent: seq<Span>) returns (texts: seq<Bytes>)
    requires SpansKept(sent)
    ensures texts == Texts(sent)
  {
    hide Text, SpanValue, Storable, Span.AllKept;
    texts := [];
    for n := 0 to |sent|
      invariant |texts| == n && forall i | 0 <= i < n :: texts[i] == Text(SpanValue(sent[i]))
    {
      assert sent[n] in sent;
      SpanStorable(sent[n]);
      var writer := new BuiltStyledStreamWriter();
      writer.Write(SpanValue(sent[n]));
      assert [] + Text(SpanValue(sent[n])) == Text(SpanValue(sent[n]));
      texts := texts + [writer.out];
    }
  }

  /** What `OurReader` answers to a text. */
  ghost function ReadText(text: Bytes): (v: Option<Value>) {
    match ParseDocument(text) case Done(v, _) => Some(v) case _ => None
  }

  /** Read each of the texts; none where that fails. */
  method ReadAll(bodies: seq<Bytes>) returns (values: seq<Option<Value>>)
    ensures |values| == |bodies| && forall i | 0 <= i < |bodies| :: values[i] == ReadText(bodies[i])
  {
    hide ParseDocument;
    values := [];
    for n := 0 to |bodies|
      invariant |values| == n && forall i | 0 <= i < n :: values[i] == ReadText(bodies[i])
    {
      var reader := new OurReader(bodies[n]);
      var verdict, root := reader.Parse();
      values := values + [if verdict == Good then Some(root) else None];
    }
  }

  /** The text of a span reads back as its value exactly when its names are not too long and its annotations are
      valid UTF-8. */
  lemma ReadsBack(span: Span)
    requires span.AllKept()
    ensures ReadText(Text(SpanValue(span))) ==
            if Fits(SpanValue(span), STACK_LIMIT) then Some(Read(SpanValue(span))) else None
    ensures Read(SpanValue(span)) == Norm(SpanValue(span)) <==> AllUtf8(SpanValue(span))
  {
    hide ParseDocument, Text, SpanValue, Fits, Read, Norm, AllUtf8, Span.AllKept;
    SpanStorable(span);
    DocumentRoundTrip(SpanValue(span));
    ReadIsNorm(SpanValue(span));
  }

  /** `TrySendSpan` for one span after the other: the frame is queued, then comes a poll or a round of polls. */
  function Schedule(texts: seq<Bytes>, after: nat -> Delivery.Op): (ops: seq<Delivery.Op>)
    ensures |ops| == 2 * |texts|
    ensures forall i | 0 <= i < |texts| :: ops[2 * i] == Delivery.Submit(texts[i]) && ops[2 * i + 1] == after(i)
  {
    seq(2 * |texts|, k requires 0 <= k < 2 * |texts| => if k % 2 == 0 then Delivery.Submit(texts[k / 2]) else after(k / 2))
  }

  ghost predicate Increasing(picked: seq<nat>, bound: nat) {
    (forall i, j | 0 <= i < j < |picked| :: picked[i] < picked[j]) && forall i | 0 <= i < |picked| :: picked[i] < bound
  }

  /** The texts at the given places. */
  ghost predicate Picks(texts: seq<Bytes>, picked: seq<nat>, some: seq<Bytes>) {
    |some| == |picked| && forall i | 0 <= i < |some| :: picked[i] < |texts| && some[i] == texts[picked[i]]
  }

  lemma PickOne(texts: seq<Bytes>, picked: seq<nat>, some: seq<Bytes>, n: nat)
    requires n < |texts| && Increasing(picked, n) && Picks(texts, picked, some)
    ensures Increasing(picked + [n], n + 1) && Picks(texts, picked + [n], some + [texts[n]]) && Increasing(picked, n + 1)
  {
  }

  /** The first `n` texts that are not among the picked ones found the buffer full. */
  ghost predicate FoundFull(texts: seq<Bytes>, snaps: seq<Delivery.Snap>, picked: seq<nat>, n: nat)
    requires n <= |texts| && 2 * |texts| < |snaps|
  {
    forall i: nat | i < n && i !in picked :: snaps[2 * i].alloc + HEADER_SIZE + |texts[i]| > CHUNK_MAX_SIZE
  }

  lemma FoundFullMore(texts: seq<Bytes>, snaps: seq<Delivery.Snap>, picked: seq<nat>, n: nat)
    requires n < |texts| && 2 * |texts| < |snaps| && FoundFull(texts, snaps, picked, n)
    ensures FoundFull(texts, snaps, picked + [n], n + 1)
    ensures snaps[2 * n].alloc + HEADER_SIZE + |texts[n]| > CHUNK_MAX_SIZE ==> FoundFull(texts, snaps, picked, n + 1)
  {
    assert n in picked + [n] && forall i <- picked :: i in picked + [n];
  }

  /** Which spans were accepted: one that was not found the buffer full. */
  method Accepted(texts: seq<Bytes>, after: nat -> Delivery.Op, snaps: seq<Delivery.Snap>,
                  ghost routes: set<int>, ghost verdict: seq<Msg> -> bool)
    returns (picked: seq<nat>)
    requires (forall i :: !after(i).Submit?) && |snaps| == 2 * |texts| + 1
    requires Delivery.Ran(Schedule(texts, after), snaps, routes, verdict)
    ensures Increasing(picked, |texts|) && Picks(texts, picked, snaps[2 * |texts|].conn.Taken())
    ensures FoundFull(texts, snaps, picked, |texts|)
  {
    hide Delivery.Step, Delivery.Ran, Schedule, Conn.Taken, FoundFull, Increasing, Picks;
    picked := [];
    NothingTaken(texts, after, snaps, routes, verdict);
    for n := 0 to |texts|
      invariant Increasing(picked, n) && Picks(texts, picked, snaps[2 * n].conn.Taken())
      invariant FoundFull(texts, snaps, picked, n)
    {
      var s, t := snaps[2 * n], snaps[2 * n + 1];
      OneSpan(texts, after, snaps, n, routes, verdict);
      PickOne(texts, picked, s.conn.Taken(), n);
      FoundFullMore(texts, snaps, picked, n);
      if t.conn.accepted != s.conn.accepted {
        picked := picked + [n];
      }
    }
  }

  /** What becomes of the `n`-th span. */
  lemma OneSpan(texts: seq<Bytes>, after: nat -> Delivery.Op, snaps: seq<Delivery.Snap>, n: nat, routes: set<int>,
                verdict: seq<Msg> -> bool)
    requires n < |texts| && (forall i :: !after(i).Submit?) && |snaps| == 2 * |texts| + 1
    requires Delivery.Ran(Schedule(texts, after), snaps, routes, verdict)
    ensures var s, t, u := snaps[2 * n], snaps[2 * n + 1], snaps[2 * n + 2];
            if t.conn.accepted != s.conn.accepted then u.conn.Taken() == s.conn.Taken() + [texts[n]]
            else u.conn.Taken() == s.conn.Taken() && s.alloc + HEADER_SIZE + |texts[n]| > CHUNK_MAX_SIZE
  {
    hide Delivery.Step, Schedule, Conn.Taken;
    var ops := Schedule(texts, after);
    var s, t, u := snaps[2 * n], snaps[2 * n + 1], snaps[2 * n + 2];
    assert ops[2 * n] == Delivery.Submit(texts[n]) && ops[2 * n + 1] == after(n);
    assert Delivery.Step(ops[2 * n], s, t, routes, verdict);
    assert Delivery.Step(ops[2 * n + 1], t, u, routes, verdict);
    Delivery.StepTaken(ops[2 * n], s, t, routes, verdict);
    Delivery.StepTaken(ops[2 * n + 1], t, u, routes, verdict);
    if t.conn.accepted == s.conn.accepted {
      RefusedWhenFull(texts[n], s, t, routes, verdict);
    }
  }

  lemma NothingTaken(texts: seq<Bytes>, after: nat -> Delivery.Op, snaps: seq<Delivery.Snap>, routes: set<int>,
                     verdict: seq<Msg> -> bool)
    requires |snaps| == 2 * |texts| + 1 && Delivery.Ran(Schedule(texts, after), snaps, routes, verdict)
    ensures Increasing([], 0) && Picks(texts, [], snaps[0].conn.Taken()) && FoundFull(texts, snaps, [], 0)
  {
  }

  lemma RefusedWhenFull(text: Bytes, s: Delivery.Snap, t: Delivery.Snap, routes: set<int>, verdict: seq<Msg> -> bool)
    requires Delivery.Step(Delivery.Submit(text), s, t, routes, verdict) && t.conn.accepted == s.conn.accepted
    ensures s.alloc + HEADER_SIZE + |text| > CHUNK_MAX_SIZE
  {
    hide Conn.Ok, FrameLoad;
    assert |s.conn.accepted + [text]| > |s.conn.accepted|;
  }

  /** Where the spans of the current connection start among all. */
  lemma {:induction false} CurrentAreLast(history: seq<(Bytes, seq<Bytes>)>, accepted: seq<Bytes>)
    ensures var all := AllSpans(history, accepted);
            |accepted| <= |all| && all[|all| - |accepted|..] == accepted && (history == [] ==> all == accepted)
  {
    if history == [] {
    } else {
      CurrentAreLast(history[1..], accepted);
    }
  }

  /** The messages the collector dispatches are the texts of spans that were sent, and read back as them: the
      `i`-th is that of span `picked[first + i]`. */
  ghost predicate ArrivedAs(sent: seq<Span>, picked: seq<nat>, first: nat, dispatched: seq<Msg>,
                            values: seq<Option<Value>>)
  {
    && |values| == |dispatched| && first + |dispatched| <= |picked|
    && forall i | 0 <= i < |dispatched| :: ArrivedOne(sent, picked[first + i], dispatched[i], values[i])
  }

  ghost predicate ArrivedOne(sent: seq<Span>, k: nat, m: Msg, value: Option<Value>) {
    && k < |sent| && m == Msg(REQ_UPDATE_SPAN, Text(SpanValue(sent[k])))
    && value == if Fits(SpanValue(sent[k]), STACK_LIMIT) then Some(Read(SpanValue(sent[k]))) else None
  }

  function FrameSize(span: Span): (n: nat) {
    HEADER_SIZE + |Text(SpanValue(span))|
  }

  /** Every span's frame fits half the collector's buffer. */
  ghost predicate HalfTheBuffer(sent: seq<Span>, size: nat) {
    size >= 2 * HEADER_SIZE && forall i | 0 <= i < |sent| :: FrameSize(sent[i]) <= size / 2
  }

  /** Memory that all the frames can take at most. */
  ghost function SpanLoad(sent: seq<Span>): (n: nat) {
    if sent == [] then 0
    else SpanLoad(sent[..|sent| - 1]) + FrameLoad(Text(SpanValue(sent[|sent| - 1])))
  }

  lemma {:induction false} LoadOfSpans(sent: seq<Span>, after: nat -> Delivery.Op, n: nat)
    requires n <= |sent| && (forall i :: !after(i).Submit?)
    ensures Delivery.Load(Schedule(Texts(sent), after), 2 * n) == SpanLoad(sent[..n])
  {
    hide Text, SpanValue, FrameLoad, Schedule;
    if n == 0 {
    } else {
      LoadOfSpans(sent, after, n - 1);
      assert sent[..n][..n - 1] == sent[..n - 1];
      var ops := Schedule(Texts(sent), after);
      assert ops[2 * (n - 1)] == Delivery.Submit(Texts(sent)[n - 1]) && ops[2 * (n - 1) + 1] == after(n - 1);
      assert Delivery.Load(ops, 2 * n) == Delivery.Load(ops, 2 * n - 1);
    }
  }

  function Bodies(ms: seq<Msg>): (bodies: seq<Bytes>)
    ensures |bodies| == |ms| && forall i | 0 <= i < |ms| :: bodies[i] == ms[i].body
  {
    seq(|ms|, i requires 0 <= i < |ms| => ms[i].body)
  }

  lemma DispatchedIsSent(sent: seq<Span>, picked: seq<nat>, all: seq<Bytes>, accepted: seq<Bytes>,
                         dispatched: seq<Msg>, values: seq<Option<Value>>)
    requires SpansKept(sent) && Picks(Texts(sent), picked, all)
    requires AllSpannable(accepted) && dispatched <= SpanMsgs(accepted)
    requires |accepted| <= |all| && all[|all| - |accepted|..] == accepted
    requires |values| == |dispatched| && forall i | 0 <= i < |dispatched| :: values[i] == ReadText(dispatched[i].body)
    ensures ArrivedAs(sent, picked, |all| - |accepted|, dispatched, values)
  {
    hide ReadText, Text, SpanValue, Read, Fits, Span.AllKept;
    var first := |all| - |accepted|;
    forall i | 0 <= i < |dispatched| ensures ArrivedOne(sent, picked[first + i], dispatched[i], values[i]) {
      var k := picked[first + i];
      assert dispatched[i] == SpanMsgs(accepted)[i] && accepted[i] == all[first + i] == Texts(sent)[k];
      assert sent[k] in sent;
      ReadsBack(sent[k]);
    }
  }

  /** Half the buffer for all spans is half the buffer for those accepted. */
  lemma SomeWithin(sent: seq<Span>, picked: seq<nat>, all: seq<Bytes>, accepted: seq<Bytes>, size: nat)
    requires Picks(Texts(sent), picked, all) && |accepted| <= |all| && all[|all| - |accepted|..] == accepted
    ensures HalfTheBuffer(sent, size) ==> Delivery.SpansWithin(accepted, size)
  {
    hide Text, SpanValue;
    forall i | 0 <= i < |accepted| ensures HalfTheBuffer(sent, size) ==> HEADER_SIZE + |accepted[i]| <= size / 2 {
      assert accepted[i] == all[|all| - |accepted| + i];
    }
  }

  /** A span is refused only when those before it may have filled the buffer; when each is flushed, only when its
      own frame is over the difference of the two limits. */
  ghost predicate Refusals(sent: seq<Span>, after: nat -> Delivery.Op, verdict: seq<Msg> -> bool, picked: seq<nat>) {
    && (forall i: nat | i < |sent| && i !in picked :: SpanLoad(sent[..i]) + FrameSize(sent[i]) > CHUNK_MAX_SIZE)
    && ((forall i :: Delivery.FlushOp(after(i), verdict)) ==>
          forall i: nat | i < |sent| && i !in picked :: FrameSize(sent[i]) > CHUNK_MAX_SIZE - CHUNK_HOLD_SIZE)
  }

  lemma RefusalsHold(sent: seq<Span>, after: nat -> Delivery.Op, snaps: seq<Delivery.Snap>, picked: seq<nat>,
                     routes: set<int>, verdict: seq<Msg> -> bool)
    requires (forall i :: !after(i).Submit?) && |snaps| == 2 * |sent| + 1
    requires Delivery.Ran(Schedule(Texts(sent), after), snaps, routes, verdict)
    requires FoundFull(Texts(sent), snaps, picked, |sent|)
    ensures Refusals(sent, after, verdict, picked)
  {
    hide Delivery.Ran, Schedule, Delivery.Load, SpanLoad, Delivery.FlushOp, Text, SpanValue;
    var ops := Schedule(Texts(sent), after);
    forall i: nat | i < |sent| ensures snaps[2 * i].alloc <= SpanLoad(sent[..i]) {
      Delivery.RanWithin(ops, snaps, 2 * i, routes, verdict);
      LoadOfSpans(sent, after, i);
    }
    if forall i :: Delivery.FlushOp(after(i), verdict) {
      forall i: nat | i < |sent| ensures snaps[2 * i].alloc <= CHUNK_HOLD_SIZE {
        FlushedBefore(sent, after, snaps, i, routes, verdict);
      }
    }
  }

  /** Polls that each flush keep the buffer within the resident size, over any number of spans. */
  lemma FlushedBefore(sent: seq<Span>, after: nat -> Delivery.Op, snaps: seq<Delivery.Snap>, n: nat,
                      routes: set<int>, verdict: seq<Msg> -> bool)
    requires n < |sent| && |snaps| == 2 * |sent| + 1 && (forall i :: Delivery.FlushOp(after(i), verdict))
    requires Delivery.Ran(Schedule(Texts(sent), after), snaps, routes, verdict)
    ensures snaps[2 * n].alloc <= CHUNK_HOLD_SIZE
  {
    hide Delivery.Step, Schedule, AtEase;
    if n > 0 {
      var ops, k := Schedule(Texts(sent), after), 2 * n - 1;
      assert ops[2 * (n - 1) + 1] == after(n - 1);
      FlushIsCalm(after(n - 1), verdict);
      forall op <- ops ensures Delivery.Calm(op) {
        ScheduleHas(Texts(sent), after, op);
        if !op.Submit? {
          FlushIsCalm(op, verdict);
        }
      }
      Delivery.RanCalm(ops, snaps, k, routes, verdict);
      assert Delivery.Step(ops[k], snaps[k], snaps[k + 1], routes, verdict);
      Delivery.FlushStep(ops[k], snaps[k], snaps[k + 1], routes, verdict);
    }
  }

  lemma FlushIsCalm(op: Delivery.Op, verdict: seq<Msg> -> bool)
    requires Delivery.FlushOp(op, verdict)
    ensures Delivery.Calm(op) && Obliging(verdict)
  {
    hide Writes, CalmPoll;
    if op.SendAll? {
      assert op.polls[0] in op.polls;
    }
  }

  lemma ScheduleHas(texts: seq<Bytes>, after: nat -> Delivery.Op, op: Delivery.Op)
    requires op in Schedule(texts, after)
    ensures (exists i: nat :: op == after(i)) || (op.Submit? && op.span in texts)
  {
    var k :| 0 <= k < 2 * |texts| && Schedule(texts, after)[k] == op;
    if k % 2 == 0 {
      assert Schedule(texts, after)[2 * (k / 2)] == Delivery.Submit(texts[k / 2]);
    } else {
      assert Schedule(texts, after)[2 * (k / 2) + 1] == after(k / 2);
    }
  }

  lemma ScheduleParts(sent: seq<Span>, after: nat -> Delivery.Op)
    requires AllShort(sent)
    ensures var ops := Schedule(Texts(sent), after);
            && ((forall i :: !after(i).Submit?) ==> forall op <- ops :: op.Submit? ==> Spannable(op.span))
            && ((forall i :: Delivery.Calm(after(i))) ==> forall op <- ops :: Delivery.Calm(op))
            && ((forall i :: Delivery.Connectable(after(i))) ==> forall op <- ops :: Delivery.Connectable(op))
  {
    hide CalmPoll, Connects, Text, SpanValue, Schedule;
    forall op <- Schedule(Texts(sent), after)
      ensures (exists i: nat :: op == after(i)) || (op.Submit? && Spannable(op.span))
    {
      ScheduleHas(Texts(sent), after, op);
    }
  }

  lemma DeliveredParts(accepted: seq<Bytes>, dispatched: seq<Msg>, stop: Collector.Stop, size: nat,
                       accept: seq<Msg> -> bool)
    requires AllSpannable(accepted)
    requires Delivery.Delivered(accepted, Stream(accepted), dispatched, stop, size, accept)
    ensures dispatched <= SpanMsgs(accepted) && Delivery.Answered(dispatched, stop, accept)
    ensures Delivery.SpansWithin(accepted, size) ==>
              stop == Collector.Refused || (stop == Collector.EndOfInput && |dispatched| == |accepted|)
  {
    hide Stream, Collector.Turnable, Delivery.Answered;
    if Delivery.SpansWithin(accepted, size) {
      Delivery.AllArrived(accepted, size);
    }
  }

  /** Spans become frames, the connection is flushed, the collector reads: what it dispatches reads back as spans
      that were sent, in order, none twice and none altered. `picked` lists the spans that were accepted, those from
      `first` on since the last reset. */
  method DeliverSpans(sent: seq<Span>, after: nat -> Delivery.Op, routes: set<int>, verdict: seq<Msg> -> bool,
                      poll: Poll, cuts: seq<nat>, size: nat, accept: seq<Msg> -> bool)
    returns (snaps: seq<Delivery.Snap>, ret: int, picked: seq<nat>, first: nat, dispatched: seq<Msg>,
             stop: Collector.Stop, values: seq<Option<Value>>)
    requires SpansKept(sent) && AllShort(sent) && (forall i :: !after(i).Submit?)
    requires Writes(poll) && size <= Collector.MAX_RECV_BUF
    ensures |snaps| == 2 * |sent| + 1 && Delivery.Ran(Schedule(Texts(sent), after), snaps, routes, verdict)
    ensures var c := snaps[2 * |sent|].conn;
            && ret == (if Survives(c, poll, routes, verdict) then 0 else -1)
            && Picks(Texts(sent), picked, c.Taken()) && first + |c.accepted| == |picked|
    ensures Increasing(picked, |sent|) && Refusals(sent, after, verdict, picked)
    ensures ret == 0 ==>
              var spans := snaps[2 * |sent|].conn.accepted;
              && AllSpannable(spans) && Delivery.Delivered(spans, Stream(spans), dispatched, stop, size, accept)
              && ArrivedAs(sent, picked, first, dispatched, values)
    ensures ret == 0 && HalfTheBuffer(sent, size) ==>
              stop == Collector.Refused || (stop == Collector.EndOfInput && first + |dispatched| == |picked|)
    ensures (forall i :: Delivery.Connectable(after(i))) && Delivery.QuietPoll(poll) ==> ret == 0
    ensures (forall i :: Delivery.Calm(after(i))) && Delivery.CalmFlush(verdict, poll) ==>
              ret == 0 && first == 0 && snaps[2 * |sent|].conn.history == []
  {
    hide SpansKept, AllShort, Picks, Schedule, HalfTheBuffer, Increasing, ArrivedAs, Refusals, Texts, FoundFull;
    hide Delivery.Ran, Delivery.Delivered, Delivery.Calm, Delivery.Connectable, Delivery.QuietPoll, Delivery.CalmFlush;
    hide Delivery.Answered, Writes, Survives, Stream, ReadText, AllSpans;
    var texts := WriteSpans(sent);
    var ops := Schedule(texts, after);
    ScheduleParts(sent, after);
    snaps, ret, dispatched, stop := Delivery.FlushDelivery(ops, routes, verdict, poll, cuts, size, accept);
    picked := Accepted(texts, after, snaps, routes, verdict);
    RefusalsHold(sent, after, snaps, picked, routes, verdict);
    var c := snaps[|ops|].conn;
    CurrentAreLast(c.history, c.accepted);
    PickedLength(texts, picked, c.Taken());
    first := |picked| - |c.accepted|;
    values := ReadAll(Bodies(dispatched));
    if ret == 0 {
      DeliveredSpans(sent, picked, c, dispatched, stop, values, size, accept);
    }
  }

  lemma DeliveredSpans(sent: seq<Span>, picked: seq<nat>, c: Conn, dispatched: seq<Msg>, stop: Collector.Stop,
                       values: seq<Option<Value>>, size: nat, accept: seq<Msg> -> bool)
    requires SpansKept(sent) && Picks(Texts(sent), picked, c.Taken()) && AllSpannable(c.accepted)
    requires Delivery.Delivered(c.accepted, Stream(c.accepted), dispatched, stop, size, accept)
    requires |values| == |dispatched| && forall i | 0 <= i < |dispatched| :: values[i] == ReadText(dispatched[i].body)
    ensures |c.accepted| <= |picked| && ArrivedAs(sent, picked, |picked| - |c.accepted|, dispatched, values)
    ensures HalfTheBuffer(sent, size) ==>
              stop == Collector.Refused || (stop == Collector.EndOfInput && |dispatched| == |c.accepted|)
  {
    hide SpansKept, HalfTheBuffer, ArrivedAs, Delivery.Delivered, Delivery.Answered, Stream, ReadText, AllSpans, Texts;
    CurrentAreLast(c.history, c.accepted);
    DeliveredParts(c.accepted, dispatched, stop, size, accept);
    DispatchedIsSent(sent, picked, c.Taken(), c.accepted, dispatched, values);
    SomeWithin(sent, picked, c.Taken(), c.accepted, size);
  }

  lemma PickedLength(texts: seq<Bytes>, picked: seq<nat>, some: seq<Bytes>)
    requires Picks(texts, picked, some)
    ensures |picked| == |some|
  {
  }

  /** The texts of the spans that were accepted. */
  function Chosen(sent: seq<Span>, picked: seq<nat>): (texts: seq<Bytes>) {
    seq(|picked|, i requires 0 <= i < |picked| => if picked[i] < |sent| then Text(SpanValue(sent[picked[i]])) else [])
  }

  lemma ChosenArePicked(sent: seq<Span>, picked: seq<nat>, some: seq<Bytes>)
    requires Picks(Texts(sent), picked, some)
    ensures Chosen(sent, picked) == some
  {
    hide Text, SpanValue;
  }

  /** What the collector gets of spans sent without an error: it is handed the whole frames of those accepted. */
  ghost predicate Arrived(sent: seq<Span>, after: nat -> Delivery.Op, verdict: seq<Msg> -> bool, size: nat,
                          accept: seq<Msg> -> bool, picked: seq<nat>, dispatched: seq<Msg>, stop: Collector.Stop,
                          values: seq<Option<Value>>)
  {
    && Increasing(picked, |sent|) && Refusals(sent, after, verdict, picked)
    && AllSpannable(Chosen(sent, picked))
    && Delivery.Delivered(Chosen(sent, picked), Stream(Chosen(sent, picked)), dispatched, stop, size, accept)
    && ArrivedAs(sent, picked, 0, dispatched, values)
    && (HalfTheBuffer(sent, size) ==>
          stop == Collector.Refused || (stop == Collector.EndOfInput && |dispatched| == |picked|))
  }

  /** The send buffer can hold every frame: all of them together, or each by itself when each is flushed. */
  ghost predicate RoomForAll(sent: seq<Span>, after: nat -> Delivery.Op, verdict: seq<Msg> -> bool) {
    || SpanLoad(sent) <= CHUNK_MAX_SIZE
    || ((forall i :: Delivery.FlushOp(after(i), verdict))
        && forall i | 0 <= i < |sent| :: FrameSize(sent[i]) <= CHUNK_MAX_SIZE - CHUNK_HOLD_SIZE)
  }

  /** With room for all frames, half the collector's buffer for each and no refusal, every span arrives. */
  lemma EveryOneArrives(sent: seq<Span>, after: nat -> Delivery.Op, verdict: seq<Msg> -> bool, size: nat,
                        accept: seq<Msg> -> bool, picked: seq<nat>, dispatched: seq<Msg>, stop: Collector.Stop,
                        values: seq<Option<Value>>)
    requires Arrived(sent, after, verdict, size, accept, picked, dispatched, stop, values)
    requires RoomForAll(sent, after, verdict)
    ensures |picked| == |sent| && forall i | 0 <= i < |picked| :: picked[i] == i
    ensures HalfTheBuffer(sent, size) && (forall ms :: accept(ms)) ==>
              |dispatched| == |sent| && stop == Collector.EndOfInput
  {
    hide SpanLoad, FrameSize, ArrivedOne, HalfTheBuffer, Chosen, Stream;
    hide Delivery.FlushOp, Delivery.Arrived, Collector.Turnable;
    forall i: nat | i < |sent| ensures i in picked {
      LoadUpTo(sent, i, |sent|);
      assert sent[..|sent|] == sent;
    }
    AllPicked(picked, |sent|);
  }

  lemma {:induction false} LoadUpTo(sent: seq<Span>, i: nat, n: nat)
    requires i < n <= |sent|
    ensures SpanLoad(sent[..i]) + FrameSize(sent[i]) <= SpanLoad(sent[..n])
    decreases n
  {
    hide Text, SpanValue;
    assert sent[..n][..n - 1] == sent[..n - 1];
    if i + 1 < n {
      LoadUpTo(sent, i, n - 1);
    }
  }

  lemma {:induction false} AllPicked(picked: seq<nat>, n: nat)
    requires Increasing(picked, n) && forall i: nat | i < n :: i in picked
    ensures |picked| == n && forall i | 0 <= i < n :: picked[i] == i
  {
    if n == 0 {
    } else {
      var last: nat := n - 1;
      assert last in picked;
      var k :| 0 <= k < |picked| && picked[k] == last;
      var top := picked[|picked| - 1];
      assert top <= last && k == |picked| - 1;
      var less := picked[..k];
      forall i: nat | i < n - 1 ensures i in less {
        assert i in picked;
        var j :| 0 <= j < |picked| && picked[j] == i;
        assert less[j] == i;
      }
      AllPicked(less, n - 1);
    }
  }

  /** Half the buffer is short. */
  lemma HalfIsShort(sent: seq<Span>, size: nat)
    requires HalfTheBuffer(sent, size) && size <= Collector.MAX_RECV_BUF
    ensures AllShort(sent)
  {
    hide Text, SpanValue;
  }

  /** Spans sent without an error. */
  method SendCalmly(sent: seq<Span>, after: nat -> Delivery.Op, routes: set<int>, verdict: seq<Msg> -> bool,
                 poll: Poll, cuts: seq<nat>, size: nat, accept: seq<Msg> -> bool)
    returns (picked: seq<nat>, dispatched: seq<Msg>, stop: Collector.Stop, values: seq<Option<Value>>)
    requires SpansKept(sent) && AllShort(sent) && forall i :: !after(i).Submit? && Delivery.Calm(after(i))
    requires Writes(poll) && Delivery.CalmFlush(verdict, poll) && size <= Collector.MAX_RECV_BUF
    ensures Arrived(sent, after, verdict, size, accept, picked, dispatched, stop, values)
  {
    hide SpansKept, AllShort, HalfTheBuffer, Increasing, Refusals, ArrivedAs, Picks, Schedule, Chosen, Texts;
    hide Delivery.Ran, Delivery.Calm, Delivery.CalmFlush, Delivery.Delivered, Delivery.Connectable, Delivery.QuietPoll;
    hide Writes, Survives, Stream;
    var snaps, ret, first;
    snaps, ret, picked, first, dispatched, stop, values :=
      DeliverSpans(sent, after, routes, verdict, poll, cuts, size, accept);
    ghost var c := snaps[2 * |sent|].conn;
    ChosenArePicked(sent, picked, c.Taken());
  }

  /** Thread-local starts and ends, nested in any way, from a new agent to the collector: it gets one text for each
      outermost bracket the pool had room for, which reads back as a span with an event for each bracket
      inside, in the order of their starts and at their depths. */
  method BracketsArrive(agentType: int32, bs: seq<Bracket>, time: nat -> int, clock: (nat, nat) -> int,
                        after: nat -> Delivery.Op, routes: set<int>, verdict: seq<Msg> -> bool,
                        poll: Poll, cuts: seq<nat>, size: nat, accept: seq<Msg> -> bool)
    returns (sent: seq<Span>, picked: seq<nat>, dispatched: seq<Msg>, stop: Collector.Stop, values: seq<Option<Value>>)
    requires forall i :: !after(i).Submit? && Delivery.Calm(after(i))
    requires Writes(poll) && Delivery.CalmFlush(verdict, poll) && size <= Collector.MAX_RECV_BUF
    ensures SentEach([], sent, bs, Fitting(bs, POOL_CAPACITY, 0))
    ensures AllShort(sent) ==> Arrived(sent, after, verdict, size, accept, picked, dispatched, stop, values)
    ensures HalfTheBuffer(sent, size) && RoomForAll(sent, after, verdict) && (forall ms :: accept(ms)) ==>
              |dispatched| == |sent| && ArrivedAs(sent, picked, 0, dispatched, values)
  {
    hide ArrivedAs, HalfTheBuffer, Delivery.CalmFlush, Delivery.Calm, Writes, RoomForAll, Refusals, Increasing, AllShort;
    hide NodeCells.Valid, Partition, TraceForest.Forest.Valid, Tidy, SpansKept;
    hide SpanOfBracket, Stuck, Around, LiveIds, Fitting;
    var a := new Agent(agentType);
    NoneLive(a.Forest());
    RunBrackets(a, bs, 0, time, clock);
    sent := a.sent;
    picked, dispatched, stop, values := [], [], Collector.EndOfInput, [];
    if AllShort(sent) {
      picked, dispatched, stop, values := SendCalmly(sent, after, routes, verdict, poll, cuts, size, accept);
    }
    Everyone(sent, after, verdict, size, accept, picked, dispatched, stop, values);
  }

  lemma Everyone(sent: seq<Span>, after: nat -> Delivery.Op, verdict: seq<Msg> -> bool, size: nat,
                 accept: seq<Msg> -> bool, picked: seq<nat>, dispatched: seq<Msg>, stop: Collector.Stop,
                 values: seq<Option<Value>>)
    requires size <= Collector.MAX_RECV_BUF
    requires AllShort(sent) ==> Arrived(sent, after, verdict, size, accept, picked, dispatched, stop, values)
    ensures HalfTheBuffer(sent, size) && RoomForAll(sent, after, verdict) && (forall ms :: accept(ms)) ==>
              |dispatched| == |sent| && ArrivedAs(sent, picked, 0, dispatched, values)
  {
    hide HalfTheBuffer, RoomForAll, Refusals, Increasing, AllShort;
    if HalfTheBuffer(sent, size) {
      HalfIsShort(sent, size);
      if RoomForAll(sent, after, verdict) {
        EveryOneArrives(sent, after, verdict, size, accept, picked, dispatched, stop, values);
      }
    }
  }

  /** Any calls of the tracing interface, annotations included, from a new agent to the collector: the spans are
      those the caller can put together from the results, and what arrives of them reads back as them. */
  method CallsArrive(calls: seq<TraceRuns.Call>, agentType: int32, time: nat -> nat -> int, clock: nat -> nat -> int,
                     after: nat -> Delivery.Op, routes: set<int>, verdict: seq<Msg> -> bool,
                     poll: Poll, cuts: seq<nat>, size: nat, accept: seq<Msg> -> bool)
    returns (results: seq<int>, views: seq<TraceRuns.View>, sent: seq<Span>, picked: seq<nat>, dispatched: seq<Msg>,
             stop: Collector.Stop, values: seq<Option<Value>>)
    requires (forall call <- calls :: TraceRuns.Sane(call)) && forall i :: !after(i).Submit? && Delivery.Calm(after(i))
    requires Writes(poll) && Delivery.CalmFlush(verdict, poll) && size <= Collector.MAX_RECV_BUF
    ensures |results| == |calls| && TraceRuns.Consistent(calls, agentType, time, clock, results, views)
    ensures TraceRuns.SeesSpans(sent, views[|calls|])
    ensures AllShort(sent) ==> Arrived(sent, after, verdict, size, accept, picked, dispatched, stop, values)
    ensures HalfTheBuffer(sent, size) && RoomForAll(sent, after, verdict) && (forall ms :: accept(ms)) ==>
              |dispatched| == |sent| && ArrivedAs(sent, picked, 0, dispatched, values)
  {
    hide ArrivedAs, HalfTheBuffer, Delivery.CalmFlush, Delivery.Calm, Writes, RoomForAll, Refusals, Increasing, AllShort;
    hide NodeCells.Valid, Partition, TraceForest.Forest.Valid, Tidy, SpansKept, TraceRuns.Consistent, TraceRuns.SeesSpans;
    var a, clean;
    a, results, views, clean := TraceRuns.RunCalls(calls, agentType, time, clock);
    sent := a.sent;
    picked, dispatched, stop, values := [], [], Collector.EndOfInput, [];
    if AllShort(sent) {
      picked, dispatched, stop, values := SendCalmly(sent, after, routes, verdict, poll, cuts, size, accept);
    }
    Everyone(sent, after, verdict, size, accept, picked, dispatched, stop, values);
  }
}
