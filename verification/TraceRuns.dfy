/** Any calls of the tracing interface, and what a caller can tell from their results alone: which nodes
    are live, under which node each was started and in which order, what it was annotated with, the status of
    each trace, and what each span that was sent is made of. */
module TraceRuns {
  import opened Bytes
  import opened JsonValue
  import opened JsonGrammar
  import opened Annotations
  import opened TraceForest
  import opened TracePool
  import opened TraceAgent

  /** A call, with any id whatever. */
  datatype Call =
    | Start(parent: int)
    | End(id: int)
    | ForceEnd(id: int)
    | SetStatus(id: int, status: int)
    | Note(id: int, clue: Clue, atRoot: bool)

  /** A live node: the id it was started under (`E_ROOT_NODE` for a root), the root above it and how far above,
      when it was started and when it was last ended, whether an exception was reported for it, and what it was
      annotated with. */
  datatype Entry = Entry(parent: int, root: int, depth: nat, start: int, ended: Option<int>, thrown: bool,
                         notes: seq<Member>)

  /** A span that was sent: the root and when it was ended, and the other nodes in the order they were started,
      each with the time at which it would have been ended if nobody had. */
  datatype Sent = Sent(root: Entry, end: int, events: seq<Entry>, closes: seq<int>)

  /** The caller's view: the agent's type, live nodes, status by root, the other nodes of each root in the order they
      were started, and the spans sent so far. */
  datatype View = View(agent: int, nodes: map<int, Entry>, status: map<int, int>, chains: map<int, seq<int>>,
                       spans: seq<Sent>)

  function NoView(agent: int): (v: View) {
    View(agent, map[], map[], map[], [])
  }

  /** The nodes of a root's tree. */
  function Tree(v: View, r: int): (ids: set<int>) {
    set x <- v.nodes | v.nodes[x].root == r
  }

  function EntryOf(v: View, id: int): (e: Entry) {
    if id in v.nodes then v.nodes[id] else Entry(E_ROOT_NODE, id, 0, 0, None, false, [])
  }

  function ChainOf(v: View, r: int): (ids: seq<int>) {
    if r in v.chains then v.chains[r] else []
  }

  predicate MayPass(v: View, r: int) {
    r in v.status && v.status[r] == E_TRACE_PASS
  }

  /** The root cannot be ended: the name under which it collects events is taken. */
  predicate Unendable(v: View, r: int) {
    MayPass(v, r) && ChainOf(v, r) != [] && Jammed(EntryOf(v, r).notes)
  }

  /** Nobody has ended the node; one that took -1 milliseconds looks the same. */
  predicate Open(e: Entry) {
    e.ended.None? || AsInt64(e.ended.value - e.start) == -1
  }

  /** The node `id` is ended at `now`, which leaves a mark if there was an exception. */
  function EndIn(v: View, id: int, now: int): (w: View) {
    var e := EntryOf(v, id);
    var notes := if e.thrown then Insert(e.notes, HAS_EXCEPTION, Value.Int(1)) else e.notes;
    if id in v.nodes then v.(nodes := v.nodes[id := e.(ended := Some(now), notes := notes)]) else v
  }

  /** The span a root sends when it is ended at `now`. */
  function SpanNow(v: View, r: int, now: int, clock: nat -> int): (s: Sent) {
    var chain := ChainOf(v, r);
    Sent(EntryOf(v, r), now, seq(|chain|, i requires 0 <= i < |chain| => EntryOf(v, chain[i])),
         seq(|chain|, i requires 0 <= i < |chain| => clock(i)))
  }

  /** The view when the tree of `r` has ended: it is gone as a whole, and its span was sent if it could pass. */
  function Without(v: View, r: int, now: int, clock: nat -> int): (w: View) {
    View(v.agent, map x <- v.nodes | v.nodes[x].root != r :: v.nodes[x], v.status - {r}, v.chains - {r},
         if MayPass(v, r) then v.spans + [SpanNow(v, r, now, clock)] else v.spans)
  }

  /** The view when the end of `r` has failed: the root is ended, and the first node under it unless it was. */
  function Stuck(v: View, r: int, now: int, clock: nat -> int): (w: View) {
    var ended, chain := EndIn(v, r, now), ChainOf(v, r);
    if chain != [] && Open(EntryOf(ended, chain[0])) then EndIn(ended, chain[0], clock(0)) else ended
  }

  /** `id` and the nodes above it, without the root, which is `n` steps up. */
  function Path(v: View, id: int, n: nat): (path: seq<int>)
    ensures |path| == n
    decreases n
  {
    if n == 0 then [] else [id] + Path(v, EntryOf(v, id).parent, n - 1)
  }

  /** The nodes of a path are ended, the `k`-th at `time(k)`. */
  function EndAll(v: View, path: seq<int>, time: nat -> int): (w: View)
    ensures w.(nodes := v.nodes) == v && w.nodes.Keys == v.nodes.Keys
    decreases |path|
  {
    if path == [] then v else var n := |path| - 1; EndIn(EndAll(v, path[..n], time), path[n], time(n))
  }

  /** An exception was reported for the node. */
  function ThrownIn(v: View, id: int): (w: View) {
    if id in v.nodes then v.(nodes := v.nodes[id := v.nodes[id].(thrown := true)]) else v
  }

  /** The view after an annotation. */
  function WithNote(v: View, id: int, clue: Clue, atRoot: bool): (w: View) {
    if id !in v.nodes || v.nodes[id].root !in v.nodes then v
    else
      var r := v.nodes[id].root;
      var at := ClueAt(id, r, clue, atRoot);
      match ClueValue(v.nodes[at].notes, clue, v.nodes[r].start)
      case None => v
      case Some(noted) =>
        var w := if clue.Thrown? then ThrownIn(ThrownIn(v, id), r) else v;
        var e := w.nodes[at];
        w.(nodes := w.nodes[at := e.(notes := Insert(e.notes, noted.0, noted.1))])
  }

  /** The view after a call with that result: `time(0)` is when it was made, and a forced end reads `time(k)` for
      the `k`-th node on its way up. */
  function After(v: View, call: Call, time: nat -> int, clock: nat -> int, result: int): (w: View) {
    match call
    case Start(parent) =>
      if result == E_INVALID_NODE then v
      else if parent in v.nodes then
        var r := v.nodes[parent].root;
        v.(nodes := v.nodes[result := Entry(parent, r, v.nodes[parent].depth + 1, time(0), None, false, [])],
           chains := v.chains[r := ChainOf(v, r) + [result]])
      else
        v.(nodes := v.nodes[result := Entry(E_ROOT_NODE, result, 0, time(0), None, false, [])],
           status := v.status[result := E_TRACE_PASS], chains := v.chains[result := []])
    case End(id) =>
      if id !in v.nodes || v.nodes[id].parent != E_ROOT_NODE then EndIn(v, id, time(0))
      else if result == E_ROOT_NODE then Without(v, id, time(0), clock)
      else Stuck(v, id, time(0), clock)
    case ForceEnd(id) =>
      if id !in v.nodes then v
      else
        var n, r := v.nodes[id].depth, v.nodes[id].root;
        var w := EndAll(v, Path(v, id, n), time);
        if result == E_ROOT_NODE then Without(w, r, time(n), clock) else Stuck(w, r, time(n), clock)
    case SetStatus(id, status) => if id in v.nodes then v.(status := v.status[v.nodes[id].root := status]) else v
    case Note(id, clue, atRoot) => WithNote(v, id, clue, atRoot)
  }

  /** The result a call must have; for a start, exactly when it succeeds and that its id is new. */
  ghost predicate Told(v: View, call: Call, result: int) {
    match call
    case Start(parent) =>
      && (result != E_INVALID_NODE <==> (parent == E_ROOT_NODE || parent in v.nodes) && |v.nodes| < POOL_CAPACITY)
      && (result != E_INVALID_NODE ==> result > 0 && result !in v.nodes)
    case End(id) =>
      result == if id in v.nodes && !(v.nodes[id].root == id && Unendable(v, id)) then v.nodes[id].parent
                else E_INVALID_NODE
    case ForceEnd(id) =>
      result == if id == E_ROOT_NODE || (id in v.nodes && !Unendable(v, v.nodes[id].root)) then E_ROOT_NODE
                else E_INVALID_NODE
    case SetStatus(id, _) =>
      result == if id in v.nodes && v.nodes[id].root in v.status then AsUInt64(v.status[v.nodes[id].root]) else 0
    case Note(_, _, _) => result == 0
  }

  /** The view fits what the pool holds and what was sent. */
  ghost predicate Sees(f: Forest, sent: seq<Span>, v: View) {
    SeesNodes(f, v) && SeesStatus(f, v) && SeesSpans(sent, v)
  }

  ghost predicate SeesNodes(f: Forest, v: View) {
    && |f.nodes| == |f.used|
    && (forall x :: x in v.nodes <==> f.Live(x))
    && (forall x <- v.nodes :: SeesNode(f.Node(x), v.nodes[x], v.agent))
  }

  ghost predicate SeesNode(n: TraceNode, e: Entry, agent: int) {
    && e.parent == (if n.rootId == n.id then E_ROOT_NODE else n.parentId)
    && e.root == n.rootId && e.depth == n.depth && e.start == n.startTime && e.thrown == n.setExp
    && n.expiredTime == (if e.ended.None? then -1 else AsInt64(e.ended.value - e.start))
    && Alike(n.value.notes, e.notes)
    && (n.rootId == n.id ==> n.preTime == 0 && Get(n.value.notes, AGENT_TYPE) == Some(Value.Int(agent)))
  }

  ghost predicate SeesStatus(f: Forest, v: View) {
    && |f.nodes| == |f.used| && v.status.Keys == f.trees.Keys && v.chains == f.trees
    && (forall r <- v.status :: f.Live(r) && f.Node(r).extra.Some? && v.status[r] == f.Node(r).extra.value.status)
  }

  ghost predicate SeesSpans(sent: seq<Span>, v: View) {
    |v.spans| == |sent| && forall i | 0 <= i < |sent| :: SeesSpan(sent[i], v.spans[i], v.agent)
  }

  /** The annotations of the root, the mark of an exception, the agent's type, when it started and how long it
      took; and every other node with its own. */
  ghost predicate SeesSpan(span: Span, s: Sent, agent: int) {
    && Tells(span.notes, s.root, true) && Get(span.notes, AGENT_TYPE) == Some(Value.Int(agent))
    && Get(span.notes, ELAPSED) == Some(Value.Int(AsInt64(s.end - s.root.start)))
    && Get(span.notes, START) == Some(Value.UInt(AsUInt64(s.root.start)))
    && |span.events| == |s.events| == |s.closes|
    && forall i | 0 <= i < |s.events| :: SeesEvent(span.events[i], s, i)
  }

  /** An event tells besides its annotations its number, its depth, how long after the node before it was
      started, and how long it took: until it was last ended, and until now if nobody has ended it. */
  ghost predicate SeesEvent(event: seq<Member>, s: Sent, i: nat)
    requires i < |s.events| == |s.closes|
  {
    var e := s.events[i];
    && Tells(event, e, Open(e))
    && Get(event, SEQUENCE) == Some(Value.Int(i)) && Get(event, DEPTH) == Some(Value.Int(e.depth))
    && Get(event, START) == Some(Value.UInt(AsUInt64(e.start - if i == 0 then s.root.start else s.events[i - 1].start)))
    && Get(event, ELAPSED) == Some(Value.Int(if Open(e) then AsInt64(s.closes[i] - e.start)
                                             else AsInt64(e.ended.value - e.start)))
  }

  /** All that an application can set is as it left it, but for the mark of an exception if the node ends now. */
  ghost predicate Tells(notes: seq<Member>, e: Entry, ends: bool) {
    forall name | !Internal(name) ::
      Get(notes, name) == if ends && e.thrown && name == HAS_EXCEPTION then Some(Value.Int(1)) else Get(e.notes, name)
  }

  lemma ViewCount(f: Forest, v: View)
    requires SeesNodes(f, v)
    ensures |v.nodes| == |LiveIds(f)|
  {
    assert v.nodes.Keys == LiveIds(f);
  }

  lemma SeesStartedRoot(f: Forest, g: Forest, sent: seq<Span>, v: View, id: int, time: nat -> int, clock: nat -> int)
    requires f.Valid() && Sees(f, sent, v) && id > 0
    requires !f.Live(id) && g.trees == f.trees[id := []] && Untouched(f, g, id) && g.Live(id)
    requires g.nodes[id - 1] == FreshRoot(id, v.agent, time(0))
    ensures Sees(g, sent, After(v, Start(E_ROOT_NODE), time, clock, id))
  {
    hide Alike, SeesSpan, Get;
    assert !f.Live(E_ROOT_NODE);
    FreshAlike(v.agent);
  }

  lemma FreshAlike(agentType: int)
    ensures Alike(FreshRoot(0, agentType, 0).value.notes, []) && Alike([], [])
    ensures Get(FreshRoot(0, agentType, 0).value.notes, AGENT_TYPE) == Some(Value.Int(agentType))
  {
  }

  lemma SeesStartedChild(f: Forest, g: Forest, sent: seq<Span>, v: View, parent: int, id: int, time: nat -> int,
                         clock: nat -> int)
    requires f.Valid() && Sees(f, sent, v) && StartedUnder(f, g, parent, id, time(0)) && id > 0
    ensures Sees(g, sent, After(v, Start(parent), time, clock, id))
  {
    hide TraceForest.Forest.Valid, Alike, SeesSpan, Get;
    RootIffTree(f, parent);
    RootsLive(f);
    FreshAlike(0);
  }

  lemma SeesRoot(f: Forest, v: View, id: int)
    requires f.Valid() && SeesNodes(f, v) && f.Live(id)
    ensures id in v.nodes && v.nodes[id].root == f.Node(id).rootId && f.Node(id).rootId in f.trees
    ensures v.nodes[id].parent == E_ROOT_NODE <==> id in f.trees
    ensures v.nodes[id].root == id <==> id in f.trees
    ensures id !in f.trees ==> v.nodes[id].parent == f.Node(id).parentId
  {
    hide TraceForest.Forest.Valid;
    RootIffTree(f, id);
    if id !in f.trees {
      ParentIsLower(f, id);
    }
  }

  lemma AlikeSelf(notes: seq<Member>)
    ensures Alike(notes, notes)
  {
  }

  /** The end of one node. */
  lemma SeesEnded(f: Forest, sent: seq<Span>, v: View, id: int, now: int)
    requires Sees(f, sent, v) && f.Live(id)
    ensures Sees(EndedAt(f, id, now), sent, EndIn(v, id, now))
  {
    hide TraceNode.End, Alike, Get, Insert, SeesSpan;
    var n, e := f.Node(id), v.nodes[id];
    assert SeesNode(n, e, v.agent);
    EndAlike(n, now);
    EndNotes(n, now, AGENT_TYPE);
    if n.setExp {
      AlikeInsert(n.value.notes, e.notes, HAS_EXCEPTION, Value.Int(1));
      AlikeTransitive(n.End(now).value.notes, Insert(n.value.notes, HAS_EXCEPTION, Value.Int(1)),
                      Insert(e.notes, HAS_EXCEPTION, Value.Int(1)));
    } else {
      AlikeTransitive(n.End(now).value.notes, n.value.notes, e.notes);
    }
  }

  /** The nodes on the way up. */
  lemma {:induction false} SeesPath(f: Forest, sent: seq<Span>, v: View, path: seq<int>, time: nat -> int)
    requires Sees(f, sent, v) && forall x <- path :: f.Live(x)
    ensures |f.nodes| == |f.used| && Sees(EndedPath(f, path, time), sent, EndAll(v, path, time))
    decreases |path|
  {
    hide Sees, EndIn, EndedAt;
    assert |f.nodes| == |f.used| by { SeesWhole(f, sent, v); }
    if path == [] {
    } else {
      var n := |path| - 1;
      assert path[n] in path && forall x <- path[..n] :: x in path;
      SeesPath(f, sent, v, path[..n], time);
      SeesEnded(EndedPath(f, path[..n], time), sent, EndAll(v, path[..n], time), path[n], time(n));
    }
  }

  lemma SeesWhole(f: Forest, sent: seq<Span>, v: View)
    requires Sees(f, sent, v)
    ensures |f.nodes| == |f.used|
  {
  }

  /** A node is open for the pool exactly when it is for the caller. */
  lemma SeesOpen(f: Forest, v: View, id: int)
    requires SeesNodes(f, v) && f.Live(id)
    ensures id in v.nodes && (f.Node(id).expiredTime == -1 <==> Open(v.nodes[id]))
  {
    assert SeesNode(f.Node(id), v.nodes[id], v.agent);
  }

  lemma SeesClosed(f: Forest, sent: seq<Span>, v: View, id: int, now: int)
    requires Sees(f, sent, v) && f.Live(id)
    ensures Sees(f.(nodes := f.nodes[id - 1 := Closed(f.Node(id), now)]), sent,
                 if Open(EntryOf(v, id)) then EndIn(v, id, now) else v)
  {
    hide TraceNode.End, SeesNode, SeesStatus, SeesSpans, EndIn;
    SeesOpen(f, v, id);
    if Open(v.nodes[id]) {
      SeesEnded(f, sent, v, id, now);
    } else {
      assert f.nodes[id - 1 := f.Node(id)] == f.nodes;
    }
  }

  /** The end of a root that fails. */
  lemma SeesStuck(f: Forest, g: Forest, sent: seq<Span>, v: View, r: int, now: int, clock: nat -> int)
    requires f.Valid() && Sees(f, sent, v) && r in f.trees && f.Live(r) && JammedAt(f, g, r, now, clock)
    ensures Sees(g, sent, Stuck(v, r, now, clock))
  {
    hide TraceForest.Forest.Valid, TraceNode.End, SeesNodes, SeesSpans, JamAt, EndIn, Closed;
    var h := EndedAt(f, r, now);
    SeesEnded(f, sent, v, r, now);
    JamValid(h, r, clock);
    var k := h.trees[r][0];
    assert g == h.(nodes := h.nodes[k - 1 := Closed(h.Node(k), clock(0))]);
    SeesClosed(h, sent, EndIn(v, r, now), k, clock(0));
  }

  /** The nodes a caller knows under a root are the root and its chain. */
  lemma TreeCount(f: Forest, v: View, r: int)
    requires f.Valid() && SeesNodes(f, v) && r in f.trees
    ensures |Tree(v, r)| == |f.trees[r]| + 1
  {
    hide TraceForest.Forest.Valid;
    var chain := Chain(f, r);
    ChainDistinct(f, r);
    DistinctCount(chain);
    forall x ensures x in Tree(v, r) <==> x in chain {
      TreeMember(f, v, r, x);
    }
    assert Tree(v, r) == Elements(chain);
  }

  lemma TreeMember(f: Forest, v: View, r: int, x: int)
    requires f.Valid() && SeesNodes(f, v) && r in f.trees
    ensures x in Tree(v, r) <==> x in Chain(f, r)
  {
    hide TraceForest.Forest.Valid;
    TreeParts(f, r);
    forall i | 0 <= i < |f.trees[r]| ensures f.Live(f.trees[r][i]) {
      assert f.KidOk(r, i);
    }
    if f.Live(x) {
      MembersAre(f, r, x);
    }
  }

  /** The span of a root is the one its caller expects. */
  lemma SeesSpanNow(f: Forest, sent: seq<Span>, v: View, r: int, now: int, clock: nat -> int)
    requires f.Valid() && Sees(f, sent, v) && r in f.trees && f.Live(r)
    ensures SeesSpan(SpanOf(f, r, now, clock), SpanNow(v, r, now, clock), v.agent)
  {
    hide TraceForest.Forest.Valid, TraceNode.End, Get, SeesSpans, Closed, SeesNode, SeesEvent, Tells;
    var span, s := SpanOf(f, r, now, clock), SpanNow(v, r, now, clock);
    assert v.chains[r] == f.trees[r];
    RootIffTree(f, r);
    SeesRootEnd(f.Node(r), v.nodes[r], v.agent, now);
    forall i | 0 <= i < |s.events| ensures SeesEvent(span.events[i], s, i) {
      SeesOneEvent(f, sent, v, r, now, clock, i);
    }
  }

  lemma SeesRootEnd(n: TraceNode, e: Entry, agent: int, now: int)
    requires SeesNode(n, e, agent) && n.rootId == n.id
    ensures var notes := n.End(now).value.notes;
            && Tells(notes, e, true) && Get(notes, AGENT_TYPE) == Some(Value.Int(agent))
            && Get(notes, ELAPSED) == Some(Value.Int(AsInt64(now - e.start)))
            && Get(notes, START) == Some(Value.UInt(AsUInt64(e.start)))
  {
    hide TraceNode.End, Get, AsInt64, AsUInt64;
    forall name { EndNotes(n, now, name); }
  }

  lemma SeesOneEvent(f: Forest, sent: seq<Span>, v: View, r: int, now: int, clock: nat -> int, i: nat)
    requires f.Valid() && Sees(f, sent, v) && r in f.trees && f.Live(r) && i < |f.trees[r]|
    ensures SeesEvent(SpanOf(f, r, now, clock).events[i], SpanNow(v, r, now, clock), i)
  {
    hide TraceForest.Forest.Valid, TraceNode.End, Get, SeesSpans, Alike, Tells, AsInt64, AsUInt64, Closed;
    EventsAreTheChain(f, r, clock, i);
    TreeParts(f, r);
    assert f.KidOk(r, i);
    var k, before := f.trees[r][i], f.Before(r, i);
    assert SeesNode(f.Node(k), v.nodes[k], v.agent) && SeesNode(f.Node(before), v.nodes[before], v.agent);
    SeesClosing(f.Node(k), v.nodes[k], v.agent, clock(i));
    var s := SpanNow(v, r, now, clock);
    assert s.events[i] == v.nodes[k] && s.closes[i] == clock(i) && s.root == v.nodes[r];
    assert i > 0 ==> s.events[i - 1] == v.nodes[before];
  }

  lemma SeesClosing(n: TraceNode, e: Entry, agent: int, now: int)
    requires SeesNode(n, e, agent)
    ensures Tells(Closed(n, now).value.notes, e, Open(e))
    ensures Closed(n, now).expiredTime == if Open(e) then AsInt64(now - e.start) else AsInt64(e.ended.value - e.start)
  {
    hide TraceNode.End, Get, AsInt64;
    if Open(e) {
      forall name { EndNotes(n, now, name); }
    }
  }

  /** The end of a root, forced or not. */
  lemma SeesFelled(f: Forest, g: Forest, was: seq<Span>, sent: seq<Span>, v: View, r: int, span: Span, now: int,
                   clock: nat -> int)
    requires f.Valid() && Sees(f, was, v) && r in f.trees && f.Live(r) && Felled(f, g, r)
    requires SeesSpan(span, SpanNow(v, r, now, clock), v.agent) && sent == if Passes(f, r) then was + [span] else was
    ensures Sees(g, sent, Without(v, r, now, clock))
  {
    hide TraceForest.Forest.Valid, SeesSpan, SpanNow, SeesNode;
    RootIffTree(f, r);
    forall q <- g.trees ensures g.Live(q) && g.Node(q).extra.Some? && f.Live(q) && g.Node(q) == f.Node(q) {
      ChainEnd(f, q);
      RootIffTree(f, q);
      assert f.Node(q).rootId == q;
    }
    SeesKnows(f, v);
  }

  lemma SeesKnows(f: Forest, v: View)
    requires SeesNodes(f, v)
    ensures forall x <- v.nodes :: v.nodes[x].root == f.Node(x).rootId
  {
  }

  lemma SeesNewStatus(f: Forest, sent: seq<Span>, v: View, id: int, status: int)
    requires f.Valid() && Sees(f, sent, v) && f.Live(id)
    ensures var r := f.Node(id).rootId;
            && r in f.trees && f.Live(r) && f.Node(r).extra.Some? && id in v.nodes
            && Sees(WithStatus(f, r, status), sent, v.(status := v.status[v.nodes[id].root := status]))
  {
    hide TraceForest.Forest.Valid, Alike, SeesSpan, Get;
    SeesRoot(f, v, id);
    ChainEnd(f, f.Node(id).rootId);
  }

  method RunStart(a: Agent, parent: int, time: nat -> int, clock: nat -> int, ghost v: View) returns (id: int)
    requires a.Valid() && Sees(a.Forest(), a.sent, v) && v.agent == a.agentType
    modifies a, a.pool, a.pool.cells.Repr
    ensures a.Valid() && fresh(a.pool.cells.Repr - old(a.pool.cells.Repr))
    ensures Told(v, Start(parent), id) && Sees(a.Forest(), a.sent, After(v, Start(parent), time, clock, id))
  {
    hide TraceForest.Forest.Valid, NodeCells.Valid, Partition, Tidy, SpansKept, LiveIds, After, SeesStatus, SeesSpans;
    ghost var f := a.Forest();
    ViewCount(f, v);
    a.pool.AtMostCapacity();
    id := a.StartTrace(parent, time(0));
    if id == E_INVALID_NODE {
      assert After(v, Start(parent), time, clock, id) == v by { NobodyStarted(v, parent, time, clock); }
    } else if parent == E_ROOT_NODE {
      SeesStartedRoot(f, a.Forest(), a.sent, v, id, time, clock);
    } else {
      SeesStartedChild(f, a.Forest(), a.sent, v, parent, id, time, clock);
    }
  }

  lemma NobodyStarted(v: View, parent: int, time: nat -> int, clock: nat -> int)
    ensures After(v, Start(parent), time, clock, E_INVALID_NODE) == v
  {
  }

  /** Ending a root fails for the pool exactly when it does for the caller's view. */
  lemma SeesUnendable(f: Forest, sent: seq<Span>, v: View, r: int)
    requires f.Valid() && Sees(f, sent, v) && r in f.trees && f.Live(r)
    ensures Jams(f, r) == Unendable(v, r) && Passes(f, r) == MayPass(v, r)
  {
    hide TraceForest.Forest.Valid, Alike, Get, SeesSpans;
    AlikeClue(f.Node(r).value.notes, v.nodes[r].notes, Single([], []), 0);
  }

  method RunEnd(a: Agent, id: int, time: nat -> int, clock: nat -> int, ghost v: View) returns (ret: int)
    requires a.Valid() && Sees(a.Forest(), a.sent, v)
    modifies a, a.pool, a.pool.cells.Repr
    ensures a.Valid() && fresh(a.pool.cells.Repr - old(a.pool.cells.Repr))
    ensures Told(v, End(id), ret) && Sees(a.Forest(), a.sent, After(v, End(id), time, clock, ret))
  {
    hide TraceForest.Forest.Valid, NodeCells.Valid, Partition, Tidy, SpansKept, TraceNode.End;
    hide Without, Stuck, SeesStatus, SeesSpans, SpanOf, Felled, JammedAt, Jams, Unendable, SeesSpan, SpanNow;
    hide SeesNode, EndedAt;
    ghost var f, was := a.Forest(), a.sent;
    ret := a.EndTrace(id, time(0), clock);
    if f.Live(id) {
      SeesRoot(f, v, id);
      if id !in f.trees {
        SeesEnded(f, was, v, id, time(0));
      } else {
        SeesUnendable(f, was, v, id);
        if Jams(f, id) {
          SeesStuck(f, a.Forest(), was, v, id, time(0), clock);
        } else {
          SeesSpanNow(f, was, v, id, time(0), clock);
          SeesFelled(f, a.Forest(), was, a.sent, v, id, SpanOf(f, id, time(0), clock), time(0), clock);
        }
      }
    }
  }

  /** The way up is as long as the node is deep, and leads through the nodes a caller expects. */
  lemma {:induction false} SeesWayUp(f: Forest, v: View, id: int, path: seq<int>, r: int)
    requires f.Valid() && SeesNodes(f, v) && f.Live(id) && Upward(f, id, path, r) && r in f.trees
    ensures id in v.nodes && v.nodes[id].depth == |path| && path == Path(v, id, |path|)
    decreases |path|
  {
    hide TraceForest.Forest.Valid, Alike, Get;
    SeesRoot(f, v, id);
    assert SeesNode(f.Node(id), v.nodes[id], v.agent);
    if path == [] {
      TreeParts(f, r);
    } else {
      assert UpFrom(f, path, r, 0);
      var p, rest := f.Node(id).parentId, path[1..];
      LiveIsPlaced(f, id);
      TreeParts(f, f.Node(id).rootId);
      RootIffTree(f, id);
      assert f.KidOk(f.Node(id).rootId, f.Node(id).sequence);
      forall i | 0 <= i < |rest| ensures UpFrom(f, rest, r, i) {
        assert UpFrom(f, path, r, i + 1);
      }
      SeesWayUp(f, v, p, rest, r);
      assert path == [id] + rest;
    }
  }

  /** Felled from where the way up has left the forest. */
  lemma {:induction false} FelledLast(f: Forest, g: Forest, path: seq<int>, r: int, time: nat -> int)
    requires f.Valid() && Felled(f, g, r) && forall x <- path :: f.Live(x) && f.Node(x).rootId == r
    ensures Felled(EndedPath(f, path, time), g, r)
  {
    hide EndedPath, TraceForest.Forest.Valid;
    assert |f.nodes| == |f.used|;
    EndedPathNodes(f, path, time);
  }

  method RunForceEnd(a: Agent, id: int, time: nat -> int, clock: nat -> int, ghost v: View) returns (ret: int)
    requires a.Valid() && Sees(a.Forest(), a.sent, v)
    modifies a, a.pool, a.pool.cells.Repr
    ensures a.Valid() && fresh(a.pool.cells.Repr - old(a.pool.cells.Repr))
    ensures Told(v, ForceEnd(id), ret) && Sees(a.Forest(), a.sent, After(v, ForceEnd(id), time, clock, ret))
  {
    hide TraceForest.Forest.Valid, NodeCells.Valid, Partition, Tidy, SpansKept, TraceNode.End, Climbed, ForcedSpan;
    hide SeesStatus, SeesSpans, SeesNode, Jams, Unendable, After;
    ghost var f, was := a.Forest(), a.sent;
    var visited;
    ret, visited := a.ForceEndTrace(id, time, clock);
    if f.Live(id) {
      SeesRoot(f, v, id);
      SeesForced(f, a.Forest(), was, a.sent, v, id, visited, time, clock, ret);
    } else {
      NobodyForced(v, id, time, clock, ret);
    }
  }

  lemma NobodyForced(v: View, id: int, time: nat -> int, clock: nat -> int, ret: int)
    requires id !in v.nodes
    ensures After(v, ForceEnd(id), time, clock, ret) == v
  {
  }

  lemma SeesForced(f: Forest, g: Forest, was: seq<Span>, sent: seq<Span>, v: View, id: int, visited: seq<int>,
                   time: nat -> int, clock: nat -> int, ret: int)
    requires f.Valid() && Sees(f, was, v) && f.Live(id) && Climbed(f, g, id, visited, time, clock)
    requires ForcedSpan(f, id, visited, time, clock, was, sent)
    requires var r := f.Node(id).rootId; ret == if Jams(f, r) then E_INVALID_NODE else E_ROOT_NODE
    ensures Unendable(v, f.Node(id).rootId) == Jams(f, f.Node(id).rootId)
    ensures Sees(g, sent, After(v, ForceEnd(id), time, clock, ret))
  {
    hide TraceForest.Forest.Valid, TraceNode.End, SeesStatus, SeesSpans, SeesNode, EndedPath, Upward, SpanOf, Felled;
    hide JammedAt, Jams, Unendable, Without, Stuck, SeesSpan, SpanNow;
    var r, n := f.Node(id).rootId, |visited| - 1;
    var path := visited[..n];
    SeesRoot(f, v, id);
    SeesWayUp(f, v, id, path, r);
    SeesUnendable(f, was, v, r);
    SeesPath(f, was, v, path, time);
    var last, w := EndedPath(f, path, time), EndAll(v, path, time);
    if Jams(f, r) {
      SeesStuck(last, g, was, w, r, time(n), clock);
    } else {
      FelledLast(f, g, path, r, time);
      SeesSpanNow(last, was, w, r, time(n), clock);
      SamePassing(f, last, path, r, time);
      SeesFelled(last, g, was, sent, w, r, SpanOf(last, r, time(n), clock), time(n), clock);
    }
  }

  lemma {:induction false} SamePassing(f: Forest, last: Forest, path: seq<int>, r: int, time: nat -> int)
    requires |f.nodes| == |f.used| && (forall x <- path :: f.Live(x) && x !in f.trees) && r in f.trees && f.Live(r)
    requires last == EndedPath(f, path, time)
    ensures Passes(last, r) == Passes(f, r)
  {
    EndedPathNodes(f, path, time);
  }

  /** An annotation reaches the node the caller means. */
  lemma SeesNoted(f: Forest, sent: seq<Span>, v: View, id: int, clue: Clue, atRoot: bool)
    requires f.Valid() && Sees(f, sent, v)
    ensures Sees(Noted(f, id, clue, atRoot), sent, WithNote(v, id, clue, atRoot))
  {
    hide TraceForest.Forest.Valid, SeesNode, SeesStatus, SeesSpans, Written, ClueValue, Insert;
    if f.Live(id) {
      SeesRoot(f, v, id);
      var r := f.Node(id).rootId;
      ChainEnd(f, r);
      var at := ClueAt(id, r, clue, atRoot);
      SeesWritten(f, v, id, r, at, clue);
      SeesStillStatus(f, v, id, r, at, clue);
      SeesOnlyNodes(Written(f, id, r, at, clue), sent, v, WithNote(v, id, clue, atRoot));
    }
  }

  lemma SeesStillStatus(f: Forest, v: View, id: int, r: int, at: int, clue: Clue)
    requires SeesStatus(f, v) && f.Live(id) && f.Live(r) && (at == id || at == r)
    ensures SeesStatus(Written(f, id, r, at, clue), v)
  {
    hide Written;
    WrittenNodes(f, id, r, at, clue);
  }

  lemma SeesOnlyNodes(g: Forest, sent: seq<Span>, v: View, w: View)
    requires SeesStatus(g, v) && SeesSpans(sent, v) && SeesNodes(g, w) && w == v.(nodes := w.nodes)
    ensures Sees(g, sent, w)
  {
    hide SeesNode, SeesSpan;
  }

  lemma SeesWritten(f: Forest, v: View, id: int, r: int, at: int, clue: Clue)
    requires SeesNodes(f, v) && f.Live(id) && f.Live(r) && (at == id || at == r) && v.nodes[id].root == r
    ensures var g := Written(f, id, r, at, clue);
            var noted := ClueValue(v.nodes[at].notes, clue, v.nodes[r].start);
            var w := if clue.Thrown? then ThrownIn(ThrownIn(v, id), r) else v;
            var e := w.nodes[at];
            SeesNodes(g, if noted.None? then v
                         else w.(nodes := w.nodes[at := e.(notes := Insert(e.notes, noted.value.0, noted.value.1))]))
  {
    hide ClueValue, Insert, Written, SeesNode;
    var g := Written(f, id, r, at, clue);
    WrittenNodes(f, id, r, at, clue);
    forall x <- v.nodes {
      SeesNodeWritten(f, g, v, id, r, at, clue, x);
    }
  }

  lemma SeesNodeWritten(f: Forest, g: Forest, v: View, id: int, r: int, at: int, clue: Clue, x: int)
    requires SeesNodes(f, v) && f.Live(id) && f.Live(r) && (at == id || at == r) && f.Live(x)
    requires g == Written(f, id, r, at, clue)
    ensures |g.nodes| == |g.used| && g.Live(x)
    ensures var noted := ClueValue(v.nodes[at].notes, clue, v.nodes[r].start);
            var e := v.nodes[x];
            var e := if noted.Some? && clue.Thrown? && (x == id || x == r) then e.(thrown := true) else e;
            var e := if noted.Some? && x == at then e.(notes := Insert(e.notes, noted.value.0, noted.value.1)) else e;
            SeesNode(g.Node(x), e, v.agent)
  {
    hide Alike, ClueValue, Insert, Get, Written, AsInt64;
    WrittenNodes(f, id, r, at, clue);
    var a, b := f.Node(at).value.notes, v.nodes[at].notes;
    assert SeesNode(f.Node(at), v.nodes[at], v.agent) && SeesNode(f.Node(r), v.nodes[r], v.agent);
    AlikeClue(a, b, clue, f.Node(r).startTime);
    var noted := ClueValue(a, clue, f.Node(r).startTime);
    if noted.Some? {
      AlikeInsert(a, b, noted.value.0, noted.value.1);
      ClueName(a, clue, f.Node(r).startTime);
      GetInsert(a, noted.value.0, noted.value.1, AGENT_TYPE);
    }
  }

  method RunNote(a: Agent, id: int, clue: Clue, atRoot: bool, ghost v: View) returns (result: int)
    requires a.Valid() && Sees(a.Forest(), a.sent, v) && (clue.Fault? ==> clue.line < TWO_32)
    modifies a, a.pool, a.pool.cells.Repr
    ensures a.Valid() && fresh(a.pool.cells.Repr - old(a.pool.cells.Repr))
    ensures result == 0 && Sees(a.Forest(), a.sent, WithNote(v, id, clue, atRoot))
  {
    hide TraceForest.Forest.Valid, NodeCells.Valid, Partition, Tidy, SpansKept, Sees, Noted;
    SeesNoted(a.Forest(), a.sent, v, id, clue, atRoot);
    var _ := a.Annotate(id, clue, atRoot);
    result := 0;
  }

  method RunSetStatus(a: Agent, id: int, status: int, time: nat -> int, clock: nat -> int, ghost v: View)
    returns (older: int)
    requires a.Valid() && Sees(a.Forest(), a.sent, v)
    modifies a, a.pool, a.pool.cells.Repr
    ensures a.Valid() && fresh(a.pool.cells.Repr - old(a.pool.cells.Repr))
    ensures Told(v, SetStatus(id, status), older)
    ensures Sees(a.Forest(), a.sent, After(v, SetStatus(id, status), time, clock, older))
  {
    hide TraceForest.Forest.Valid, NodeCells.Valid, Partition, Tidy, SpansKept, SeesSpans, SeesNode;
    ghost var f := a.Forest();
    older := a.ChangeTraceStatus(id, status);
    if f.Live(id) {
      SeesRoot(f, v, id);
      SeesNewStatus(f, a.sent, v, id, status);
    }
  }

  /** One call. */
  method RunCall(a: Agent, call: Call, time: nat -> int, clock: nat -> int, ghost v: View) returns (result: int)
    requires a.Valid() && Sees(a.Forest(), a.sent, v) && v.agent == a.agentType && Sane(call)
    modifies a, a.pool, a.pool.cells.Repr
    ensures a.Valid() && fresh(a.pool.cells.Repr - old(a.pool.cells.Repr))
    ensures Told(v, call, result) && Sees(a.Forest(), a.sent, After(v, call, time, clock, result))
    ensures After(v, call, time, clock, result).agent == a.agentType
  {
    hide Sees, WithNote, NodeCells.Valid, Partition, Tidy, SpansKept, TraceForest.Forest.Valid;
    match call {
      case Start(parent) => result := RunStart(a, parent, time, clock, v);
      case End(id) => result := RunEnd(a, id, time, clock, v);
      case ForceEnd(id) => result := RunForceEnd(a, id, time, clock, v);
      case SetStatus(id, status) => result := RunSetStatus(a, id, status, time, clock, v);
      case Note(id, clue, atRoot) => result := RunNote(a, id, clue, atRoot, v);
    }
    SameAgent(v, call, time, clock, result);
  }

  lemma SameAgent(v: View, call: Call, time: nat -> int, clock: nat -> int, result: int)
    ensures After(v, call, time, clock, result).agent == v.agent
  {
  }

  /** A line number is a `uint32_t`. */
  predicate Sane(call: Call) {
    call.Note? && call.clue.Fault? ==> call.clue.line < TWO_32
  }

  /** Results and views of a run fit each other, call by call. */
  ghost predicate Consistent(calls: seq<Call>, agent: int, time: nat -> nat -> int, clock: nat -> nat -> int,
                             results: seq<int>, views: seq<View>)
  {
    && |views| == |results| + 1 && |results| <= |calls| && views[0] == NoView(agent)
    && forall i | 0 <= i < |results| ::
         && Told(views[i], calls[i], results[i])
         && views[i + 1] == After(views[i], calls[i], time(i), clock(i), results[i])
  }

  lemma ConsistentSnoc(calls: seq<Call>, agent: int, time: nat -> nat -> int, clock: nat -> nat -> int,
                       results: seq<int>, views: seq<View>, result: int)
    requires Consistent(calls, agent, time, clock, results, views) && |results| < |calls|
    requires Told(views[|results|], calls[|results|], result)
    ensures var n := |results|;
            var next := After(views[n], calls[n], time(n), clock(n), result);
            Consistent(calls, agent, time, clock, results + [result], views + [next])
  {
    hide Told, After;
  }

  lemma StartView(f: Forest)
    requires f.Valid() && f.trees == map[]
    ensures forall agent :: Sees(f, [], NoView(agent))
  {
    EmptyIffUnused(f);
  }

  /** Any run of calls from a new agent, with any ids: every result is the one the results before it call
      for, and the pool holds exactly the trees a caller can put together from them. It reports that all
      nodes are back exactly when no root is open. Call `i` reads the clock as `time(i)(k)` and `clock(i)(k)`. */
  method RunCalls(calls: seq<Call>, agentType: int32, time: nat -> nat -> int, clock: nat -> nat -> int)
    returns (a: Agent, results: seq<int>, views: seq<View>, clean: bool)
    requires forall call <- calls :: Sane(call)
    ensures fresh(a) && a.Valid()
    ensures |results| == |calls| && Consistent(calls, agentType, time, clock, results, views)
    ensures Sees(a.Forest(), a.sent, views[|calls|])
    ensures a.Forest().trees.Keys == views[|calls|].status.Keys && (clean <==> views[|calls|].status.Keys == {})
  {
    hide TraceForest.Forest.Valid, NodeCells.Valid, Partition, Tidy, SpansKept, Told, After, Consistent, Sees;
    a := new Agent(agentType);
    results, views := [], [NoView(agentType)];
    StartView(a.Forest());
    StartConsistent(calls, agentType, time, clock);
    for i := 0 to |calls|
      invariant fresh(a) && fresh(a.pool) && fresh(a.pool.cells.Repr)
      invariant |results| == i && |views| == i + 1 && Consistent(calls, agentType, time, clock, results, views)
      invariant a.Valid() && Sees(a.Forest(), a.sent, views[i]) && views[i].agent == a.agentType == agentType
    {
      var result := RunCall(a, calls[i], time(i), clock(i), views[i]);
      ConsistentSnoc(calls, agentType, time, clock, results, views, result);
      results, views := results + [result], views + [After(views[i], calls[i], time(i), clock(i), result)];
    }
    SeesRoots(a.Forest(), a.sent, views[|calls|]);
    clean := a.pool.NoNodesLeak();
  }

  lemma StartConsistent(calls: seq<Call>, agent: int, time: nat -> nat -> int, clock: nat -> nat -> int)
    ensures Consistent(calls, agent, time, clock, [], [NoView(agent)])
  {
  }

  lemma SeesRoots(f: Forest, sent: seq<Span>, v: View)
    requires Sees(f, sent, v)
    ensures v.status.Keys == f.trees.Keys && |v.spans| == |sent| && forall x :: x in v.nodes <==> f.Live(x)
  {
  }

  /** A root with a node under it whose name for events is taken: it cannot be ended, and its nodes stay. */
  method TakenName() returns (a: Agent, root: int, ret: int, clean: bool)
    ensures fresh(a) && a.Valid() && a.Forest().Live(root) && ret == E_INVALID_NODE && a.sent == [] && !clean
  {
    hide TraceForest.Forest.Valid, NodeCells.Valid, Partition, Tidy, SpansKept, LiveIds, After, Told, Sees;
    a := new Agent(0);
    var v, time := NoView(0), AT_ZERO;
    StartView(a.Forest());
    root := RunStart(a, E_ROOT_NODE, time, time, v);
    ghost var v1 := After(v, Start(E_ROOT_NODE), time, time, root);
    SameAgent(v, Start(E_ROOT_NODE), time, time, root);
    var kid := RunStart(a, root, time, time, v1);
    ghost var v2 := After(v1, Start(root), time, time, kid);
    var noted := RunNote(a, root, Single(EVENT, []), false, v2);
    ghost var v3 := WithNote(v2, root, Single(EVENT, []), false);
    TakenView(root, kid, v1, v2, v3);
    ret := RunEnd(a, root, time, time, v3);
    SeesRoots(a.Forest(), a.sent, After(v3, End(root), time, time, ret));
    clean := a.pool.NoNodesLeak();
  }

  const AT_ZERO: nat -> int := _ => 0

  lemma TakenView(root: int, kid: int, v1: View, v2: View, v3: View)
    requires Told(NoView(0), Start(E_ROOT_NODE), root) && v1 == After(NoView(0), Start(E_ROOT_NODE), AT_ZERO, AT_ZERO, root)
    requires Told(v1, Start(root), kid) && v2 == After(v1, Start(root), AT_ZERO, AT_ZERO, kid)
    requires v3 == WithNote(v2, root, Single(EVENT, []), false)
    ensures v1.agent == 0
    ensures forall ret | Told(v3, End(root), ret) ::
              && ret == E_INVALID_NODE
              && var w := After(v3, End(root), AT_ZERO, AT_ZERO, ret);
                 root in w.nodes && root in w.status && w.spans == []
  {
    hide Get, Insert;
    GetInsert([], EVENT, Str([]), EVENT);
  }
}
