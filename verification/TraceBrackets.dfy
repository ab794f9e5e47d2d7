/** Thread-local start/end pairs, nested: a stack, as long as the pool can hold every node of it. */
module TraceBrackets {
  import opened Bytes
  import opened JsonValue
  import opened Annotations
  import opened TraceForest
  import opened TracePool
  import opened TraceAgent

  /** A start, the brackets inside, and the end that belongs to it. */
  datatype Bracket = Bracket(inside: seq<Bracket>)

  /** The nodes a bracket starts. */
  function Size(b: Bracket): (n: nat)
    ensures n > 0
    decreases b
  {
    1 + Total(b.inside)
  }

  function Total(bs: seq<Bracket>): (n: nat)
    decreases bs
  {
    if bs == [] then 0 else Size(bs[0]) + Total(bs[1..])
  }

  lemma {:induction false} TotalSnoc(bs: seq<Bracket>, b: Bracket)
    ensures Total(bs + [b]) == Total(bs) + Size(b)
    decreases |bs|
  {
    if bs == [] {
      assert bs + [b] == [b];
    } else {
      assert (bs + [b])[1..] == bs[1..] + [b];
      TotalSnoc(bs[1..], b);
    }
  }

  /** How many brackets, from the `i`-th on, find room one after the other. */
  function Fitting(bs: seq<Bracket>, room: int, i: nat): (k: nat)
    requires i <= |bs|
    ensures i <= k <= |bs|
    ensures k < |bs| ==> Size(bs[k]) > room
    ensures forall j | i <= j < k :: Size(bs[j]) <= room
    decreases |bs| - i
  {
    if i == |bs| || Size(bs[i]) > room then i else Fitting(bs, room, i + 1)
  }

  /** Preorder: for each node a bracket starts, the place in the chain of the node it is started under, or -1
      for the node the thread is at. The chain has `from` nodes before. */
  function Shape(b: Bracket, from: nat): (s: seq<int>)
    ensures |s| == Size(b) && forall i | 0 <= i < |s| :: -1 <= s[i] < from + i
    decreases b
  {
    [-1] + Under(Shapes(b.inside, from + 1), from)
  }

  function Shapes(bs: seq<Bracket>, from: nat): (s: seq<int>)
    ensures |s| == Total(bs) && forall i | 0 <= i < |s| :: -1 <= s[i] < from + i
    decreases bs
  {
    if bs == [] then [] else Shape(bs[0], from) + Shapes(bs[1..], from + Size(bs[0]))
  }

  /** The outer nodes of `s` are those under the node at place `p`. */
  function Under(s: seq<int>, p: nat): (r: seq<int>)
    ensures |r| == |s| && forall i | 0 <= i < |s| :: r[i] == if s[i] < 0 then p else s[i]
  {
    seq(|s|, i requires 0 <= i < |s| => if s[i] < 0 then p else s[i])
  }

  lemma {:induction false} ShapesSnoc(bs: seq<Bracket>, b: Bracket, from: nat)
    ensures Shapes(bs + [b], from) == Shapes(bs, from) + Shape(b, from + Total(bs))
    decreases |bs|
  {
    hide Shape;
    if bs == [] {
      assert bs + [b] == [b] && Shapes([b][1..], from + Size(b)) == [];
    } else {
      assert (bs + [b])[1..] == bs[1..] + [b];
      ShapesSnoc(bs[1..], b, from + Size(bs[0]));
    }
  }

  /** Below a node of depth 0. */
  function Depth(s: seq<int>, j: nat): (d: nat)
    requires j < |s| && forall i | 0 <= i < |s| :: s[i] < i
    decreases j
  {
    1 + if s[j] < 0 then 0 else Depth(s, s[j])
  }

  /** The node at place `at` of a chain is a child of the one at `p`, or of `c`; and, if `closed`, has been ended. */
  ghost predicate Hangs(g: Forest, ch: seq<int>, c: int, at: nat, p: int, closed: bool)
    requires |g.nodes| == |g.used|
  {
    && p < at < |ch| && g.Live(ch[at])
    && g.Node(ch[at]).parentId == (if p < 0 then c else ch[p])
    && (closed ==> Get(g.Node(ch[at]).value.notes, ELAPSED).Some?)
  }

  ghost predicate AllHang(g: Forest, ch: seq<int>, c: int, from: nat, s: seq<int>, closed: bool)
    requires |g.nodes| == |g.used|
  {
    forall i | 0 <= i < |s| :: Hangs(g, ch, c, from + i, s[i], closed)
  }

  /** Nodes keep their parents and their ends. */
  ghost predicate Keeps(g: Forest, h: Forest) {
    && |g.nodes| == |g.used| && |h.nodes| == |h.used|
    && forall x | g.Live(x) ::
         && h.Live(x) && h.Node(x).parentId == g.Node(x).parentId
         && (Get(g.Node(x).value.notes, ELAPSED).Some? ==> Get(h.Node(x).value.notes, ELAPSED).Some?)
  }

  lemma HangOn(g: Forest, h: Forest, ch: seq<int>, longer: seq<int>, c: int, from: nat, s: seq<int>, closed: bool)
    requires Keeps(g, h) && ch <= longer && AllHang(g, ch, c, from, s, closed)
    ensures AllHang(h, longer, c, from, s, closed) && AllHang(h, longer, c, from, s, false)
  {
    forall i | 0 <= i < |s| ensures Hangs(h, longer, c, from + i, s[i], closed) {
      assert Hangs(g, ch, c, from + i, s[i], closed);
    }
  }

  lemma HangTogether(g: Forest, ch: seq<int>, c: int, from: nat, s: seq<int>, t: seq<int>, closed: bool)
    requires |g.nodes| == |g.used| && AllHang(g, ch, c, from, s, closed) && AllHang(g, ch, c, from + |s|, t, closed)
    ensures AllHang(g, ch, c, from, s + t, closed)
  {
    forall i | 0 <= i < |s + t| ensures Hangs(g, ch, c, from + i, (s + t)[i], closed) {
      if i >= |s| {
        assert Hangs(g, ch, c, from + |s| + (i - |s|), t[i - |s|], closed);
      }
    }
  }

  /** What hangs below `d`, which hangs below `c`. */
  lemma HangUnder(g: Forest, ch: seq<int>, c: int, d: int, from: nat, s: seq<int>, closed: bool)
    requires |g.nodes| == |g.used| && Hangs(g, ch, c, from, -1, closed) && ch[from] == d
    requires AllHang(g, ch, d, from + 1, s, closed)
    ensures AllHang(g, ch, c, from, [-1] + Under(s, from), closed)
  {
    var all := [-1] + Under(s, from);
    forall i | 0 <= i < |all| ensures Hangs(g, ch, c, from + i, all[i], closed) {
      if i > 0 {
        assert Hangs(g, ch, d, from + 1 + (i - 1), s[i - 1], closed);
      }
    }
  }

  /** The nodes of the chain of the root `d`, from its start, have the depths of the shape. */
  lemma {:induction false} HangDepth(g: Forest, d: int, s: seq<int>, j: nat)
    requires g.Valid() && d in g.trees && |s| == |g.trees[d]| && j < |s| && forall i | 0 <= i < |s| :: s[i] < i
    requires AllHang(g, g.trees[d], d, 0, s, true)
    ensures g.Live(g.trees[d][j]) && g.Node(g.trees[d][j]).depth == Depth(s, j)
    decreases j
  {
    assert Hangs(g, g.trees[d], d, 0 + j, s[j], true) && g.KidOk(d, j) && g.RootOk(d);
    if s[j] >= 0 {
      HangDepth(g, d, s, s[j]);
    }
  }

  /** The thread is at `c` again: below a live node, nodes of that shape have joined the end of its chain, at
      `E_ROOT_NODE` nothing is left. */
  ghost predicate Around(f: Forest, g: Forest, c: int, s: seq<int>, closed: bool) {
    && |f.nodes| == |f.used| <= |g.nodes| == |g.used|
    && |LiveIds(g)| == |LiveIds(f)| + |s|
    && if c == E_ROOT_NODE then
         && s == [] && g.trees == f.trees
         && (forall x :: g.Live(x) <==> f.Live(x))
         && (forall x | f.Live(x) :: g.Node(x) == f.Node(x))
       else Extended(f, g, c, s, closed)
  }

  /** Only the tree of the live node `c` has changed, and only by nodes of that shape at the end of its chain. */
  ghost predicate Extended(f: Forest, g: Forest, c: int, s: seq<int>, closed: bool) {
    && |f.nodes| == |f.used| <= |g.nodes| == |g.used| && f.Live(c)
    && var r := f.Node(c).rootId;
    && r in f.trees && g.trees.Keys == f.trees.Keys && (forall q <- f.trees | q != r :: g.trees[q] == f.trees[q])
    && f.trees[r] <= g.trees[r] && |g.trees[r]| == |f.trees[r]| + |s|
    && (forall x | f.Live(x) ::
          g.Live(x) && Relinked(f.Node(x), g.Node(x)) && (f.Node(x).rootId != r ==> g.Node(x) == f.Node(x)))
    && (forall x | g.Live(x) && !f.Live(x) :: g.Node(x).rootId == r)
    && AllHang(g, g.trees[r], c, |f.trees[r]|, s, closed)
  }

  /** How long the chain is that a start at the live node `c` extends. */
  ghost function Front(f: Forest, c: int): (n: nat) {
    if |f.nodes| == |f.used| && f.Live(c) && f.Node(c).rootId in f.trees then |f.trees[f.Node(c).rootId]| else 0
  }

  /** A start has failed: the pool is full, and what was started since then, the first nodes of the shape, is still
      in use, in the tree of the live node the thread was at, or in a tree of its own. */
  ghost predicate Stuck(f: Forest, g: Forest, c: int, s: seq<int>) {
    && |LiveIds(f)| <= POOL_CAPACITY == |LiveIds(g)|
    && var n := POOL_CAPACITY - |LiveIds(f)|;
    if c != E_ROOT_NODE then n <= |s| && Around(f, g, c, s[..n], false)
    else if n == 0 then Around(f, g, c, [], false)
    else n - 1 <= |s| && SomeLeftOver(f, g, s[..n - 1])
  }

  ghost predicate SomeLeftOver(f: Forest, g: Forest, s: seq<int>) {
    exists d :: LeftOver(f, g, d, s)
  }

  /** A root `d` with nodes of that shape under it has been left over. */
  ghost predicate LeftOver(f: Forest, g: Forest, d: int, s: seq<int>) {
    && |f.nodes| == |f.used| <= |g.nodes| == |g.used| && d !in f.trees && !f.Live(d)
    && g.trees.Keys == f.trees.Keys + {d} && (forall q <- f.trees :: g.trees[q] == f.trees[q])
    && |g.trees[d]| == |s| && AllHang(g, g.trees[d], d, 0, s, false)
    && (forall x | f.Live(x) :: g.Live(x) && g.Node(x) == f.Node(x))
    && (forall x | g.Live(x) && !f.Live(x) :: g.Node(x).rootId == d)
  }

  lemma AroundSelf(f: Forest, c: int, closed: bool)
    requires f.Valid() && (c == E_ROOT_NODE || f.Live(c))
    ensures Around(f, f, c, [], closed)
  {
    if c != E_ROOT_NODE {
      RootIffTree(f, c);
    }
  }

  lemma ExtendedTrans(f: Forest, g: Forest, h: Forest, c: int, s: seq<int>, t: seq<int>, closed: bool)
    requires Extended(f, g, c, s, true) && Extended(g, h, c, t, closed)
    ensures Extended(f, h, c, s + t, closed)
  {
    hide AllHang;
    var r := f.Node(c).rootId;
    HangOn(g, h, g.trees[r], h.trees[r], c, |f.trees[r]|, s, true);
    HangTogether(h, h.trees[r], c, |f.trees[r]|, s, t, closed);
  }

  lemma AroundTrans(f: Forest, g: Forest, h: Forest, c: int, s: seq<int>, t: seq<int>, closed: bool)
    requires Around(f, g, c, s, true) && Around(g, h, c, t, closed)
    ensures Around(f, h, c, s + t, closed)
  {
    hide Extended, LiveIds;
    if c != E_ROOT_NODE {
      ExtendedTrans(f, g, h, c, s, t, closed);
    }
  }

  lemma FrontAfter(f: Forest, g: Forest, c: int, s: seq<int>, closed: bool)
    requires Extended(f, g, c, s, closed)
    ensures Front(g, c) == Front(f, c) + |s|
  {
    hide AllHang;
  }

  lemma StuckTrans(f: Forest, g: Forest, h: Forest, c: int, s: seq<int>, t: seq<int>)
    requires Around(f, g, c, s, true) && Stuck(g, h, c, t)
    ensures Stuck(f, h, c, s + t)
  {
    hide AllHang, LiveIds, Extended;
    var left := POOL_CAPACITY - |LiveIds(g)|;
    if c != E_ROOT_NODE {
      AroundTrans(f, g, h, c, s, t[..left], false);
      assert (s + t)[..|s| + left] == s + t[..left];
    } else if left == 0 {
      AroundTrans(f, g, h, c, [], [], false);
      assert s + [] == s;
    } else {
      assert s + t == t;
      var d :| LeftOver(g, h, d, t[..left - 1]);
      assert LeftOver(f, h, d, t[..left - 1]);
    }
  }

  /** Start a root `d`, go round at it, end it: nothing is left. */
  lemma RootBracketBack(f: Forest, g: Forest, h: Forest, k: Forest, d: int, s: seq<int>, now: int,
                        clock: nat -> int, ret: int)
    requires f.Valid() && g.Valid() && h.Valid() && !f.Live(d)
    requires g.trees == f.trees[d := []] && Untouched(f, g, d)
    requires Around(g, h, d, s, true) && d != E_ROOT_NODE && g.Live(d) && !Jammed(g.Node(d).value.notes)
    requires Ended(h, k, d, now, clock, ret)
    ensures ret == E_ROOT_NODE && Around(f, k, E_ROOT_NODE, [], true)
    ensures d in h.trees && |h.trees[d]| == |s| && |h.nodes| == |h.used| && AllHang(h, h.trees[d], d, 0, s, true)
    ensures h.Live(d) && !Jams(h, d)
  {
    hide TraceForest.Forest.Valid, LiveIds, AllHang, Jammed;
    RootedElsewhere(f, g, d);
    assert h.Live(d) && h.Node(d).value == g.Node(d).value;
    assert k.trees.Keys == f.trees.Keys;
    forall q <- f.trees ensures k.trees[q] == f.trees[q] {
      assert g.trees[q] == f.trees[q] && h.trees[q] == g.trees[q];
    }
    assert forall x | h.Live(x) && !g.Live(x) :: h.Node(x).rootId == d;
    assert forall x :: k.Live(x) <==> f.Live(x);
    SameLive(f, k);
  }

  /** A new root is no other node's root. */
  lemma RootedElsewhere(f: Forest, g: Forest, d: int)
    requires f.Valid() && g.Valid() && !f.Live(d) && g.trees == f.trees[d := []] && Untouched(f, g, d)
    ensures d !in f.trees && g.Live(d) && g.Node(d).rootId == d && forall x | f.Live(x) :: g.Node(x).rootId != d
  {
    RootsLive(f);
    assert g.RootOk(d);
    forall x | f.Live(x) ensures g.Node(x).rootId != d {
      assert f.Placed(x);
    }
  }

  /** Start `d` under `c`, go round at it: `d` and what is below it have joined the chain. */
  lemma StartedThenAround(f: Forest, g: Forest, h: Forest, c: int, d: int, s: seq<int>, closed: bool, start: int)
    requires f.Valid() && g.Valid() && c != E_ROOT_NODE && d != E_ROOT_NODE && StartedUnder(f, g, c, d, start)
    requires Around(g, h, d, s, closed)
    ensures Around(f, h, c, [-1] + Under(s, Front(f, c)), false)
    ensures var r := f.Node(c).rootId;
            && r in f.trees && r in h.trees && |f.trees[r]| < |h.trees[r]| && h.trees[r][|f.trees[r]|] == d
            && Hangs(h, h.trees[r], c, |f.trees[r]|, -1, false) && AllHang(h, h.trees[r], d, |f.trees[r]| + 1, s, closed)
  {
    hide TraceForest.Forest.Valid, LiveIds, AllHang;
    RootsLive(f);
    OneMoreLive(f, g, d);
    var r := f.Node(c).rootId;
    var n := |f.trees[r]|;
    assert h.trees[r][n] == g.trees[r][n] == d;
    HangOn(h, h, h.trees[r], h.trees[r], d, n + 1, s, closed);
    HangUnder(h, h.trees[r], c, d, n, s, false);
    assert f.trees[r] <= h.trees[r];
  }

  /** Start `d` under `c`, go round at it, end it: back at `c`. */
  lemma ChildBracketBack(f: Forest, g: Forest, h: Forest, k: Forest, c: int, d: int, s: seq<int>,
                         start: int, now: int, clock: nat -> int, ret: int)
    requires f.Valid() && g.Valid() && h.Valid() && c != E_ROOT_NODE && StartedUnder(f, g, c, d, start)
    requires Around(g, h, d, s, true) && d != E_ROOT_NODE && Ended(h, k, d, now, clock, ret)
    ensures ret == c && Around(f, k, c, [-1] + Under(s, Front(f, c)), true) && d !in h.trees
  {
    hide TraceNode.End, TraceForest.Forest.Valid, LiveIds, AllHang, Under, Jams, Get;
    RootsLive(f);
    StartedThenAround(f, g, h, c, d, s, true, start);
    EndNotes(h.Node(d), now, ELAPSED);
    assert d !in h.trees;
    SameLive(h, k);
    var r, ended := f.Node(c).rootId, h.Node(d).End(now);
    assert SameLinks(h.Node(d), ended);
    HangOn(h, k, h.trees[r], h.trees[r], d, |f.trees[r]| + 1, s, true);
    HangUnder(k, k.trees[r], c, d, |f.trees[r]|, s, true);
  }

  /** A root whose tree has grown is left over where it was started. */
  lemma GrownIsLeftOver(f: Forest, g: Forest, h: Forest, d: int, s: seq<int>)
    requires f.Valid() && g.Valid() && !f.Live(d) && g.trees == f.trees[d := []] && Untouched(f, g, d)
    requires Extended(g, h, d, s, false)
    ensures LeftOver(f, h, d, s)
  {
    hide TraceForest.Forest.Valid, AllHang;
    RootedElsewhere(f, g, d);
    assert h.trees.Keys == f.trees.Keys + {d};
    forall q <- f.trees ensures h.trees[q] == f.trees[q] {
      assert g.trees[q] == f.trees[q];
    }
  }

  /** A start that succeeded and then stuck inside. */
  lemma RootBracketStuck(f: Forest, g: Forest, h: Forest, d: int, s: seq<int>)
    requires f.Valid() && g.Valid() && !f.Live(d) && d != E_ROOT_NODE
    requires g.trees == f.trees[d := []] && Untouched(f, g, d) && Stuck(g, h, d, s)
    ensures Stuck(f, h, E_ROOT_NODE, s)
  {
    hide TraceForest.Forest.Valid, LiveIds, LeftOver, Extended;
    OneMoreLive(f, g, d);
    GrownIsLeftOver(f, g, h, d, s[..POOL_CAPACITY - |LiveIds(g)|]);
  }

  lemma ChildBracketStuck(f: Forest, g: Forest, h: Forest, c: int, d: int, s: seq<int>, now: int)
    requires f.Valid() && g.Valid() && c != E_ROOT_NODE && d != E_ROOT_NODE
    requires StartedUnder(f, g, c, d, now) && Stuck(g, h, d, s)
    ensures Stuck(f, h, c, [-1] + Under(s, Front(f, c)))
  {
    hide TraceForest.Forest.Valid, LiveIds, Extended;
    OneMoreLive(f, g, d);
    var n, p := POOL_CAPACITY - |LiveIds(g)|, Front(f, c);
    StartedThenAround(f, g, h, c, d, s[..n], false, now);
    assert ([-1] + Under(s, p))[..n + 1] == [-1] + Under(s[..n], p);
  }

  /** The events of a bracket's span: one per node below its root, numbered in the order they were started,
      and as deep as the bracket has them. */
  ghost predicate SpanOfBracket(span: Span, b: Bracket) {
    var s := Shapes(b.inside, 0);
    && |span.events| == |s|
    && forall j | 0 <= j < |s| ::
         Get(span.events[j], SEQUENCE) == Some(Value.Int(j)) && Get(span.events[j], DEPTH) == Some(Value.Int(Depth(s, j)))
  }

  lemma SpanHasShape(h: Forest, d: int, b: Bracket, now: int, clock: nat -> int)
    requires h.Valid() && d in h.trees && h.Live(d) && |h.trees[d]| == Total(b.inside)
    requires AllHang(h, h.trees[d], d, 0, Shapes(b.inside, 0), true)
    ensures SpanOfBracket(SpanOf(h, d, now, clock), b)
  {
    hide TraceForest.Forest.Valid, AllHang, TraceNode.End;
    var s := Shapes(b.inside, 0);
    forall j | 0 <= j < |s|
      ensures var e := SpanOf(h, d, now, clock).events[j];
              Get(e, SEQUENCE) == Some(Value.Int(j)) && Get(e, DEPTH) == Some(Value.Int(Depth(s, j)))
    {
      HangDepth(h, d, s, j);
      EventsAreTheChain(h, d, clock, j);
    }
  }

  /** One span for each of the first `k` brackets. */
  ghost predicate SentEach(was: seq<Span>, sent: seq<Span>, bs: seq<Bracket>, k: nat)
    requires k <= |bs|
  {
    && |sent| == |was| + k && sent[..|was|] == was
    && forall i | 0 <= i < k :: SpanOfBracket(sent[|was| + i], bs[i])
  }

  /** What a bracket does to a thread at `c`: it comes back exactly when the pool can hold all nodes of
      the bracket, each under the node it was started in and ended; if not, it ends at `E_INVALID_NODE` and what
      was started stays in use. */
  ghost predicate RanBracket(f: Forest, g: Forest, c: int, cur: int, was: seq<Span>, sent: seq<Span>, b: Bracket) {
    if c == E_INVALID_NODE then cur == E_INVALID_NODE && g == f && sent == was
    else if |LiveIds(f)| + Size(b) > POOL_CAPACITY then
      && cur == E_INVALID_NODE && sent == was
      && Stuck(f, g, c, if c == E_ROOT_NODE then Shapes(b.inside, 0) else Shape(b, Front(f, c)))
    else if c == E_ROOT_NODE then cur == c && Around(f, g, c, [], true) && SentEach(was, sent, [b], 1)
    else cur == c && Around(f, g, c, Shape(b, Front(f, c)), true) && sent == was
  }

  /** The same for the first `i` of some brackets: below a live node their nodes add up, at `E_ROOT_NODE`
      each finds the room the one before has left. */
  ghost predicate RanBrackets(f: Forest, g: Forest, c: int, cur: int, was: seq<Span>, sent: seq<Span>,
                              bs: seq<Bracket>, i: nat)
    requires i <= |bs|
  {
    var room := POOL_CAPACITY - |LiveIds(f)|;
    if c == E_INVALID_NODE then cur == E_INVALID_NODE && g == f && sent == was
    else if c == E_ROOT_NODE then
      var k := Fitting(bs, room, 0);
      if k < i then cur == E_INVALID_NODE && Stuck(f, g, c, Shapes(bs[k].inside, 0)) && SentEach(was, sent, bs, k)
      else cur == c && Around(f, g, c, [], true) && SentEach(was, sent, bs, i)
    else
      && sent == was
      && var s := Shapes(bs[..i], Front(f, c));
      if Total(bs[..i]) > room then cur == E_INVALID_NODE && Stuck(f, g, c, s)
      else cur == c && Around(f, g, c, s, true)
  }

  lemma RanNone(f: Forest, c: int, sent: seq<Span>, bs: seq<Bracket>)
    requires f.Valid() && (c == E_INVALID_NODE || c == E_ROOT_NODE || f.Live(c)) && |LiveIds(f)| <= POOL_CAPACITY
    ensures RanBrackets(f, f, c, c, sent, sent, bs, 0)
  {
    hide Around;
    if c != E_INVALID_NODE {
      AroundSelf(f, c, true);
    }
  }

  lemma RanOneMore(f: Forest, g: Forest, h: Forest, c: int, cur: int, next: int, was: seq<Span>, mid: seq<Span>,
                   sent: seq<Span>, bs: seq<Bracket>, i: nat)
    requires i < |bs| && RanBrackets(f, g, c, cur, was, mid, bs, i) && RanBracket(g, h, cur, next, mid, sent, bs[i])
    ensures RanBrackets(f, h, c, next, was, sent, bs, i + 1)
  {
    hide Stuck, Total, LiveIds, Shape, Shapes, Around, SpanOfBracket, SentEach;
    if c == E_ROOT_NODE {
      OneMoreOutside(f, g, h, cur, next, was, mid, sent, bs, i);
    } else if c != E_INVALID_NODE {
      OneMoreInside(f, g, h, c, cur, next, was, mid, sent, bs, i);
    }
  }

  lemma OneMoreOutside(f: Forest, g: Forest, h: Forest, cur: int, next: int, was: seq<Span>, mid: seq<Span>,
                       sent: seq<Span>, bs: seq<Bracket>, i: nat)
    requires i < |bs| && RanBrackets(f, g, E_ROOT_NODE, cur, was, mid, bs, i)
    requires RanBracket(g, h, cur, next, mid, sent, bs[i])
    ensures RanBrackets(f, h, E_ROOT_NODE, next, was, sent, bs, i + 1)
  {
    hide Stuck, Total, LiveIds, Shape, Shapes, SentEach, Extended;
    var c := E_ROOT_NODE;
    if cur == E_INVALID_NODE {
    } else if next == E_INVALID_NODE {
      StuckTrans(f, g, h, c, [], Shapes(bs[i].inside, 0));
      assert [] + Shapes(bs[i].inside, 0) == Shapes(bs[i].inside, 0);
    } else {
      AroundTrans(f, g, h, c, [], [], true);
      var none: seq<int> := [];
      assert none + none == none;
      SentOneMore(was, mid, sent, bs, i);
    }
  }

  lemma SentOneMore(was: seq<Span>, mid: seq<Span>, sent: seq<Span>, bs: seq<Bracket>, i: nat)
    requires i < |bs| && SentEach(was, mid, bs, i) && SentEach(mid, sent, [bs[i]], 1)
    ensures SentEach(was, sent, bs, i + 1)
  {
    hide SpanOfBracket;
    assert sent[..|was|] == mid[..|was|];
    forall k | 0 <= k < i + 1 ensures SpanOfBracket(sent[|was| + k], bs[k]) {
      if k < i {
        assert sent[|was| + k] == sent[..|mid|][|was| + k];
      } else {
        assert [bs[i]][0] == bs[i] && sent[|mid| + 0] == sent[|was| + k];
      }
    }
  }

  lemma OneMoreInside(f: Forest, g: Forest, h: Forest, c: int, cur: int, next: int, was: seq<Span>, mid: seq<Span>,
                      sent: seq<Span>, bs: seq<Bracket>, i: nat)
    requires c != E_ROOT_NODE && c != E_INVALID_NODE
    requires i < |bs| && RanBrackets(f, g, c, cur, was, mid, bs, i) && RanBracket(g, h, cur, next, mid, sent, bs[i])
    ensures RanBrackets(f, h, c, next, was, sent, bs, i + 1)
  {
    hide Stuck, Total, LiveIds, Shape, Shapes, Extended, SentEach;
    assert bs[..i + 1] == bs[..i] + [bs[i]];
    TotalSnoc(bs[..i], bs[i]);
    var from := Front(f, c);
    ShapesSnoc(bs[..i], bs[i], from);
    var s := Shapes(bs[..i], from);
    if cur == E_INVALID_NODE {
      StuckMore(f, h, c, s, Shape(bs[i], from + Total(bs[..i])));
    } else {
      FrontAfter(f, g, c, s, true);
      if next == E_INVALID_NODE {
        StuckTrans(f, g, h, c, s, Shape(bs[i], Front(g, c)));
      } else {
        AroundTrans(f, g, h, c, s, Shape(bs[i], Front(g, c)), true);
      }
    }
  }

  /** Once stuck, further brackets start nothing. */
  lemma StuckMore(f: Forest, g: Forest, c: int, s: seq<int>, t: seq<int>)
    requires c != E_ROOT_NODE && Stuck(f, g, c, s)
    ensures Stuck(f, g, c, s + t)
  {
    hide Around, LiveIds;
    var n := POOL_CAPACITY - |LiveIds(f)|;
    assert (s + t)[..n] == s[..n];
  }

  /** Where a thread can be. */
  ghost predicate Somewhere(f: Forest, c: int) {
    c == E_INVALID_NODE || c == E_ROOT_NODE || f.Live(c)
  }

  /** What the start of a bracket did. */
  ghost predicate Begun(f: Forest, g: Forest, c: int, d: int, agentType: int, now: int) {
    if d == E_INVALID_NODE then g == f && (c == E_INVALID_NODE || |LiveIds(f)| == POOL_CAPACITY)
    else if c == E_ROOT_NODE then
      && !f.Live(d) && g.trees == f.trees[d := []] && Untouched(f, g, d) && g.Live(d)
      && g.nodes[d - 1] == FreshRoot(d, agentType, now)
    else StartedUnder(f, g, c, d, now)
  }

  lemma BegunCounts(f: Forest, g: Forest, c: int, d: int, agentType: int, now: int)
    requires Begun(f, g, c, d, agentType, now) && d != E_INVALID_NODE
    ensures |LiveIds(g)| == |LiveIds(f)| + 1
  {
    OneMoreLive(f, g, d);
  }

  /** The end of a bracket whose inside went through. */
  lemma {:induction false} BracketBack(f: Forest, g: Forest, h: Forest, k: Forest, c: int, d: int, agentType: int,
                                       start: int, end: int,
                    ret: int, clock: nat -> int, was: seq<Span>, sent: seq<Span>, b: Bracket)
    requires f.Valid() && g.Valid() && h.Valid() && c != E_INVALID_NODE && d > 0
    requires Begun(f, g, c, d, agentType, start) && Around(g, h, d, Shapes(b.inside, Front(g, d)), true)
    requires Ended(h, k, d, end, clock, ret) && SentSpan(h, d, end, clock, was, sent)
    ensures ret == c && Around(f, k, c, if c == E_ROOT_NODE then [] else Shape(b, Front(f, c)), true)
    ensures if c == E_ROOT_NODE then SentEach(was, sent, [b], 1) else sent == was
  {
    hide TraceForest.Forest.Valid, LiveIds, TraceNode.End, Ended, Untouched, AllHang, SpanOfBracket, SpanOf, Shapes;
    BegunFront(f, g, c, d, agentType, start);
    var s := Shapes(b.inside, Front(g, d));
    if c == E_ROOT_NODE {
      FreshNotJammed(d, agentType, start);
      assert g.Node(d) == FreshRoot(d, agentType, start);
      RootBracketBack(f, g, h, k, d, s, end, clock, ret);
      RootsLive(h);
      SpanHasShape(h, d, b, end, clock);
    } else {
      ChildBracketBack(f, g, h, k, c, d, s, start, end, clock, ret);
    }
  }

  lemma BegunFront(f: Forest, g: Forest, c: int, d: int, agentType: int, now: int)
    requires f.Valid() && g.Valid() && c != E_INVALID_NODE && d != E_INVALID_NODE && Begun(f, g, c, d, agentType, now)
    ensures Front(g, d) == if c == E_ROOT_NODE then 0 else Front(f, c) + 1
  {
    hide TraceForest.Forest.Valid;
    if c == E_ROOT_NODE {
      RootedElsewhere(f, g, d);
    }
  }

  /** A bracket, with its starts and ends at `time(at)`, `time(at + 1)` and so on. */
  method RunBracket(a: Agent, b: Bracket, at: nat, time: nat -> int, clock: (nat, nat) -> int)
    requires a.Valid() && Somewhere(a.Forest(), a.current)
    modifies a, a.pool, a.pool.cells.Repr
    ensures a.Valid() && fresh(a.pool.cells.Repr - old(a.pool.cells.Repr))
    ensures RanBracket(old(a.Forest()), a.Forest(), old(a.current), a.current, old(a.sent), a.sent, b)
    decreases b, 0
  {
    hide Around, Stuck, Ended, StartedUnder, Untouched, SentEach, SentSpan, Total, Fitting, LiveIds, Shape, Shapes, Front;
    hide TraceForest.Forest.Valid, NodeCells.Valid, Partition, Tidy, SpansKept;
    ghost var f, c := a.Forest(), a.current;
    a.StartLocal(time(at));
    ghost var g, d := a.Forest(), a.current;
    NeverLive(f);
    assert Begun(f, g, c, d, a.agentType, time(at));
    RunBrackets(a, b.inside, at + 1, time, clock);
    ghost var h, e := a.Forest(), a.current;
    ghost var mid := a.sent;
    assert b.inside[..|b.inside|] == b.inside;
    var last := at + 2 * Size(b) - 1;
    a.EndLocal(time(last), (k: nat) => clock(last, k));
    if e == E_INVALID_NODE {
      NeverLive(h);
      DeadStays(h, a.Forest(), e, time(last), (k: nat) => clock(last, k), a.current);
      NothingSentDead(h, e, time(last), (k: nat) => clock(last, k), mid, a.sent);
      BracketStuck(f, g, h, c, d, a.agentType, time(at), b);
    } else {
      BegunCounts(f, g, c, d, a.agentType, time(at));
      BracketBack(f, g, h, a.Forest(), c, d, a.agentType, time(at), time(last), a.current,
                  (k: nat) => clock(last, k), mid, a.sent, b);
    }
  }

  method RunBrackets(a: Agent, bs: seq<Bracket>, at: nat, time: nat -> int, clock: (nat, nat) -> int)
    requires a.Valid() && Somewhere(a.Forest(), a.current)
    modifies a, a.pool, a.pool.cells.Repr
    ensures a.Valid() && fresh(a.pool.cells.Repr - old(a.pool.cells.Repr))
    ensures RanBrackets(old(a.Forest()), a.Forest(), old(a.current), a.current, old(a.sent), a.sent, bs, |bs|)
    decreases bs
  {
    hide RanBrackets, RanBracket, TraceForest.Forest.Valid, NodeCells.Valid, Partition, Tidy, SpansKept, LiveIds;
    a.pool.AtMostCapacity();
    RanNone(a.Forest(), a.current, a.sent, bs);
    var from := at;
    for i := 0 to |bs|
      invariant a.Valid() && fresh(a.pool.cells.Repr - old(a.pool.cells.Repr)) && Somewhere(a.Forest(), a.current)
      invariant from >= at
      invariant RanBrackets(old(a.Forest()), a.Forest(), old(a.current), a.current, old(a.sent), a.sent, bs, i)
    {
      ghost var g, cur, mid := a.Forest(), a.current, a.sent;
      RunBracket(a, bs[i], from, time, clock);
      from := from + 2 * Size(bs[i]);
      RanSomewhere(g, a.Forest(), cur, a.current, mid, a.sent, bs[i]);
      RanOneMore(old(a.Forest()), g, a.Forest(), old(a.current), cur, a.current, old(a.sent), mid, a.sent, bs, i);
    }
  }

  lemma RanSomewhere(f: Forest, g: Forest, c: int, cur: int, was: seq<Span>, sent: seq<Span>, b: Bracket)
    requires Somewhere(f, c) && RanBracket(f, g, c, cur, was, sent, b)
    ensures Somewhere(g, cur)
  {
  }

  lemma NeverLive(f: Forest)
    ensures !f.Live(E_INVALID_NODE) && !f.Live(E_ROOT_NODE)
  {
  }

  lemma NothingSentDead(f: Forest, id: int, now: int, clock: nat -> int, was: seq<Span>, sent: seq<Span>)
    requires f.Valid() && !f.Live(id) && SentSpan(f, id, now, clock, was, sent)
    ensures sent == was
  {
  }

  /** A bracket whose start failed, or whose inside got stuck. */
  lemma {:induction false} BracketStuck(f: Forest, g: Forest, h: Forest, c: int, d: int, agentType: int,
                                        start: int, b: Bracket)
    requires f.Valid() && g.Valid() && Somewhere(f, c) && Begun(f, g, c, d, agentType, start)
    requires c == E_INVALID_NODE ==> d == E_INVALID_NODE
    requires d == E_INVALID_NODE || d > 0
    requires if d == E_INVALID_NODE then h == g
             else Total(b.inside) > POOL_CAPACITY - |LiveIds(g)| && Stuck(g, h, d, Shapes(b.inside, Front(g, d)))
    ensures c == E_INVALID_NODE ==> h == f
    ensures c != E_INVALID_NODE ==>
              && |LiveIds(f)| + Size(b) > POOL_CAPACITY
              && Stuck(f, h, c, if c == E_ROOT_NODE then Shapes(b.inside, 0) else Shape(b, Front(f, c)))
  {
    hide TraceForest.Forest.Valid, LiveIds, Untouched, StartedUnder, Shapes, Around;
    if d == E_INVALID_NODE {
      if c != E_INVALID_NODE {
        AroundSelf(f, c, false);
        assert Shape(b, Front(f, c))[..0] == [];
      }
    } else {
      BegunCounts(f, g, c, d, agentType, start);
      BegunFront(f, g, c, d, agentType, start);
      if c == E_ROOT_NODE {
        RootBracketStuck(f, g, h, d, Shapes(b.inside, 0));
      } else {
        ChildBracketStuck(f, g, h, c, d, Shapes(b.inside, Front(g, d)), start);
      }
    }
  }

  lemma {:induction false} FlatTotal(n: nat)
    ensures Total(seq(n, _ => Bracket([]))) == n
  {
    if n == 0 {
    } else {
      FlatTotal(n - 1);
      assert seq(n, _ => Bracket([]))[1..] == seq(n - 1, _ => Bracket([]));
    }
  }

  /** A bracket one node larger than the pool: no start or end brings the thread back, nothing is sent, and
      all nodes of the pool stay in use. */
  method LeakingBracket() returns (a: Agent, clean: bool)
    ensures fresh(a) && a.Valid() && a.current == E_INVALID_NODE && a.sent == []
    ensures !clean && a.Full() && |a.Forest().trees| == 1
  {
    hide LiveIds, TraceForest.Forest.Valid, NodeCells.Valid, Partition, Tidy, SpansKept, Shapes, AllHang;
    a := new Agent(0);
    ghost var f := a.Forest();
    NoneLive(f);
    FlatTotal(POOL_CAPACITY);
    RunBracket(a, Bracket(seq(POOL_CAPACITY, _ => Bracket([]))), 0, _ => 0, (_, _) => 0);
    clean := a.pool.NoNodesLeak();
    ghost var s := Shapes(seq(POOL_CAPACITY, _ => Bracket([])), 0)[..POOL_CAPACITY - 1];
    ghost var d :| LeftOver(f, a.Forest(), d, s);
    assert a.Forest().trees.Keys == {d};
  }
}
