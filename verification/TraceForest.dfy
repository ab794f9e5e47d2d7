/** Trace nodes and the trees they form: every root heads a chain, linked through `next`, of the
    nodes started under it in start order. */
module TraceForest {
  import opened Bytes
  import opened JsonNumber
  import opened JsonValue
  import opened JsonGrammar
  import opened Annotations

  const E_INVALID_NODE: int := -1
  const E_ROOT_NODE: int := 0
  const E_TRACE_PASS: int := 2

  /** The extra data of a root. */
  datatype RootExtra = RootExtra(last: int, status: int, sequence: nat)

  /** The annotations of a node; a root also collects the events of its chain. */
  datatype Span = Span(notes: seq<Member>, events: seq<seq<Member>>) {
    ghost predicate AllKept() {
      Kept(notes) && forall e <- events :: Kept(e)
    }
  }

  datatype TraceNode = TraceNode(
    id: int, rootId: int, parentId: int, next: int,
    depth: int, sequence: int,
    startTime: int, preTime: int, expiredTime: int, setExp: bool,
    extra: Option<RootExtra>, value: Span)
  {
    predicate IsRoot() {
      rootId == id
    }

    /** An ended event carries its times, its sequence number and its depth. */
    ghost predicate Recorded() {
      expiredTime != -1 ==> Complete(this, value.notes)
    }

    /** `TraceNode::Reset`; depth and sequence keep their old values. */
    function Reset(newId: int): (n: TraceNode) {
      this.(id := newId, rootId := E_INVALID_NODE, parentId := E_INVALID_NODE, next := E_INVALID_NODE,
            startTime := 0, preTime := 0, expiredTime := -1, setExp := false,
            extra := None, value := Span([], []))
    }

    /** `UpgradeToRootNode`. */
    function UpgradeToRoot(agentType: int): (n: TraceNode) {
      this.(extra := Some(RootExtra(E_INVALID_NODE, E_TRACE_PASS, 0)), rootId := id, parentId := id,
            next := E_INVALID_NODE, depth := 0, sequence := 0,
            value := value.(notes := Insert(value.notes, AGENT_TYPE, Value.Int(agentType))))
    }

    /** `EndTrace` at time `now`. */
    function End(now: int): (n: TraceNode)
      ensures n.(expiredTime := expiredTime, value := value) == this && n.expiredTime == AsInt64(now - startTime)
      ensures n.value.events == value.events
    {
      var expired := AsInt64(now - startTime);
      var notes := Insert(value.notes, ELAPSED, Value.Int(expired));
      var notes := Insert(notes, START, Value.UInt(AsUInt64(startTime - preTime)));
      var notes := if setExp then Insert(notes, HAS_EXCEPTION, Value.Int(1)) else notes;
      var notes := if extra.None? then Insert(Insert(notes, SEQUENCE, Value.Int(sequence)), DEPTH, Value.Int(depth))
                   else notes;
      this.(expiredTime := expired, value := value.(notes := notes))
    }
  }

  /** An ended node carries its elapsed time, and unless it is a root its sequence number and depth; every other
      annotation stays, but for the two the end sets besides. */
  lemma {:induction false} EndNotes(n: TraceNode, now: int, name: Bytes)
    ensures var got := Get(n.End(now).value.notes, name);
            if name == ELAPSED then got == Some(Value.Int(n.End(now).expiredTime))
            else if name == START then got == Some(Value.UInt(AsUInt64(n.startTime - n.preTime)))
            else if name == SEQUENCE && n.extra.None? then got == Some(Value.Int(n.sequence))
            else if name == DEPTH && n.extra.None? then got == Some(Value.Int(n.depth))
            else if name == HAS_EXCEPTION && n.setExp then got == Some(Value.Int(1))
            else got == Get(n.value.notes, name)
  {
    hide Get, Insert;
    var a := Insert(n.value.notes, ELAPSED, Value.Int(AsInt64(now - n.startTime)));
    GetInsert(n.value.notes, ELAPSED, Value.Int(AsInt64(now - n.startTime)), name);
    var b := Insert(a, START, Value.UInt(AsUInt64(n.startTime - n.preTime)));
    GetInsert(a, START, Value.UInt(AsUInt64(n.startTime - n.preTime)), name);
    var c := if n.setExp then Insert(b, HAS_EXCEPTION, Value.Int(1)) else b;
    GetInsert(b, HAS_EXCEPTION, Value.Int(1), name);
    var d := Insert(c, SEQUENCE, Value.Int(n.sequence));
    GetInsert(c, SEQUENCE, Value.Int(n.sequence), name);
    GetInsert(d, DEPTH, Value.Int(n.depth), name);
  }

  /** Of the names an application can set, an end sets the mark of an exception and no other. */
  lemma EndAlike(n: TraceNode, now: int)
    ensures Alike(n.End(now).value.notes,
                  if n.setExp then Insert(n.value.notes, HAS_EXCEPTION, Value.Int(1)) else n.value.notes)
  {
    hide TraceNode.End, Get, Insert;
    forall name | !Internal(name)
      ensures Get(n.End(now).value.notes, name) ==
              if n.setExp && name == HAS_EXCEPTION then Some(Value.Int(1)) else Get(n.value.notes, name)
    {
      EndNotes(n, now, name);
    }
    forall name { GetInsert(n.value.notes, HAS_EXCEPTION, Value.Int(1), name); }
  }

  /** A root as it starts. */
  function FreshRoot(id: int, agentType: int, now: int): (n: TraceNode) {
    TraceNode(id, id, id, E_INVALID_NODE, 0, 0, now, 0, -1, false,
              Some(RootExtra(E_INVALID_NODE, E_TRACE_PASS, 0)), Span([Member(AGENT_TYPE, Value.Int(agentType))], []))
  }

  lemma FreshNotJammed(id: int, agentType: int, now: int)
    ensures !Jammed(FreshRoot(id, agentType, now).value.notes)
  {
    var notes := FreshRoot(id, agentType, now).value.notes;
    var rest := notes[1..];
    assert rest == [] && notes[0].name == AGENT_TYPE && AGENT_TYPE[0] != EVENT[0];
    assert Get(notes, EVENT) == Get(rest, EVENT) == None;
  }

  /** A node as it starts under `parent` in the tree of `r`, the `sequence`-th of its chain. */
  function FreshKid(id: int, r: int, parent: int, depth: int, sequence: int, now: int, preTime: int): (n: TraceNode) {
    TraceNode(id, r, parent, E_INVALID_NODE, depth, sequence, now, preTime, -1, false, None, Span([], []))
  }

  /** The nodes by index, which of them are in use, and the chain of every root. Node `id` is at `id - 1`. */
  datatype Forest = Forest(nodes: seq<TraceNode>, used: seq<bool>, trees: map<int, seq<int>>) {

    ghost predicate Live(id: int) {
      1 <= id <= |used| && used[id - 1]
    }

    ghost function Node(id: int): (n: TraceNode)
      requires |nodes| == |used| && Live(id)
    {
      nodes[id - 1]
    }

    /** The root of a live node's tree and its chain. */
    ghost predicate RootOk(r: int)
      requires |nodes| == |used| && r in trees
    {
      var kids := trees[r];
      && Live(r)
      && var n := Node(r);
      && n.id == r && n.rootId == r && n.parentId == r && n.depth == 0 && n.extra.Some?
      && n.extra.value.sequence == |kids|
      && n.extra.value.last == (if kids == [] then E_INVALID_NODE else kids[|kids| - 1])
      && n.next == (if kids == [] then E_INVALID_NODE else kids[0])
    }

    ghost predicate KidOk(r: int, i: nat)
      requires |nodes| == |used| && r in trees && i < |trees[r]|
    {
      var kids := trees[r];
      && Live(kids[i])
      && var n := Node(kids[i]);
      && n.id == kids[i] && n.rootId == r && n.rootId != n.id && n.sequence == i && n.extra.None? && n.Recorded()
      && n.next == (if i + 1 < |kids| then kids[i + 1] else E_INVALID_NODE)
      && Live(n.parentId) && (n.parentId == r || n.parentId in kids[..i])
      && n.depth == Node(n.parentId).depth + 1
      && Live(Before(r, i)) && n.preTime == Node(Before(r, i)).startTime
    }

    /** The node started before the `i`-th of a chain. */
    ghost function Before(r: int, i: nat): (id: int)
      requires r in trees && i <= |trees[r]|
    {
      if i == 0 then r else trees[r][i - 1]
    }

    /** A live node is the root of a tree, or sits in the chain of its root at its sequence number. */
    ghost predicate Placed(id: int)
      requires |nodes| == |used| && Live(id)
    {
      var n := Node(id);
      && n.rootId in trees
      && (id == n.rootId || (0 <= n.sequence < |trees[n.rootId]| && trees[n.rootId][n.sequence] == id))
    }

    ghost predicate Valid() {
      && |nodes| == |used|
      && (forall r <- trees :: RootOk(r))
      && (forall r <- trees, i | 0 <= i < |trees[r]| :: KidOk(r, i))
      && (forall id | Live(id) :: Placed(id))
    }
  }

  /** A new root at the unused `x`. */
  ghost function PlantRoot(f: Forest, x: int, root: TraceNode): (g: Forest)
    requires f.Valid() && 1 <= x <= |f.used|
  {
    Forest(f.nodes[x - 1 := root], f.used[x - 1 := true], f.trees[x := []])
  }

  lemma PlantRootValid(f: Forest, x: int, root: TraceNode)
    requires f.Valid() && 1 <= x <= |f.used| && !f.Live(x)
    requires root.id == x && root.rootId == x && root.parentId == x && root.depth == 0
    requires root.next == E_INVALID_NODE && root.extra.Some?
    requires root.extra.value.sequence == 0 && root.extra.value.last == E_INVALID_NODE
    ensures PlantRoot(f, x, root).Valid()
  {
    var g := PlantRoot(f, x, root);
    forall r <- g.trees ensures g.RootOk(r) {
      assert r != x ==> f.RootOk(r);
    }
    forall r <- g.trees, i | 0 <= i < |g.trees[r]| ensures g.KidOk(r, i) {
      assert f.KidOk(r, i);
    }
    forall id | g.Live(id) ensures g.Placed(id) {
      assert id != x ==> f.Placed(id);
    }
  }

  /** Where a chain ends, in the terms the root records. */
  lemma ChainEnd(f: Forest, r: int)
    requires f.Valid() && r in f.trees
    ensures var kids := f.trees[r];
            && |f.nodes| == |f.used| && f.Live(r) && f.Node(r).extra.Some? && f.Node(r).extra.value.sequence == |kids|
            && f.Node(r).extra.value.last == (if kids == [] then E_INVALID_NODE else kids[|kids| - 1])
            && f.Node(r).next == (if kids == [] then E_INVALID_NODE else kids[0])
            && f.Live(f.Before(r, |kids|)) && (kids != [] ==> kids[|kids| - 1] != r && kids[0] > 0)
  {
    assert f.RootOk(r);
    var kids := f.trees[r];
    assert kids != [] ==> f.KidOk(r, |kids| - 1) && f.KidOk(r, 0);
  }

  /** The chain of `parent`'s tree grows by the unused `x`: what `AppendToRootTrace` links. */
  ghost function Append(f: Forest, r: int, x: int, kid: TraceNode): (g: Forest)
    requires f.Valid() && r in f.trees && 1 <= x <= |f.used|
  {
    var kids := f.trees[r];
    assert f.RootOk(r);
    var root := f.Node(r);
    var nodes := f.nodes[x - 1 := kid];
    var nodes := if kids == [] then nodes
                 else assert f.KidOk(r, |kids| - 1);
                      var last := kids[|kids| - 1];
                      nodes[last - 1 := nodes[last - 1].(next := x)];
    var root' := root.(extra := Some(root.extra.value.(last := x, sequence := root.extra.value.sequence + 1)),
                       next := if root.next == E_INVALID_NODE then x else root.next);
    Forest(nodes[r - 1 := root'], f.used[x - 1 := true], f.trees[r := kids + [x]])
  }

  lemma UpdateLater<T>(s: seq<T>, x: nat, a: T, b: T, l: nat, c: T)
    requires x < |s| && l < |s| && x != l
    ensures s[x := a][l := c][x := b] == s[x := b][l := c] && s[x := a][x := b] == s[x := b]
  {
  }

  /** The stores of `AppendToRootTrace`, in its order. */
  lemma AppendedNodes(f: Forest, r: int, x: int, kid: TraceNode, node: TraceNode)
    requires f.Valid() && r in f.trees && 1 <= x <= |f.used| && !f.Live(x)
    ensures |f.nodes| == |f.used| && f.Live(r) && f.Node(r).extra.Some? && f.Live(f.Before(r, |f.trees[r]|))
    ensures var kids, root := f.trees[r], f.Node(r);
            var last := f.Before(r, |kids|);
            var nodes := f.nodes[x - 1 := kid];
            var nodes := if kids == [] then nodes else nodes[last - 1 := f.Node(last).(next := x)];
            var root' := root.(extra := Some(root.extra.value.(last := x, sequence := root.extra.value.sequence + 1)),
                               next := if root.next == E_INVALID_NODE then x else root.next);
            && Append(f, r, x, node).nodes == nodes[x - 1 := node][r - 1 := root']
            && Append(f, r, x, node).used == f.used[x - 1 := true]
            && Append(f, r, x, node).trees == f.trees[r := kids + [x]]
  {
    hide Forest.Valid;
    ChainEnd(f, r);
    var l := f.Before(r, |f.trees[r]|);
    UpdateLater(f.nodes, x - 1, kid, node, l - 1, f.Node(l).(next := x));
  }

  ghost predicate FitsUnder(f: Forest, r: int, parent: int, x: int, kid: TraceNode)
    requires f.Valid() && r in f.trees
  {
    && f.Live(parent) && f.Node(parent).rootId == r
    && kid.id == x && kid.rootId == r && kid.parentId == parent && kid.next == E_INVALID_NODE
    && kid.depth == f.Node(parent).depth + 1 && kid.sequence == |f.trees[r]| && kid.extra.None? && kid.Recorded()
    && f.Live(f.Before(r, |f.trees[r]|)) && kid.preTime == f.Node(f.Before(r, |f.trees[r]|)).startTime
  }

  /** What `Append` does to the node of each id. */
  lemma AppendNodes(f: Forest, r: int, x: int, kid: TraceNode)
    requires f.Valid() && r in f.trees && 1 <= x <= |f.used| && !f.Live(x)
    ensures var g := Append(f, r, x, kid);
            var kids := f.trees[r];
            && |g.nodes| == |g.used| == |f.used|
            && (forall id :: g.Live(id) <==> f.Live(id) || id == x)
            && g.Node(x) == kid
            && (forall id | f.Live(id) && id != r && (kids == [] || id != kids[|kids| - 1]) :: g.Node(id) == f.Node(id))
            && (kids != [] ==> f.Live(kids[|kids| - 1]) && g.Node(kids[|kids| - 1]) == f.Node(kids[|kids| - 1]).(next := x))
            && g.RootOk(r) && g.Node(r).(extra := f.Node(r).extra, next := f.Node(r).next) == f.Node(r)
            && f.Node(r).extra.Some? && g.Node(r).extra.value.status == f.Node(r).extra.value.status
  {
    assert f.RootOk(r);
    var kids := f.trees[r];
    if kids != [] {
      assert f.KidOk(r, |kids| - 1) && f.KidOk(r, 0);
    }
  }

  lemma AppendValid(f: Forest, r: int, parent: int, x: int, kid: TraceNode)
    requires f.Valid() && r in f.trees && 1 <= x <= |f.used| && !f.Live(x)
    requires FitsUnder(f, r, parent, x, kid)
    ensures Append(f, r, x, kid).Valid()
  {
    hide Append;
    var g := Append(f, r, x, kid);
    AppendNodes(f, r, x, kid);
    AppendTrees(f, r, x, kid);
    var kids := f.trees[r];
    assert kids != [] ==> f.KidOk(r, |kids| - 1);
    forall q <- g.trees ensures g.RootOk(q) {
      assert f.RootOk(q);
    }
    forall q <- g.trees, i | 0 <= i < |g.trees[q]| ensures g.KidOk(q, i) {
      AppendKid(f, r, parent, x, kid, q, i);
    }
    forall id | g.Live(id) ensures g.Placed(id) {
      assert f.RootOk(r);
      assert id != x ==> f.Placed(id);
    }
  }

  lemma AppendTrees(f: Forest, r: int, x: int, kid: TraceNode)
    requires f.Valid() && r in f.trees && 1 <= x <= |f.used|
    ensures Append(f, r, x, kid).trees == f.trees[r := f.trees[r] + [x]]
  {
  }

  lemma AppendKid(f: Forest, r: int, parent: int, x: int, kid: TraceNode, q: int, i: nat)
    requires f.Valid() && r in f.trees && 1 <= x <= |f.used| && !f.Live(x)
    requires FitsUnder(f, r, parent, x, kid)
    requires q in f.trees[r := f.trees[r] + [x]] && i < |f.trees[r := f.trees[r] + [x]][q]|
    ensures Append(f, r, x, kid).trees == f.trees[r := f.trees[r] + [x]]
    ensures |Append(f, r, x, kid).nodes| == |Append(f, r, x, kid).used|
    ensures Append(f, r, x, kid).KidOk(q, i)
  {
    hide Append, Forest.Valid;
    AppendNodes(f, r, x, kid);
    AppendTrees(f, r, x, kid);
    TreeParts(f, r);
    if q == r && i == |f.trees[r]| {
      LiveIsPlaced(f, parent);
      var g := Append(f, r, x, kid);
      assert g.trees[r][..i] == f.trees[r];
      assert g.Node(parent).depth == f.Node(parent).depth;
    } else {
      AppendOldKid(f, r, x, kid, q, i);
    }
  }

  lemma AppendOldKid(f: Forest, r: int, x: int, kid: TraceNode, q: int, i: nat)
    requires f.Valid() && r in f.trees && 1 <= x <= |f.used| && !f.Live(x)
    requires q in f.trees && i < |f.trees[q]|
    ensures Append(f, r, x, kid).trees == f.trees[r := f.trees[r] + [x]]
    ensures |Append(f, r, x, kid).nodes| == |Append(f, r, x, kid).used|
    ensures Append(f, r, x, kid).KidOk(q, i)
  {
    hide Append, Forest.Valid;
    var g := Append(f, r, x, kid);
    AppendNodes(f, r, x, kid);
    AppendTrees(f, r, x, kid);
    TreeParts(f, r);
    TreeParts(f, q);
    assert f.KidOk(q, i) && (f.trees[r] != [] ==> f.KidOk(r, |f.trees[r]| - 1));
    var p := f.Node(f.trees[q][i]).parentId;
    assert g.Node(p).depth == f.Node(p).depth;
    assert g.trees[q][..i] == f.trees[q][..i];
  }

  lemma TreeParts(f: Forest, q: int)
    requires f.Valid() && q in f.trees
    ensures |f.nodes| == |f.used| && f.RootOk(q) && forall i | 0 <= i < |f.trees[q]| :: f.KidOk(q, i)
  {
  }

  lemma RootsLive(f: Forest)
    requires f.Valid()
    ensures forall r <- f.trees :: f.Live(r)
  {
    forall r <- f.trees ensures f.Live(r) {
      assert f.RootOk(r);
    }
  }

  ghost function LiveIds(f: Forest): (r: set<int>) {
    set x | 1 <= x <= |f.used| && f.Live(x)
  }

  ghost function UpTo(n: nat): (r: set<int>)
    ensures |r| == n && forall x :: x in r <==> 1 <= x <= n
  {
    if n == 0 then {} else UpTo(n - 1) + {n}
  }

  lemma AllLive(f: Forest)
    requires forall i | 0 <= i < |f.used| :: f.used[i]
    ensures |LiveIds(f)| == |f.used|
  {
    assert LiveIds(f) == UpTo(|f.used|);
  }

  lemma SubsetSize<T>(some: set<T>, all: set<T>)
    requires some <= all
    ensures |some| <= |all|
  {
    assert all == some + (all - some);
  }

  lemma SomeDead(f: Forest, i: nat)
    requires i < |f.used| && !f.used[i]
    ensures |LiveIds(f)| < |f.used|
  {
    SubsetSize(LiveIds(f) + {i + 1}, UpTo(|f.used|));
  }

  lemma LiveAtMost(f: Forest)
    ensures |LiveIds(f)| <= |f.used|
  {
    SubsetSize(LiveIds(f), UpTo(|f.used|));
  }

  lemma SameLive(f: Forest, g: Forest)
    requires forall x :: g.Live(x) <==> f.Live(x)
    ensures LiveIds(g) == LiveIds(f)
  {
  }

  lemma OneMoreLive(f: Forest, g: Forest, id: int)
    requires !f.Live(id) && forall x :: g.Live(x) <==> f.Live(x) || x == id
    ensures LiveIds(g) == LiveIds(f) + {id} && |LiveIds(g)| == |LiveIds(f)| + 1
  {
    assert LiveIds(g) == LiveIds(f) + {id};
  }

  ghost predicate NoDuplicates<T(!new)>(s: seq<T>) {
    forall i, j | 0 <= i < j < |s| :: s[i] != s[j]
  }

  ghost function Elements<T(!new)>(s: seq<T>): (r: set<T>) {
    set x | x in s
  }

  lemma {:induction false} DistinctCount<T(!new)>(s: seq<T>)
    requires NoDuplicates(s)
    ensures |Elements(s)| == |s|
  {
    if s == [] {
    } else {
      DistinctCount(s[1..]);
      assert Elements(s) == {s[0]} + Elements(s[1..]);
    }
  }

  /** A forest has a tree exactly when a node is in use. */
  lemma EmptyIffUnused(f: Forest)
    requires f.Valid()
    ensures f.trees.Keys == {} <==> forall i | 0 <= i < |f.used| :: !f.used[i]
  {
    RootsLive(f);
    assert forall r <- f.trees :: r in f.trees.Keys && f.used[r - 1];
    forall i | 0 <= i < |f.used| && f.used[i] ensures f.nodes[i].rootId in f.trees {
      assert f.Live(i + 1) && f.Placed(i + 1);
    }
  }

  lemma NoneLive(f: Forest)
    requires f.Valid() && f.trees == map[]
    ensures LiveIds(f) == {}
  {
    EmptyIffUnused(f);
  }

  lemma LiveIsPlaced(f: Forest, id: int)
    requires f.Valid() && f.Live(id)
    ensures |f.nodes| == |f.used| && f.Placed(id)
  {
  }

  /** A root and the nodes started under it, in order. */
  ghost function Chain(f: Forest, r: int): (c: seq<int>)
    requires r in f.trees
  {
    [r] + f.trees[r]
  }

  /** Following `next` from the root visits the whole chain once and ends. */
  lemma ChainLinks(f: Forest, r: int, j: nat)
    requires f.Valid() && r in f.trees && j < |Chain(f, r)|
    ensures var c := Chain(f, r);
            && |f.nodes| == |f.used| && f.Live(c[j])
            && f.Node(c[j]).next == (if j + 1 < |c| then c[j + 1] else E_INVALID_NODE)
            && c[j] !in c[..j]
  {
    assert f.RootOk(r);
    var c, kids := Chain(f, r), f.trees[r];
    assert j > 0 ==> f.KidOk(r, j - 1);
    forall i | 0 <= i < j ensures c[i] != c[j] {
      assert i > 0 ==> f.KidOk(r, i - 1);
    }
  }

  /** The chain from a live node on, which is what follows from it through `next`. */
  ghost function Rest(f: Forest, id: int): (c: seq<int>)
    requires f.Valid() && f.Live(id)
    ensures c != [] && c[0] == id
  {
    var n := f.Node(id);
    assert f.Placed(id);
    if id in f.trees then Chain(f, id)
    else
      assert id != n.rootId by { assert id == n.rootId ==> n.rootId in f.trees; }
      f.trees[n.rootId][n.sequence..]
  }

  lemma RestLinks(f: Forest, id: int, j: nat)
    requires f.Valid() && f.Live(id) && j < |Rest(f, id)|
    ensures var c := Rest(f, id);
            && |f.nodes| == |f.used| && f.Live(c[j])
            && f.Node(c[j]).next == (if j + 1 < |c| then c[j + 1] else E_INVALID_NODE)
            && c[j] !in c[..j]
  {
    LiveIsPlaced(f, id);
    if id in f.trees {
      ChainLinks(f, id, j);
    } else {
      var r, n := f.Node(id).rootId, f.Node(id).sequence;
      var chain := Chain(f, r);
      ChainLinks(f, r, n + 1 + j);
      assert Rest(f, id) == chain[n + 1..];
      assert forall x <- Rest(f, id)[..j] :: x in chain[..n + 1 + j];
    }
  }

  /** Once the end of a chain from `id` on has been given back, the node before it links to a node that is
      not in use: whatever the trees are taken to be, they are no forest. */
  lemma BrokenTree(f: Forest, used: seq<bool>, id: int, trees: map<int, seq<int>>)
    requires f.Valid() && f.Live(id) && id !in f.trees && |used| == |f.used|
    requires forall i | 0 <= i < |used| :: used[i] == (f.used[i] && i + 1 !in Rest(f, id))
    ensures !Forest(f.nodes, used, trees).Valid()
  {
    var g := Forest(f.nodes, used, trees);
    var p := Predecessor(f, id);
    if g.Valid() {
      NextIsLive(g, p);
    }
  }

  /** A link leads to a node in use. */
  lemma NextIsLive(f: Forest, id: int)
    requires f.Valid() && f.Live(id)
    ensures |f.nodes| == |f.used| && (f.Node(id).next != E_INVALID_NODE ==> f.Live(f.Node(id).next))
  {
    LiveIsPlaced(f, id);
    var r := f.Node(id).rootId;
    ChainLinks(f, r, if id == r then 0 else f.Node(id).sequence + 1);
    var i := if id == r then 0 else f.Node(id).sequence + 1;
    assert i < |f.trees[r]| ==> f.KidOk(r, i);
  }

  lemma Predecessor(f: Forest, id: int) returns (p: int)
    requires f.Valid() && f.Live(id) && id !in f.trees
    ensures |f.nodes| == |f.used| && f.Live(p) && f.Node(p).next == id > 0 && p !in Rest(f, id)
  {
    LiveIsPlaced(f, id);
    var r, n := f.Node(id).rootId, f.Node(id).sequence;
    var chain := Chain(f, r);
    p := chain[n];
    ChainLinks(f, r, n);
    forall j | 0 <= j < |Rest(f, id)| ensures Rest(f, id)[j] != p {
      ChainLinks(f, r, n + 1 + j);
      assert p in chain[..n + 1 + j];
    }
  }

  lemma FellIsRest(f: Forest, r: int, used: seq<bool>)
    requires f.Valid() && r in f.trees && f.Live(r) && |used| == |f.used|
    requires forall i | 0 <= i < |used| :: used[i] == (f.used[i] && i + 1 !in Rest(f, r))
    ensures Fell(f, r) == Forest(f.nodes, used, f.trees - {r})
  {
    assert forall x :: x in Rest(f, r) <==> x in Members(f, r);
  }

  ghost function Members(f: Forest, r: int): (m: set<int>)
    requires r in f.trees
  {
    {r} + set k <- f.trees[r]
  }

  /** The tree of `r` is given back. */
  ghost function Fell(f: Forest, r: int): (g: Forest)
    requires r in f.trees
  {
    f.(used := seq(|f.used|, i requires 0 <= i < |f.used| => f.used[i] && i + 1 !in Members(f, r)), trees := f.trees - {r})
  }

  /** Every node started under a root names it, so felling a tree touches no other. */
  lemma MembersAre(f: Forest, r: int, id: int)
    requires f.Valid() && r in f.trees && f.Live(id)
    ensures id in Members(f, r) <==> f.Node(id).rootId == r
  {
    assert f.RootOk(r) && f.Placed(id);
    if id in f.trees[r] {
      var i :| 0 <= i < |f.trees[r]| && f.trees[r][i] == id;
      assert f.KidOk(r, i);
    }
  }

  lemma FellValid(f: Forest, r: int)
    requires f.Valid() && r in f.trees
    ensures Fell(f, r).Valid()
  {
    hide Fell;
    var g := Fell(f, r);
    FellNodes(f, r);
    forall q <- g.trees ensures g.RootOk(q) {
      assert f.RootOk(q);
    }
    forall q <- g.trees, i | 0 <= i < |g.trees[q]| ensures g.KidOk(q, i) {
      KidKin(f, q, i);
    }
    forall id | g.Live(id) ensures g.Placed(id) {
      assert f.Placed(id);
    }
  }

  /** A node's parent and the node started before it belong to the same tree. */
  lemma KidKin(f: Forest, q: int, i: nat)
    requires f.Valid() && q in f.trees && i < |f.trees[q]|
    ensures f.KidOk(q, i) && f.Node(f.Node(f.trees[q][i]).parentId).rootId == q && f.Node(f.Before(q, i)).rootId == q
  {
    hide Forest.Valid;
    TreeParts(f, q);
    assert f.KidOk(q, i) && (i > 0 ==> f.KidOk(q, i - 1));
    var p := f.Node(f.trees[q][i]).parentId;
    if p != q {
      var j :| 0 <= j < i && f.trees[q][j] == p;
      assert f.KidOk(q, j);
    }
  }

  /** What is left of a forest without one tree. */
  lemma FellNodes(f: Forest, r: int)
    requires f.Valid() && r in f.trees
    ensures var g := Fell(f, r);
            && g.nodes == f.nodes && |g.used| == |f.used| && g.trees == f.trees - {r}
            && forall id :: g.Live(id) <==> f.Live(id) && f.Node(id).rootId != r
  {
    var g := Fell(f, r);
    forall id ensures g.Live(id) <==> f.Live(id) && f.Node(id).rootId != r {
      if f.Live(id) {
        MembersAre(f, r, id);
      }
    }
  }

  /** Nodes that differ only in what is recorded about them, not in how they are linked. */
  ghost predicate SameLinks(a: TraceNode, b: TraceNode) {
    && a.(expiredTime := b.expiredTime, setExp := b.setExp, value := b.value, extra := b.extra) == b
    && (a.extra.Some? <==> b.extra.Some?)
    && (a.extra.Some? ==> a.extra.value.(status := b.extra.value.status) == b.extra.value)
  }

  lemma RelabelValid(f: Forest, g: Forest)
    requires f.Valid() && g.used == f.used && g.trees == f.trees && |g.nodes| == |f.nodes|
    requires forall i | 0 <= i < |f.nodes| :: SameLinks(f.nodes[i], g.nodes[i])
    requires forall i | 0 <= i < |f.nodes| :: g.nodes[i].extra.None? && f.nodes[i].Recorded() ==> g.nodes[i].Recorded()
    ensures g.Valid()
  {
    forall r <- g.trees ensures g.RootOk(r) {
      assert f.RootOk(r);
    }
    forall r <- g.trees, i | 0 <= i < |g.trees[r]| ensures g.KidOk(r, i) {
      assert f.KidOk(r, i);
    }
    forall id | g.Live(id) ensures g.Placed(id) {
      assert f.Placed(id);
    }
  }

  /** A record that says how long the node took, how long after the one before it was started, and where in the
      tree it is. */
  ghost predicate Complete(n: TraceNode, notes: seq<Member>) {
    && Get(notes, ELAPSED) == Some(Value.Int(n.expiredTime))
    && Get(notes, START) == Some(Value.UInt(AsUInt64(n.startTime - n.preTime)))
    && Get(notes, SEQUENCE) == Some(Value.Int(n.sequence))
    && Get(notes, DEPTH) == Some(Value.Int(n.depth))
  }

  lemma EndIsComplete(n: TraceNode, now: int)
    requires n.extra.None?
    ensures Complete(n.End(now), n.End(now).value.notes) && n.End(now).Recorded()
  {
    hide TraceNode.End, Get;
    EndNotes(n, now, ELAPSED);
    EndNotes(n, now, START);
    EndNotes(n, now, SEQUENCE);
    EndNotes(n, now, DEPTH);
  }

  /** A node as the encoder leaves it: ended now if it was still open. */
  function Closed(n: TraceNode, now: int): (m: TraceNode)
    ensures SameLinks(n, m) && (n.extra.None? && n.Recorded() ==> m.Recorded() && Complete(m, m.value.notes))
  {
    if n.expiredTime == -1 then (if n.extra.None? then EndIsComplete(n, now); n.End(now) else n.End(now)) else n
  }

  /** The time of an end stands when the root is encoded, unless it came to -1 milliseconds, the mark of an open node:
      then the node is ended again. */
  lemma EndStands(n: TraceNode, now: int, later: int)
    ensures Closed(n.End(now), later).expiredTime == AsInt64(now - n.startTime) <==>
            AsInt64(now - n.startTime) != -1 || AsInt64(later - n.startTime) == -1
    ensures AsInt64(now - n.startTime) != -1 ==> Closed(n.End(now), later) == n.End(now)
  {
    hide AsInt64, TraceNode.End;
  }

  /** Started at 5 and ended at 4, by a clock that was set back: encoded at 100, the node has taken 95. */
  lemma OneMillisecondBack(id: int, r: int)
    ensures Closed(FreshKid(id, r, r, 1, 0, 5, 5).End(4), 100).expiredTime == 95
  {
    hide Insert;
  }

  predicate Int64(v: int) {
    MIN_INT64 <= v <= MAX_INT64
  }

  /** Ending a node keeps its annotations storable. */
  lemma EndKept(n: TraceNode, now: int)
    requires Kept(n.value.notes) && (n.extra.None? ==> Int64(n.sequence) && Int64(n.depth))
    ensures Kept(n.End(now).value.notes)
  {
    hide Insert, Kept;
    var a := Insert(n.value.notes, ELAPSED, Value.Int(AsInt64(now - n.startTime)));
    InsertKept(n.value.notes, ELAPSED, Value.Int(AsInt64(now - n.startTime)));
    var b := Insert(a, START, Value.UInt(AsUInt64(n.startTime - n.preTime)));
    InsertKept(a, START, Value.UInt(AsUInt64(n.startTime - n.preTime)));
    var c := if n.setExp then Insert(b, HAS_EXCEPTION, Value.Int(1)) else b;
    InsertKept(b, HAS_EXCEPTION, Value.Int(1));
    if n.extra.None? {
      InsertKept(c, SEQUENCE, Value.Int(n.sequence));
      InsertKept(Insert(c, SEQUENCE, Value.Int(n.sequence)), DEPTH, Value.Int(n.depth));
    }
  }

  /** The annotations of live nodes can be stored. */
  ghost predicate KeptForest(f: Forest) {
    |f.nodes| == |f.used| && forall x | f.Live(x) :: Kept(f.Node(x).value.notes)
  }

  lemma ChainDistinct(f: Forest, r: int)
    requires f.Valid() && r in f.trees
    ensures NoDuplicates(Chain(f, r))
  {
    hide Forest.Valid;
    var chain := Chain(f, r);
    forall i, j | 0 <= i < j < |chain| ensures chain[i] != chain[j] {
      ChainLinks(f, r, j);
      assert chain[i] in chain[..j];
    }
  }

  /** A chain is no longer than the pool. */
  lemma ChainBound(f: Forest, r: int)
    requires f.Valid() && r in f.trees
    ensures |f.trees[r]| < |f.used|
  {
    hide Forest.Valid;
    var c := Chain(f, r);
    ChainDistinct(f, r);
    DistinctCount(c);
    forall i | 0 <= i < |c| ensures c[i] in LiveIds(f) {
      ChainLinks(f, r, i);
    }
    SubsetSize(Elements(c), LiveIds(f));
    LiveAtMost(f);
  }

  /** Nor is a node deeper than its place in it. */
  lemma {:induction false} DepthBound(f: Forest, r: int, i: nat)
    requires f.Valid() && r in f.trees && i < |f.trees[r]|
    ensures f.Live(f.trees[r][i]) && 0 < f.Node(f.trees[r][i]).depth <= i + 1
    decreases i
  {
    assert f.KidOk(r, i) && f.RootOk(r);
    var p := f.Node(f.trees[r][i]).parentId;
    if p != r {
      var j :| 0 <= j < i && f.trees[r][j] == p;
      DepthBound(f, r, j);
    }
  }

  /** So ending it is safe. */
  lemma EndKeepsForest(f: Forest, id: int, now: int)
    requires f.Valid() && KeptForest(f) && f.Live(id) && |f.used| < TWO_31
    ensures Kept(f.Node(id).End(now).value.notes)
  {
    hide Forest.Valid, Kept, TraceNode.End;
    var n := f.Node(id);
    LiveIsPlaced(f, id);
    if id == n.rootId {
      ChainEnd(f, id);
    } else {
      ChainBound(f, n.rootId);
      DepthBound(f, n.rootId, n.sequence);
    }
    EndKept(n, now);
  }

  /** The first `j` events of a root's span. */
  ghost function Events(f: Forest, r: int, j: nat, clock: nat -> int): (es: seq<seq<Member>>)
    requires f.Valid() && r in f.trees && j <= |f.trees[r]|
    ensures |es| == j
  {
    seq(j, k requires 0 <= k < j => assert f.KidOk(r, k); Closed(f.Node(f.trees[r][k]), clock(k)).value.notes)
  }

  /** The node at an index after `j` events have been collected by root `r`. */
  ghost function EncodedNode(f: Forest, r: int, j: nat, clock: nat -> int, i: nat): (n: TraceNode)
    requires f.Valid() && r in f.trees && j <= |f.trees[r]| && i < |f.nodes|
  {
    var n := f.nodes[i];
    if !f.used[i] || n.rootId != r then n
    else if i + 1 == r then n.(value := n.value.(events := n.value.events + Events(f, r, j, clock)))
    else if 0 <= n.sequence < j then Closed(n, clock(n.sequence))
    else n
  }

  ghost function EncodeUpTo(f: Forest, r: int, j: nat, clock: nat -> int): (nodes: seq<TraceNode>)
    requires f.Valid() && r in f.trees && j <= |f.trees[r]|
    ensures |nodes| == |f.nodes|
    ensures forall i | 0 <= i < |nodes| :: nodes[i] == EncodedNode(f, r, j, clock, i)
  {
    seq(|f.nodes|, i requires 0 <= i < |f.nodes| => EncodedNode(f, r, j, clock, i))
  }

  /** One turn of the encoder: the node at place `j` is closed and its record joins the root's. */
  lemma EncodeStep(f: Forest, r: int, j: nat, clock: nat -> int)
    requires f.Valid() && r in f.trees && j < |f.trees[r]|
    ensures f.Live(r) && f.Live(f.trees[r][j])
    ensures var k := f.trees[r][j];
            var nodes := EncodeUpTo(f, r, j, clock);
            var kid := Closed(nodes[k - 1], clock(j));
            var root := nodes[r - 1];
            && nodes[k - 1] == f.Node(k) && k != r && root.value.notes == f.Node(r).value.notes
            && EncodeUpTo(f, r, j + 1, clock) ==
               nodes[k - 1 := kid][r - 1 := root.(value := root.value.(events := root.value.events + [kid.value.notes]))]
  {
    hide Closed, TraceNode.Recorded;
    assert f.RootOk(r) && f.KidOk(r, j);
    var k := f.trees[r][j];
    var old_, new_ := EncodeUpTo(f, r, j, clock), EncodeUpTo(f, r, j + 1, clock);
    assert Events(f, r, j + 1, clock) == Events(f, r, j, clock) + [Closed(f.Node(k), clock(j)).value.notes];
    Assoc(f.Node(r).value.events, Events(f, r, j, clock), [Closed(f.Node(k), clock(j)).value.notes]);
    forall i | 0 <= i < |f.nodes| && i != k - 1 && i != r - 1 ensures new_[i] == old_[i] {
      assert f.used[i] ==> f.Live(i + 1) && f.Placed(i + 1);
    }
  }

  /** Where the encoder stops when the root cannot collect events: the first node of the chain has been closed. */
  ghost function JamAt(f: Forest, r: int, clock: nat -> int): (g: Forest)
    requires f.Valid() && r in f.trees && f.trees[r] != []
  {
    assert f.KidOk(r, 0);
    f.(nodes := f.nodes[f.trees[r][0] - 1 := Closed(f.Node(f.trees[r][0]), clock(0))])
  }

  lemma JamValid(f: Forest, r: int, clock: nat -> int)
    requires f.Valid() && r in f.trees && f.trees[r] != []
    ensures JamAt(f, r, clock).Valid()
    ensures var g, k := JamAt(f, r, clock), f.trees[r][0];
            && f.Live(k) && k !in f.trees && f.Node(k).rootId == r && g.used == f.used && g.trees == f.trees
            && |g.nodes| == |f.nodes| && (forall x | f.Live(x) && x != k :: g.Node(x) == f.Node(x))
            && SameLinks(f.Node(k), g.Node(k)) && g.nodes == f.nodes[k - 1 := Closed(f.Node(k), clock(0))]
  {
    hide Closed;
    var g, k := JamAt(f, r, clock), f.trees[r][0];
    assert f.KidOk(r, 0);
    RootIffTree(f, k);
    RelabelValid(f, g);
  }

  /** Every node started under the root yields one event, in start order, numbered by its place and
      carrying its depth. One that has been ended yields the record of that end, one still open ends now. */
  lemma EventsAreTheChain(f: Forest, r: int, clock: nat -> int, k: nat)
    requires f.Valid() && r in f.trees && k < |f.trees[r]|
    ensures f.Live(f.trees[r][k]) && f.Node(f.trees[r][k]).sequence == k
    ensures Events(f, r, |f.trees[r]|, clock)[k] == Closed(f.Node(f.trees[r][k]), clock(k)).value.notes
    ensures Complete(Closed(f.Node(f.trees[r][k]), clock(k)), Events(f, r, |f.trees[r]|, clock)[k])
    ensures var n, event := f.Node(f.trees[r][k]), Events(f, r, |f.trees[r]|, clock)[k];
            if n.expiredTime == -1
            then && event == n.End(clock(k)).value.notes
                 && Get(event, ELAPSED) == Some(Value.Int(AsInt64(clock(k) - n.startTime)))
            else event == n.value.notes && Get(event, ELAPSED) == Some(Value.Int(n.expiredTime))
  {
    hide TraceNode.End, Get;
    assert f.KidOk(r, k);
  }

  lemma EncodeNone(f: Forest, r: int, clock: nat -> int)
    requires f.Valid() && r in f.trees
    ensures EncodeUpTo(f, r, 0, clock) == f.nodes
  {
    var nodes := EncodeUpTo(f, r, 0, clock);
    forall i | 0 <= i < |f.nodes| ensures nodes[i] == f.nodes[i] {
      var n := f.nodes[i];
      assert Events(f, r, 0, clock) == [];
      assert n.value.events + [] == n.value.events;
    }
  }

  lemma EncodeKeepsLinks(f: Forest, r: int, j: nat, clock: nat -> int)
    requires f.Valid() && r in f.trees && j <= |f.trees[r]|
    ensures f.(nodes := EncodeUpTo(f, r, j, clock)).Valid()
  {
    var g := f.(nodes := EncodeUpTo(f, r, j, clock));
    forall i | 0 <= i < |f.nodes|
      ensures SameLinks(f.nodes[i], g.nodes[i])
      ensures g.nodes[i].extra.None? && f.nodes[i].Recorded() ==> g.nodes[i].Recorded()
    {
      assert i + 1 == r ==> f.RootOk(r);
    }
    RelabelValid(f, g);
  }

  lemma RootIffTree(f: Forest, id: int)
    requires f.Valid() && f.Live(id)
    ensures |f.nodes| == |f.used| && f.Node(id).id == id && f.Node(id).rootId in f.trees
    ensures f.Node(id).IsRoot() <==> id in f.trees
  {
    assert f.Placed(id);
    var n := f.Node(id);
    if id in f.trees {
      assert f.RootOk(id);
    } else {
      assert f.KidOk(n.rootId, n.sequence);
    }
  }
}
