/** `Agent::StartTrace`, `Agent::EndTrace`, forced ends and the thread-local start/end pair.
    Exceptions of the pool come back as `E_INVALID_NODE`. */
module TraceAgent {
  import opened Bytes
  import opened JsonNumber
  import opened JsonValue
  import opened JsonGrammar
  import opened Annotations
  import opened TraceForest
  import opened TracePool

  class Agent {
    const pool: PoolManager
    const agentType: int32
    /** Spans handed to `TrySendSpan`. */
    var sent: seq<Span>
    /** `per_thread_current_id`. */
    var current: int

    ghost predicate Valid()
      reads this, pool, pool.cells, pool.cells.Repr
    {
      Ready() && pool.Quiet() && pool.forcedReturns == 0 && SpansKept(sent)
    }

    ghost predicate Ready()
      reads this, pool, pool.cells, pool.cells.Repr
    {
      pool.Valid() && this !in pool.cells.Repr && Tidy(Forest())
    }

    ghost function Forest(): (f: Forest)
      reads this, pool, pool.cells
    {
      pool.Forest()
    }

    /** The pool holds as many live nodes as it can. */
    ghost predicate Full()
      reads this, pool, pool.cells
    {
      |LiveIds(Forest())| == POOL_CAPACITY
    }

    constructor (agentType: int32)
      ensures Valid() && Forest().trees == map[] && sent == [] && current == E_ROOT_NODE && this.agentType == agentType
      ensures fresh(pool) && fresh(pool.cells) && fresh(pool.cells.Repr)
    {
      pool := new PoolManager();
      this.agentType, sent, current := agentType, [], E_ROOT_NODE;
    }

    /** `StartTrace` of a root. */
    method StartRoot(now: int) returns (id: int)
      requires Valid()
      modifies pool`used, pool`free, pool`maxId, pool`refs, pool`trees, pool.cells.Repr
      ensures Valid() && fresh(pool.cells.Repr - old(pool.cells.Repr))
      ensures id == E_INVALID_NODE <==> old(Full())
      ensures id == E_INVALID_NODE ==> Forest() == old(Forest())
      ensures id != E_INVALID_NODE ==>
                && !old(Forest()).Live(id) && Forest().trees == old(Forest()).trees[id := []]
                && Untouched(old(Forest()), Forest(), id) && Forest().Live(id)
                && Forest().nodes[id - 1] == FreshRoot(id, agentType, now)
    {
      hide TraceForest.Forest.Valid, NodeCells.Valid, Partition, Tidy, SpansKept, Untouched, LiveIds, Kept, Insert;
      ghost var f := Forest();
      GrownValid(f);
      pool.ExhaustedIffFull();
      var ok;
      ok, id := pool.GetReadyNode();
      if !ok {
        return E_INVALID_NODE;
      }
      var node := pool.cells.Get(id - 1);
      node := node.UpgradeToRoot(agentType).(startTime := now);
      pool.cells.Set(id - 1, node);
      ghost var g := if |f.used| == |pool.used| then f else Grown(f);
      PlantRootValid(g, id, node);
      FreshKept(agentType);
      RootPlanted(f, g, id, node);
      pool.trees := pool.trees[id := []];
      assert Forest() == PlantRoot(g, id, node);
    }

    /** `StartTrace` under a live node. */
    method StartChild(parent: int, now: int) returns (id: int)
      requires Valid()
      modifies pool`used, pool`free, pool`maxId, pool`refs, pool`trees, pool.cells.Repr
      ensures Valid() && fresh(pool.cells.Repr - old(pool.cells.Repr))
      ensures id == E_INVALID_NODE <==> !old(Forest()).Live(parent) || old(Full())
      ensures id == E_INVALID_NODE ==> Forest() == old(Forest())
      ensures id != E_INVALID_NODE ==> StartedUnder(old(Forest()), Forest(), parent, id, now)
    {
      hide TraceForest.Forest.Valid, NodeCells.Valid, Partition, StartedUnder, Tidy, SpansKept, LiveIds, KeepsRefs, AllZero;
      ghost var f := Forest();
      ghost var refs := pool.refs;
      var ok := pool.ReferNode(parent);
      if !ok {
        return E_INVALID_NODE;
      }
      RootIffTree(f, parent);
      var parentNode := pool.cells.Get(parent - 1);
      ChainEnd(f, parentNode.rootId);
      ok := pool.ReferNode(parentNode.rootId);
      ghost var held := pool.refs;
      id := NewChild(parent, parentNode, now);
      ghost var g := Forest();
      if id != E_INVALID_NODE {
        StillTidy(f, g, parent, id, now);
      }
      DropBoth(parent, parentNode.rootId, f, refs, held);
    }

    /** The references to a node and its root, taken while there were no others, are dropped. */
    method DropBoth(id: int, r: int, ghost f: Forest, ghost refs: seq<nat>, ghost held: seq<nat>)
      requires pool.Valid() && Forest().Live(id) && Forest().Live(r)
      requires |refs| == |f.used| && f.Live(id) && f.Live(r) && AllZero(refs)
      requires held == var once := refs[id - 1 := refs[id - 1] + 1]; once[r - 1 := once[r - 1] + 1]
      requires KeepsRefs(f.used, held, pool.refs)
      modifies pool`refs
      ensures pool.Valid() && pool.Quiet() && Forest() == old(Forest())
    {
      hide TraceForest.Forest.Valid, NodeCells.Valid, Partition, KeepsRefs, AllZero;
      RefsBack(f, refs, held, pool.refs, id, r);
      pool.Release(r);
      pool.Release(id);
    }

    /** The part of `StartTrace` between taking and dropping the references to parent and root. */
    method NewChild(parent: int, parentNode: TraceNode, now: int) returns (id: int)
      requires pool.Valid() && this !in pool.cells.Repr
      requires Forest().Live(parent) && parentNode == Forest().Node(parent)
      modifies pool`used, pool`free, pool`maxId, pool`refs, pool`trees, pool.cells.Repr
      ensures pool.Valid() && fresh(pool.cells.Repr - old(pool.cells.Repr))
      ensures id == E_INVALID_NODE <==> old(Full())
      ensures id == E_INVALID_NODE ==> Forest() == old(Forest())
      ensures id != E_INVALID_NODE ==> StartedUnder(old(Forest()), Forest(), parent, id, now)
      ensures KeepsRefs(old(pool.used), old(pool.refs), pool.refs)
      ensures forall x | old(Forest()).Live(x) :: Forest().Live(x)
    {
      hide TraceForest.Forest.Valid, NodeCells.Valid, Partition, Append, LiveIds;
      ghost var f := Forest();
      GrownValid(f);
      pool.ExhaustedIffFull();
      RootIffTree(f, parent);
      var r := parentNode.rootId;
      var ok;
      ok, id := pool.GetReadyNode();
      if !ok {
        return E_INVALID_NODE;
      }
      ghost var g := if |f.used| == |pool.used| then f else Grown(f);
      var node := pool.cells.Get(id - 1);
      node := node.(startTime := now, parentId := parent, depth := parentNode.depth + 1);
      UpdateLater(g.nodes, id - 1, g.nodes[id - 1].Reset(id), node, parent - 1, node);
      pool.cells.Set(id - 1, node);
      pool.AppendToRootTrace(r, id, g, node);
      ghost var kid := node.(rootId := r, sequence := |g.trees[r]|, preTime := g.Node(g.Before(r, |g.trees[r]|)).startTime);
      AppendValid(g, r, parent, id, kid);
      AppendedUnder(f, g, r, parent, id, kid);
    }

    /** What `EndTrace` does to a node that is not a root. */
    method EndEvent(id: int, now: int)
      requires Ready() && Forest().Live(id) && id !in Forest().trees
      modifies pool.cells.Repr
      ensures Ready() && pool.cells.Repr == old(pool.cells.Repr)
      ensures Forest() == old(Forest()).(nodes := old(Forest()).nodes[id - 1 := old(Forest()).Node(id).End(now)])
    {
      hide NodeCells.Valid, Partition, TraceNode.End;
      ghost var f := Forest();
      RootIffTree(f, id);
      assert f.Placed(id) && f.KidOk(f.Node(id).rootId, f.Node(id).sequence);
      var node := pool.cells.Get(id - 1);
      pool.cells.Set(id - 1, node.End(now));
      EndedKept(f, id, now);
      EndIsComplete(node, now);
      assert SameLinks(node, node.End(now));
      RelabelValid(f, Forest());
      assert Forest() == EndedAt(f, id, now);
    }

    /** `SendSpanTrace` up to the text, for a root that has been ended. */
    method EncodeRoot(id: int, now: int, clock: nat -> int) returns (ok: bool, span: Span)
      requires Ready() && id in Forest().trees && Forest().Live(id)
      modifies pool`refs, pool.cells.Repr
      ensures pool.Valid() && pool.cells.Repr == old(pool.cells.Repr) && pool.refs == old(pool.refs)
      ensures ok == !(old(Forest()).trees[id] != [] && Jammed(old(Forest()).Node(id).value.notes))
      ensures ok ==> span == SpanOf(old(Forest()), id, now, clock) && Elsewhere(old(Forest()), Forest(), id)
      ensures !ok ==> JammedAt(old(Forest()), Forest(), id, now, clock)
    {
      hide NodeCells.Valid, Partition, TraceNode.End, TraceForest.Forest.Valid, EncodeUpTo, SpanOf, EncodedNode, Get;
      ghost var f := Forest();
      var node := pool.cells.Get(id - 1);
      pool.cells.Set(id - 1, node.End(now));
      RootEnded(f, id, now, clock);
      EndNotes(node, now, EVENT);
      var _ := pool.ReferNode(id);
      ok, span := pool.EncodeTraceToJsonSpan(id, clock);
      pool.Release(id);
    }

    /** The scope in which `EndTrace` holds a root: the root is ended and its span sent, if its status lets it pass.
        Fails when the span cannot be put together. */
    method SendRoot(id: int, now: int, clock: nat -> int) returns (ok: bool)
      requires Ready() && id in Forest().trees && Forest().Live(id)
      modifies this`sent, pool`refs, pool.cells.Repr
      ensures pool.Valid() && pool.cells.Repr == old(pool.cells.Repr) && pool.refs == old(pool.refs)
      ensures ok == !Jams(old(Forest()), id)
      ensures ok ==> Elsewhere(old(Forest()), Forest(), id)
      ensures !ok ==> JammedAt(old(Forest()), Forest(), id, now, clock)
      ensures SentSpan(old(Forest()), id, now, clock, old(sent), sent)
      ensures old(SpansKept(sent)) ==> SpansKept(sent)
    {
      hide NodeCells.Valid, Partition, TraceForest.Forest.Valid, SpanOf, Jammed, Span.AllKept, JammedAt;
      ghost var f := Forest();
      ChainEnd(f, id);
      var node := pool.cells.Get(id - 1);
      ok := true;
      if node.extra.value.status == E_TRACE_PASS {
        SpanIsKept(f, id, now, clock);
        var span;
        ok, span := EncodeRoot(id, now, clock);
        if ok {
          sent := sent + [span];
        }
      }
    }

    /** `pinpoint_start_trace`. */
    method StartTrace(parent: int, now: int) returns (id: int)
      requires Valid()
      modifies pool`used, pool`free, pool`maxId, pool`refs, pool`trees, pool.cells.Repr
      ensures Valid() && fresh(pool.cells.Repr - old(pool.cells.Repr))
      ensures id == E_INVALID_NODE <==> (parent != E_ROOT_NODE && !old(Forest()).Live(parent)) || old(Full())
      ensures id == E_INVALID_NODE ==> Forest() == old(Forest())
      ensures id != E_INVALID_NODE && parent == E_ROOT_NODE ==>
                && !old(Forest()).Live(id) && Forest().trees == old(Forest()).trees[id := []]
                && Untouched(old(Forest()), Forest(), id) && Forest().Live(id)
                && Forest().nodes[id - 1] == FreshRoot(id, agentType, now)
      ensures id != E_INVALID_NODE && parent != E_ROOT_NODE ==> StartedUnder(old(Forest()), Forest(), parent, id, now)
      ensures id != E_INVALID_NODE ==> Forest().Live(id)
    {
      hide Tidy, SpansKept, TraceForest.Forest.Valid, NodeCells.Valid, Partition;
      if parent <= E_INVALID_NODE {
        id := E_INVALID_NODE;
      } else if parent == E_ROOT_NODE {
        id := StartRoot(now);
      } else {
        id := StartChild(parent, now);
      }
    }

    /** `pinpoint_end_trace`. */
    method EndTrace(id: int, now: int, clock: nat -> int) returns (ret: int)
      requires Valid()
      modifies this`sent, pool, pool.cells.Repr
      ensures Valid() && pool.cells.Repr == old(pool.cells.Repr)
      ensures Ended(old(Forest()), Forest(), id, now, clock, ret)
      ensures SentSpan(old(Forest()), id, now, clock, old(sent), sent)
    {
      hide NodeCells.Valid, Partition, TraceNode.End, TraceForest.Forest.Valid, SpanOf, Fell;
      ghost var f := Forest();
      var ok := pool.ReferNode(id);
      if !ok {
        return E_INVALID_NODE;
      }
      RootIffTree(f, id);
      var node := pool.cells.Get(id - 1);
      if !node.IsRoot() {
        EndEvent(id, now);
        pool.Release(id);
        return node.parentId;
      }
      ChainEnd(f, id);
      ok := SendRoot(id, now, clock);
      pool.Release(id);
      if !ok {
        JammedTidy(f, Forest(), id, now, clock);
        return E_INVALID_NODE;
      }
      FelledRest(f, Forest(), id);
      pool.FreeNodeTree(id);
      return E_ROOT_NODE;
    }

    /** `SetStatus`; returns the status there was. */
    method SetStatus(r: int, status: int) returns (older: int)
      requires pool.Storage() && Forest().Live(r) && Forest().Node(r).extra.Some?
      modifies pool.cells.Repr
      ensures pool.Storage() && pool.cells.Repr == old(pool.cells.Repr)
      ensures older == old(Forest().Node(r)).extra.value.status && Forest() == WithStatus(old(Forest()), r, status)
    {
      hide NodeCells.Valid, Partition;
      var root := pool.cells.Get(r - 1);
      older := root.extra.value.status;
      pool.cells.Set(r - 1, root.(extra := Some(root.extra.value.(status := status))));
    }

    /** `ChangeTraceStatus` on the root of a node's tree: the status there was, as an unsigned word; 0 for a dead
        node. */
    method ChangeTraceStatus(id: int, status: int) returns (older: int)
      requires Valid()
      modifies pool`refs, pool.cells.Repr
      ensures Valid() && pool.cells.Repr == old(pool.cells.Repr)
      ensures !old(Forest()).Live(id) ==> older == 0 && Forest() == old(Forest())
      ensures old(Forest()).Live(id) ==>
                var f, r := old(Forest()), old(Forest()).Node(id).rootId;
                && f.Live(r) && f.Node(r).extra.Some? && older == AsUInt64(f.Node(r).extra.value.status)
                && Forest() == WithStatus(f, r, status)
    {
      hide NodeCells.Valid, Partition, TraceForest.Forest.Valid, Tidy, SpansKept, AllZero, WithStatus, AsUInt64;
      ghost var f := Forest();
      ghost var refs := pool.refs;
      var ok := pool.ReferNode(id);
      if !ok {
        return 0;
      }
      RootIffTree(f, id);
      var node := pool.cells.Get(id - 1);
      ChainEnd(f, node.rootId);
      StatusRelabels(f, node.rootId, status);
      ok := pool.ReferNode(node.rootId);
      older := SetStatus(node.rootId, status);
      older := AsUInt64(older);
      DropBoth(id, node.rootId, f, refs, pool.refs);
    }

    /** The part of an annotation behind the references: `at` is the node it goes to. */
    method WriteClue(id: int, r: int, at: int, clue: Clue) returns (ok: bool)
      requires pool.Storage() && Forest().Live(id) && Forest().Live(r) && (at == id || at == r)
      modifies pool.cells.Repr
      ensures pool.Storage() && pool.cells.Repr == old(pool.cells.Repr)
      ensures ok == ClueValue(old(Forest()).Node(at).value.notes, clue, old(Forest()).Node(r).startTime).Some?
      ensures Forest() == Written(old(Forest()), id, r, at, clue)
    {
      hide NodeCells.Valid, Partition, ClueValue, Insert;
      var node := pool.cells.Get(at - 1);
      var root := pool.cells.Get(r - 1);
      var noted := ClueValue(node.value.notes, clue, root.startTime);
      if noted.None? {
        return false;
      }
      if clue.Thrown? {
        node := pool.cells.Get(id - 1);
        pool.cells.Set(id - 1, node.(setExp := true));
        root := pool.cells.Get(r - 1);
        pool.cells.Set(r - 1, root.(setExp := true));
      }
      node := pool.cells.Get(at - 1);
      pool.cells.Set(at - 1, node.(value := node.value.(notes := Insert(node.value.notes, noted.value.0, noted.value.1))));
      return true;
    }

    /** `pinpoint_add_clue`, `pinpoint_add_clues`, `catch_error` and `pinpoint_add_exception`: exceptions leave
        everything as it was. */
    method Annotate(id: int, clue: Clue, atRoot: bool) returns (ok: bool)
      requires Valid() && (clue.Fault? ==> clue.line < TWO_32)
      modifies pool`refs, pool.cells.Repr
      ensures Valid() && pool.cells.Repr == old(pool.cells.Repr)
      ensures Forest() == Noted(old(Forest()), id, clue, atRoot)
      ensures Annotated(old(Forest()), Forest(), id, clue, atRoot, ok)
    {
      hide NodeCells.Valid, Partition, TraceForest.Forest.Valid, Tidy, SpansKept, AllZero, Written, Annotated, ClueValue;
      ghost var f := Forest();
      ghost var refs := pool.refs;
      ok := pool.ReferNode(id);
      if !ok {
        DeadTells(f, id, clue, atRoot);
        return;
      }
      RootIffTree(f, id);
      NotedValid(f, id, clue, atRoot);
      NotedTells(f, id, clue, atRoot);
      var node := pool.cells.Get(id - 1);
      ChainEnd(f, node.rootId);
      if clue.Fault? || clue.Thrown? || atRoot {
        var _ := pool.ReferNode(node.rootId);
        ok := WriteClue(id, node.rootId, if clue.Thrown? then id else node.rootId, clue);
        DropBoth(id, node.rootId, f, refs, pool.refs);
      } else {
        ok := WriteClue(id, node.rootId, id, clue);
        pool.Release(id);
        assert pool.refs == refs;
      }
    }

    /** `pinpoint_force_end_trace`: ends the ancestors of `id` one after the other, the `k`-th at `time(k)`. */
    method ForceEndTrace(id: int, time: nat -> int, clock: nat -> int) returns (ret: int, visited: seq<int>)
      requires Valid()
      modifies this`sent, pool, pool.cells.Repr
      ensures Valid() && pool.cells.Repr == old(pool.cells.Repr)
      ensures !old(Forest()).Live(id) ==>
                && ret == (if id == E_ROOT_NODE then E_ROOT_NODE else E_INVALID_NODE)
                && Forest() == old(Forest()) && sent == old(sent)
      ensures old(Forest()).Live(id) ==>
                && var f, r := old(Forest()), old(Forest()).Node(id).rootId;
                && r in f.trees && f.Live(r) && ret == (if Jams(f, r) then E_INVALID_NODE else E_ROOT_NODE)
                && Climbed(f, Forest(), id, visited, time, clock)
                && ForcedSpan(f, id, visited, time, clock, old(sent), sent)
    {
      hide NodeCells.Valid, Partition, TraceNode.End, TraceForest.Forest.Valid, SpanOf, Ended, Tidy, SpansKept;
      hide Climbing, Climbed, EndedPath;
      ghost var f := Forest();
      ret, visited := id, [];
      ClimbStart(f, id, time);
      while ret != E_ROOT_NODE
        invariant Valid() && pool.cells.Repr == old(pool.cells.Repr)
        invariant f.Live(id) && ret != E_ROOT_NODE ==> Climbing(f, Forest(), id, ret, visited, time) && sent == old(sent)
        invariant f.Live(id) && ret == E_ROOT_NODE ==>
                    && Climbed(f, Forest(), id, visited, time, clock)
                    && ForcedSpan(f, id, visited, time, clock, old(sent), sent)
                    && var r := f.Node(id).rootId; r in f.trees && f.Live(r) && !Jams(f, r)
        invariant !f.Live(id) ==> Forest() == f && ret == id && sent == old(sent)
        decreases ret != E_ROOT_NODE, Height(Forest(), ret)
      {
        ghost var before := Forest();
        var parent := EndTrace(ret, time(|visited|), clock);
        if !f.Live(id) {
          DeadStays(before, Forest(), ret, time(|visited|), clock, parent);
        } else {
          ClimbStep(f, before, Forest(), id, ret, visited, time, clock, parent);
          if ret in f.trees {
            ClimbSent(f, before, id, ret, visited, time, clock, old(sent), sent);
          } else {
            NothingSent(before, ret, time(|visited|), clock, old(sent), sent);
          }
        }
        visited, ret := visited + [ret], parent;
        if ret == E_INVALID_NODE {
          break;
        }
      }
    }

    /** `start_thread_local_trace`: a failed start leaves the thread at `E_INVALID_NODE`. */
    method StartLocal(now: int)
      requires Valid()
      modifies this`current, pool`used, pool`free, pool`maxId, pool`refs, pool`trees, pool.cells.Repr
      ensures Valid() && fresh(pool.cells.Repr - old(pool.cells.Repr))
      ensures current == E_INVALID_NODE <==>
                (old(current) != E_ROOT_NODE && !old(Forest()).Live(old(current))) || old(Full())
      ensures current == E_INVALID_NODE ==> Forest() == old(Forest())
      ensures current != E_INVALID_NODE && old(current) == E_ROOT_NODE ==>
                && !old(Forest()).Live(current) && Forest().trees == old(Forest()).trees[current := []]
                && Untouched(old(Forest()), Forest(), current) && Forest().Live(current)
                && Forest().nodes[current - 1] == FreshRoot(current, agentType, now)
      ensures current != E_INVALID_NODE && old(current) != E_ROOT_NODE ==>
                StartedUnder(old(Forest()), Forest(), old(current), current, now)
      ensures current != E_INVALID_NODE ==> Forest().Live(current)
    {
      current := StartTrace(current, now);
    }

    /** `end_thread_local_trace`. */
    method EndLocal(now: int, clock: nat -> int)
      requires Valid()
      modifies this`sent, this`current, pool, pool.cells.Repr
      ensures Valid() && pool.cells.Repr == old(pool.cells.Repr)
      ensures Ended(old(Forest()), Forest(), old(current), now, clock, current)
      ensures SentSpan(old(Forest()), old(current), now, clock, old(sent), sent)
    {
      current := EndTrace(current, now, clock);
    }
  }

  /** Only `id` is new in `g`; the live nodes of `f` are as they were. */
  ghost predicate Untouched(f: Forest, g: Forest, id: int) {
    && |f.nodes| == |f.used| <= |g.nodes| == |g.used|
    && (forall x :: g.Live(x) <==> f.Live(x) || x == id)
    && (forall x | f.Live(x) :: g.Node(x) == f.Node(x))
  }

  /** What starting `id` under `parent` changes: the tree of `parent` is longer by one. */
  ghost predicate StartedUnder(f: Forest, g: Forest, parent: int, id: int, now: int) {
    && |f.nodes| == |f.used| <= |g.nodes| == |g.used|
    && f.Live(parent) && !f.Live(id) && g.Live(id)
    && (forall x :: g.Live(x) <==> f.Live(x) || x == id)
    && var r := f.Node(parent).rootId;
    && r in f.trees && g.trees == f.trees[r := f.trees[r] + [id]]
    && f.Live(f.Before(r, |f.trees[r]|))
    && g.Node(id) == FreshKid(id, r, parent, f.Node(parent).depth + 1, |f.trees[r]|, now,
                              f.Node(f.Before(r, |f.trees[r]|)).startTime)
    && forall x | f.Live(x) ::
         && g.Live(x) && Relinked(f.Node(x), g.Node(x))
         && (f.Node(x).rootId != r ==> g.Node(x) == f.Node(x))
  }

  /** Nodes that differ at most in what follows them in a chain. */
  ghost predicate Relinked(a: TraceNode, b: TraceNode) {
    && b.(next := a.next, extra := a.extra) == a
    && (a.extra.Some? <==> b.extra.Some?)
    && (a.extra.Some? ==> b.extra.value.status == a.extra.value.status)
  }

  lemma AppendedUnder(f: Forest, g: Forest, r: int, parent: int, x: int, kid: TraceNode)
    requires f.Valid() && g.Valid() && (g == f || g == Grown(f)) && r in g.trees
    requires 1 <= x <= |g.used| && !g.Live(x) && FitsUnder(g, r, parent, x, kid) && f.Live(parent)
    requires kid == FreshKid(x, r, parent, kid.depth, kid.sequence, kid.startTime, kid.preTime)
    ensures StartedUnder(f, Append(g, r, x, kid), parent, x, kid.startTime)
  {
    hide Append, Grown, TraceForest.Forest.Valid;
    RootIffTree(f, parent);
    GrownNodes(f);
    AppendNodes(g, r, x, kid);
    AppendTrees(g, r, x, kid);
    ChainEnd(f, r);
    TreeParts(g, r);
    var kids := g.trees[r];
    assert kids != [] ==> g.KidOk(r, |kids| - 1);
  }

  /** Two references taken while all counts were 0, and kept: dropping them brings all counts to 0 again. */
  lemma RefsBack(f: Forest, refs: seq<nat>, held: seq<nat>, now: seq<nat>, p: int, r: int)
    requires |refs| == |f.used| && f.Live(p) && f.Live(r) && AllZero(refs)
    requires var once := refs[p - 1 := refs[p - 1] + 1]; held == once[r - 1 := once[r - 1] + 1]
    requires KeepsRefs(f.used, held, now)
    ensures |refs| <= |now| && now[r - 1] > 0
    ensures var less := now[r - 1 := now[r - 1] - 1]; less[p - 1] > 0 && AllZero(less[p - 1 := less[p - 1] - 1])
  {
  }

  /** No root has collected its events yet. */
  ghost predicate Uncollected(f: Forest) {
    |f.nodes| == |f.used| && forall r <- f.trees :: f.Live(r) && f.Node(r).value.events == []
  }

  ghost predicate Tidy(f: Forest) {
    Uncollected(f) && KeptForest(f)
  }

  lemma RootPlanted(f: Forest, g: Forest, id: int, root: TraceNode)
    requires f.Valid() && g.Valid() && (g == f || g == Grown(f)) && 1 <= id <= |g.used| && !g.Live(id)
    requires Tidy(f) && root.value.events == [] && Kept(root.value.notes)
    ensures !f.Live(id) && Untouched(f, PlantRoot(g, id, root), id)
    ensures Tidy(PlantRoot(g, id, root))
  {
    hide Kept;
  }

  lemma FreshKept(agentType: int32)
    ensures Kept(FreshRoot(0, agentType, 0).value.notes) && Kept([])
    ensures Insert([], AGENT_TYPE, Value.Int(agentType)) == FreshRoot(0, agentType, 0).value.notes
  {
  }

  lemma StillTidy(f: Forest, g: Forest, parent: int, id: int, now: int)
    requires Tidy(f) && StartedUnder(f, g, parent, id, now)
    ensures Tidy(g)
  {
    hide Kept;
    FreshKept(0);
  }

  /** Spans whose annotations can be stored, with fewer events than the pool has nodes. */
  ghost predicate SpansKept(sent: seq<Span>) {
    forall s <- sent :: s.AllKept() && |s.events| < POOL_CAPACITY
  }

  /** The span of a root: its own record, and one event per node started under it. */
  ghost function SpanOf(f: Forest, r: int, now: int, clock: nat -> int): (s: Span)
    requires f.Valid() && r in f.trees && f.Live(r)
  {
    Span(f.Node(r).End(now).value.notes, Events(f, r, |f.trees[r]|, clock))
  }

  ghost function EndedAt(f: Forest, id: int, now: int): (g: Forest)
    requires |f.nodes| == |f.used| && f.Live(id)
  {
    f.(nodes := f.nodes[id - 1 := f.Node(id).End(now)])
  }

  lemma EndedKept(f: Forest, id: int, now: int)
    requires f.Valid() && KeptForest(f) && |f.used| < TWO_31 && f.Live(id)
    ensures KeptForest(EndedAt(f, id, now))
  {
    hide Kept, TraceNode.End, TraceForest.Forest.Valid;
    EndKeepsForest(f, id, now);
    var g := EndedAt(f, id, now);
    forall x | g.Live(x) ensures Kept(g.Node(x).value.notes) {
      assert f.Live(x);
    }
  }

  /** What is sent can be stored. */
  lemma SpanIsKept(f: Forest, r: int, now: int, clock: nat -> int)
    requires f.Valid() && KeptForest(f) && |f.used| <= POOL_CAPACITY && r in f.trees && f.Live(r)
    ensures SpanOf(f, r, now, clock).AllKept() && |SpanOf(f, r, now, clock).events| < POOL_CAPACITY
  {
    hide Kept, TraceNode.End;
    ChainBound(f, r);
    EndKeepsForest(f, r, now);
    forall k | 0 <= k < |f.trees[r]| ensures Kept(Events(f, r, |f.trees[r]|, clock)[k]) {
      assert f.KidOk(r, k);
      EndKeepsForest(f, f.trees[r][k], clock(k));
    }
    var span := SpanOf(f, r, now, clock);
    forall e <- span.events ensures Kept(e) {
      var k :| 0 <= k < |span.events| && span.events[k] == e;
    }
  }

  /** Ending a root relabels it, and its events are those of its chain. */
  lemma RootEnded(f: Forest, r: int, now: int, clock: nat -> int)
    requires f.Valid() && r in f.trees && f.Live(r) && f.Node(r).value.events == []
    ensures EndedAt(f, r, now).Valid()
    ensures var enc := EncodeUpTo(EndedAt(f, r, now), r, |f.trees[r]|, clock);
            && enc[r - 1].value == SpanOf(f, r, now, clock)
            && (forall x | f.Live(x) :: enc[x - 1].rootId == f.Node(x).rootId)
            && (forall x | f.Live(x) && f.Node(x).rootId != r :: enc[x - 1] == f.Node(x))
  {
    hide TraceNode.End;
    var g := EndedAt(f, r, now);
    assert f.RootOk(r);
    RelabelValid(f, g);
    var n := |f.trees[r]|;
    forall k | 0 <= k < n ensures Events(g, r, n, clock)[k] == Events(f, r, n, clock)[k] {
      assert f.KidOk(r, k) && g.KidOk(r, k);
      assert g.Node(f.trees[r][k]) == f.Node(f.trees[r][k]);
    }
    assert Events(g, r, n, clock) == Events(f, r, n, clock);
    assert [] + Events(g, r, n, clock) == Events(g, r, n, clock);
  }

  ghost predicate Passes(f: Forest, r: int)
    requires |f.nodes| == |f.used| && f.Live(r)
  {
    f.Node(r).extra.Some? && f.Node(r).extra.value.status == E_TRACE_PASS
  }

  /** Ending this root fails: it passes, has events to collect, and the name for them is taken. */
  ghost predicate Jams(f: Forest, r: int)
    requires |f.nodes| == |f.used| && f.Live(r) && r in f.trees
  {
    Passes(f, r) && f.trees[r] != [] && Jammed(f.Node(r).value.notes)
  }

  /** Ending `id` in `f` sends its span if it is a root that may pass, and nothing otherwise. */
  ghost predicate SentSpan(f: Forest, id: int, now: int, clock: nat -> int, was: seq<Span>, sent: seq<Span>)
    requires f.Valid()
  {
    if f.Live(id) && id in f.trees && Passes(f, id) && !Jams(f, id) then sent == was + [SpanOf(f, id, now, clock)]
    else sent == was
  }

  /** What ending `id` does to the forest. */
  ghost predicate Ended(f: Forest, g: Forest, id: int, now: int, clock: nat -> int, ret: int) {
    && |f.nodes| == |f.used| == |g.nodes| == |g.used|
    && if !f.Live(id) then ret == E_INVALID_NODE && g == f
       else if id !in f.trees then ret == f.Node(id).parentId && g == EndedAt(f, id, now)
       else if Jams(f, id) then ret == E_INVALID_NODE && JammedAt(f, g, id, now, clock)
       else ret == E_ROOT_NODE && Felled(f, g, id)
  }

  /** Nothing is given back: the root and the first node of its chain have been ended. */
  ghost predicate JammedAt(f: Forest, g: Forest, r: int, now: int, clock: nat -> int)
    requires |f.nodes| == |f.used| && f.Live(r)
  {
    var h := EndedAt(f, r, now);
    h.Valid() && r in h.trees && h.trees[r] != [] && g == JamAt(h, r, clock)
  }

  /** The tree of `r`, and nothing else, is gone. */
  ghost predicate Felled(f: Forest, g: Forest, r: int) {
    && |f.nodes| == |f.used| == |g.nodes| == |g.used| && g.trees == f.trees - {r}
    && (forall x :: g.Live(x) <==> f.Live(x) && f.Node(x).rootId != r)
    && (forall x | g.Live(x) :: g.Node(x) == f.Node(x))
  }

  /** Nodes of other trees are as they were, and no node has changed its tree. */
  ghost predicate Elsewhere(f: Forest, g: Forest, r: int) {
    && |f.nodes| == |f.used| == |g.nodes| && g.used == f.used && g.trees == f.trees
    && forall x | f.Live(x) :: g.Node(x).rootId == f.Node(x).rootId && (f.Node(x).rootId != r ==> g.Node(x) == f.Node(x))
  }

  /** Felling the tree of `r` in a forest that still looks like `f` elsewhere. */
  lemma FelledRest(f: Forest, g: Forest, r: int)
    requires f.Valid() && g.Valid() && Tidy(f) && r in f.trees && Elsewhere(f, g, r)
    ensures f.Live(r) && Felled(f, Fell(g, r), r) && Tidy(Fell(g, r))
  {
    hide Kept;
    var h := Fell(g, r);
    assert f.RootOk(r);
    forall x ensures h.Live(x) <==> f.Live(x) && f.Node(x).rootId != r {
      if f.Live(x) {
        MembersAre(g, r, x);
      }
    }
    forall q <- h.trees ensures h.Live(q) && h.Node(q).value.events == [] {
      assert f.RootOk(q);
    }
  }

  /** A jammed end changes no link, and nothing in another tree. */
  lemma JammedTidy(f: Forest, g: Forest, r: int, now: int, clock: nat -> int)
    requires f.Valid() && Tidy(f) && |f.used| < TWO_31 && r in f.trees && f.Live(r) && JammedAt(f, g, r, now, clock)
    ensures g.Valid() && Tidy(g) && g.used == f.used && g.trees == f.trees && |g.nodes| == |f.nodes|
    ensures forall x | f.Live(x) :: SameLinks(f.Node(x), g.Node(x)) && (f.Node(x).rootId != r ==> g.Node(x) == f.Node(x))
    ensures forall x | f.Live(x) && x in f.trees :: Get(g.Node(x).value.notes, EVENT) == Get(f.Node(x).value.notes, EVENT)
  {
    hide TraceNode.End, TraceForest.Forest.Valid, Kept, Get, JamAt, Closed;
    var h := EndedAt(f, r, now);
    RootIffTree(f, r);
    JamValid(h, r, clock);
    EndedKept(f, r, now);
    EndNotes(f.Node(r), now, EVENT);
    var k := h.trees[r][0];
    ClosedKept(h, k, clock(0));
  }

  lemma ClosedKept(f: Forest, id: int, now: int)
    requires f.Valid() && KeptForest(f) && f.Live(id) && |f.used| < TWO_31
    ensures Kept(Closed(f.Node(id), now).value.notes) && Closed(f.Node(id), now).value.events == f.Node(id).value.events
  {
    hide Kept, TraceNode.End;
    EndKeepsForest(f, id, now);
  }

  /** The `i`-th node of `path` is no root, and its parent comes next. */
  ghost predicate UpFrom(f: Forest, path: seq<int>, top: int, i: nat)
    requires |f.nodes| == |f.used| && i < |path|
  {
    && f.Live(path[i]) && path[i] !in f.trees
    && f.Node(path[i]).parentId == if i + 1 < |path| then path[i + 1] else top
  }

  /** From `id` up the parents; `path` lists the nodes passed. */
  ghost predicate Upward(f: Forest, id: int, path: seq<int>, top: int)
    requires |f.nodes| == |f.used|
  {
    && (forall i | 0 <= i < |path| :: UpFrom(f, path, top, i))
    && (if path == [] then top else path[0]) == id
  }

  /** The forest with the nodes of `path` ended, the `k`-th at `time(k)`. */
  ghost function EndedPath(f: Forest, path: seq<int>, time: nat -> int): (g: Forest)
    requires |f.nodes| == |f.used| && forall x <- path :: f.Live(x)
    ensures g.used == f.used && g.trees == f.trees && |g.nodes| == |f.nodes|
    decreases |path|
  {
    if path == [] then f
    else
      var n := |path| - 1;
      assert path[n] in path && forall x <- path[..n] :: x in path;
      var h := EndedPath(f, path[..n], time);
      assert h.used == f.used && f.Live(path[n]);
      EndedAt(h, path[n], time(n))
  }

  lemma {:induction false} EndedPathMore(f: Forest, path: seq<int>, x: int, time: nat -> int)
    requires |f.nodes| == |f.used| && f.Live(x) && forall y <- path :: f.Live(y)
    ensures EndedPath(f, path + [x], time) == EndedAt(EndedPath(f, path, time), x, time(|path|))
  {
    assert (path + [x])[..|path|] == path;
  }

  /** Ending nodes changes no link, and no node off the path. */
  lemma {:induction false} EndedPathNodes(f: Forest, path: seq<int>, time: nat -> int)
    requires |f.nodes| == |f.used| && forall x <- path :: f.Live(x)
    ensures var g := EndedPath(f, path, time);
            && (forall i | 0 <= i < |f.nodes| :: SameLinks(f.nodes[i], g.nodes[i]))
            && (forall x | f.Live(x) && x !in path :: g.Node(x) == f.Node(x))
    decreases |path|
  {
    hide TraceNode.End;
    if path == [] {
    } else {
      EndedPathNodes(f, path[..|path| - 1], time);
    }
  }

  /** The forced end has passed the nodes of `path` and is at `cur`. */
  ghost predicate Climbing(f: Forest, g: Forest, id: int, cur: int, path: seq<int>, time: nat -> int) {
    && |f.nodes| == |f.used| && f.Live(id) && f.Live(cur) && f.Node(cur).rootId == f.Node(id).rootId
    && Upward(f, id, path, cur)
    && (forall x <- path :: f.Live(x) && x !in f.trees && f.Node(x).rootId == f.Node(id).rootId)
    && g == EndedPath(f, path, time)
  }

  /** The forced end is through: it passed the ancestors of `id` up to the root, and the tree of `id`,
      nothing else, is gone, unless ending its root fails. */
  ghost predicate Climbed(f: Forest, g: Forest, id: int, path: seq<int>, time: nat -> int, clock: nat -> int) {
    && |f.nodes| == |f.used| && f.Live(id) && path != [] && (forall x <- path :: f.Live(x))
    && var r, n := f.Node(id).rootId, |path| - 1;
    && path[n] == r && Upward(f, id, path[..n], r)
    && (forall x <- path[..n] :: f.Live(x) && x !in f.trees && f.Node(x).rootId == r)
    && r in f.trees && f.Live(r)
    && if Jams(f, r) then JammedAt(EndedPath(f, path[..n], time), g, r, time(n), clock) else Felled(f, g, r)
  }

  /** The span a forced end sends: that of the root when all nodes on the way to it have been ended. */
  ghost predicate ForcedSpan(f: Forest, id: int, path: seq<int>, time: nat -> int, clock: nat -> int,
                             was: seq<Span>, sent: seq<Span>)
  {
    && |f.nodes| == |f.used| && f.Live(id) && path != [] && (forall x <- path :: f.Live(x))
    && var r, n := f.Node(id).rootId, |path| - 1;
    && r in f.trees && f.Live(r)
    && var last := EndedPath(f, path[..n], time);
    && last.Valid()
    && sent == if Passes(f, r) && !Jams(f, r) then was + [SpanOf(last, r, time(n), clock)] else was
  }

  /** A node's place in its chain; a parent's is smaller. */
  ghost function Height(f: Forest, id: int): (h: nat) {
    if |f.nodes| == |f.used| && f.Live(id) && id !in f.trees && f.Node(id).sequence >= 0 then f.Node(id).sequence + 1 else 0
  }

  lemma ClimbStart(f: Forest, id: int, time: nat -> int)
    requires f.Valid()
    ensures f.Live(id) ==> Climbing(f, f, id, id, [], time)
    ensures !f.Live(E_ROOT_NODE)
  {
  }

  lemma ParentIsLower(f: Forest, id: int)
    requires f.Valid() && f.Live(id) && id !in f.trees
    ensures |f.nodes| == |f.used|
    ensures var p := f.Node(id).parentId;
            f.Live(p) && f.Node(p).rootId == f.Node(id).rootId && Height(f, p) < Height(f, id)
  {
    assert f.Placed(id);
    var n := f.Node(id);
    assert f.KidOk(n.rootId, n.sequence) && f.RootOk(n.rootId);
    if n.parentId != n.rootId {
      var j :| 0 <= j < n.sequence && f.trees[n.rootId][j] == n.parentId;
      assert f.KidOk(n.rootId, j);
    }
  }

  lemma ClimbStep(f: Forest, g: Forest, h: Forest, id: int, cur: int, path: seq<int>, time: nat -> int,
                  clock: nat -> int, ret: int)
    requires f.Valid() && g.Valid() && h.Valid() && Climbing(f, g, id, cur, path, time)
    requires Ended(g, h, cur, time(|path|), clock, ret)
    ensures |f.nodes| == |f.used| && f.Live(cur) && f.Live(id)
    ensures cur in f.trees ==>
              && cur == f.Node(id).rootId && ret == (if Jams(f, cur) then E_INVALID_NODE else E_ROOT_NODE)
              && Climbed(f, h, id, path + [cur], time, clock)
    ensures cur !in f.trees ==>
              && ret != E_INVALID_NODE && ret != E_ROOT_NODE
              && Climbing(f, h, id, ret, path + [cur], time) && Height(h, ret) < Height(g, cur)
  {
    hide TraceNode.End, TraceForest.Forest.Valid, EndedPath, Upward, JammedAt, Get;
    EndedPathNodes(f, path, time);
    RootIffTree(f, cur);
    if cur in g.trees {
      assert (path + [cur])[..|path|] == path;
      if !Jams(g, cur) {
        FelledThere(f, g, h, path, cur);
      }
    } else {
      ParentIsLower(f, cur);
      ParentIsLower(g, cur);
      UpwardMore(f, id, path, cur);
      EndedPathMore(f, path, cur, time);
      SameHeight(g, h, ret);
    }
  }

  /** Nodes ended on the way are all in the tree that is felled. */
  lemma FelledThere(f: Forest, g: Forest, h: Forest, path: seq<int>, r: int)
    requires f.Valid() && Felled(g, h, r) && g.trees == f.trees && g.used == f.used && |g.nodes| == |f.nodes|
    requires forall i | 0 <= i < |f.nodes| :: SameLinks(f.nodes[i], g.nodes[i])
    requires forall x <- path :: f.Live(x) && f.Node(x).rootId == r
    requires forall x | f.Live(x) && x !in path :: g.Node(x) == f.Node(x)
    ensures Felled(f, h, r)
  {
  }

  lemma SameHeight(g: Forest, h: Forest, id: int)
    requires |g.nodes| == |g.used| == |h.nodes| && h.used == g.used && h.trees == g.trees
    requires forall i | 0 <= i < |g.nodes| :: h.nodes[i].sequence == g.nodes[i].sequence
    ensures Height(h, id) == Height(g, id)
  {
  }

  /** The end of the root that the climb has come to. */
  lemma ClimbSent(f: Forest, g: Forest, id: int, r: int, path: seq<int>, time: nat -> int, clock: nat -> int,
                  was: seq<Span>, sent: seq<Span>)
    requires f.Valid() && g.Valid() && Climbing(f, g, id, r, path, time) && r in f.trees
    requires SentSpan(g, r, time(|path|), clock, was, sent)
    ensures ForcedSpan(f, id, path + [r], time, clock, was, sent)
  {
    hide TraceNode.End, TraceForest.Forest.Valid, EndedPath, SpanOf;
    RootIffTree(f, r);
    EndedPathNodes(f, path, time);
    assert (path + [r])[..|path|] == path;
  }

  lemma NothingSent(f: Forest, id: int, now: int, clock: nat -> int, was: seq<Span>, sent: seq<Span>)
    requires f.Valid() && id !in f.trees && SentSpan(f, id, now, clock, was, sent)
    ensures sent == was
  {
  }

  lemma UpwardMore(f: Forest, id: int, path: seq<int>, cur: int)
    requires |f.nodes| == |f.used| && Upward(f, id, path, cur) && f.Live(cur) && cur !in f.trees
    ensures Upward(f, id, path + [cur], f.Node(cur).parentId)
  {
    var more, top := path + [cur], f.Node(cur).parentId;
    forall i | 0 <= i < |more| ensures UpFrom(f, more, top, i) {
      assert i < |path| ==> UpFrom(f, path, cur, i);
    }
  }

  lemma DeadStays(g: Forest, h: Forest, id: int, now: int, clock: nat -> int, ret: int)
    requires Ended(g, h, id, now, clock, ret) && !g.Live(id)
    ensures h == g && ret == E_INVALID_NODE
  {
  }

  ghost function WithStatus(f: Forest, r: int, status: int): (g: Forest)
    requires |f.nodes| == |f.used| && f.Live(r) && f.Node(r).extra.Some?
  {
    f.(nodes := f.nodes[r - 1 := f.Node(r).(extra := Some(f.Node(r).extra.value.(status := status)))])
  }

  lemma StatusRelabels(f: Forest, r: int, status: int)
    requires f.Valid() && Tidy(f) && f.Live(r) && f.Node(r).extra.Some?
    ensures var g := WithStatus(f, r, status); g.Valid() && Tidy(g) && g.used == f.used
  {
    hide Kept, Get;
    RelabelValid(f, WithStatus(f, r, status));
    assert forall x | f.Live(x) :: WithStatus(f, r, status).Node(x).value == f.Node(x).value;
  }

  /** The node `at` with what a clue adds to it; an exception also marks the node and its root. */
  ghost function Written(f: Forest, id: int, r: int, at: int, clue: Clue): (g: Forest)
    requires |f.nodes| == |f.used| && f.Live(id) && f.Live(r) && (at == id || at == r)
  {
    match ClueValue(f.Node(at).value.notes, clue, f.Node(r).startTime)
    case None => f
    case Some(noted) =>
      var marked := if clue.Thrown? then Marked(Marked(f.nodes, id), r) else f.nodes;
      var n := marked[at - 1];
      f.(nodes := marked[at - 1 := n.(value := n.value.(notes := Insert(n.value.notes, noted.0, noted.1)))])
  }

  ghost function Marked(nodes: seq<TraceNode>, id: int): (r: seq<TraceNode>)
    requires 1 <= id <= |nodes|
    ensures |r| == |nodes|
  {
    nodes[id - 1 := nodes[id - 1].(setExp := true)]
  }

  /** What an annotation does to the forest. */
  ghost function Noted(f: Forest, id: int, clue: Clue, atRoot: bool): (g: Forest)
    requires f.Valid()
  {
    if !f.Live(id) then f
    else
      RootIffTree(f, id);
      var r := f.Node(id).rootId;
      ChainEnd(f, r);
      Written(f, id, r, if clue.Fault? || (atRoot && !clue.Thrown?) then r else id, clue)
  }

  /** Where a clue goes: an error to the root, an exception to the node, the others where the caller says. */
  function ClueAt(id: int, r: int, clue: Clue, atRoot: bool): (at: int) {
    match clue
    case Fault(_, _, _) => r
    case Thrown(_, _) => id
    case _ => if atRoot then r else id
  }

  /** What annotating `id` does, node by node and name by name, and when it is refused. */
  ghost predicate Annotated(f: Forest, g: Forest, id: int, clue: Clue, atRoot: bool, ok: bool) {
    && |f.nodes| == |f.used| == |g.nodes| && g.used == f.used && g.trees == f.trees
    && if !f.Live(id) then !ok && g == f
       else
         var r := f.Node(id).rootId;
         var at := ClueAt(id, r, clue, atRoot);
         && f.Live(r) && f.Live(at)
         && ClueTells(f.Node(at).value.notes, g.Node(at).value.notes, clue, f.Node(r).startTime, ok)
         && forall x | f.Live(x) ::
              && g.Node(x) == f.Node(x).(value := g.Node(x).value, setExp := g.Node(x).setExp)
              && g.Node(x).setExp == (f.Node(x).setExp || (clue.Thrown? && (x == id || x == r)))
              && g.Node(x).value.events == f.Node(x).value.events
              && (x != at ==> g.Node(x).value == f.Node(x).value)
  }

  lemma DeadTells(f: Forest, id: int, clue: Clue, atRoot: bool)
    requires f.Valid() && !f.Live(id)
    ensures Annotated(f, f, id, clue, atRoot, false)
  {
  }

  lemma NotedTells(f: Forest, id: int, clue: Clue, atRoot: bool)
    requires f.Valid() && f.Live(id)
    ensures f.Live(f.Node(id).rootId)
    ensures var r := f.Node(id).rootId;
            var at := if clue.Fault? || (atRoot && !clue.Thrown?) then r else id;
            var ok := ClueValue(f.Node(at).value.notes, clue, f.Node(r).startTime).Some?;
            Annotated(f, Noted(f, id, clue, atRoot), id, clue, atRoot, ok)
  {
    hide TraceForest.Forest.Valid, ClueValue, Insert, ClueTells;
    RootIffTree(f, id);
    var r := f.Node(id).rootId;
    ChainEnd(f, r);
    var at := ClueAt(id, r, clue, atRoot);
    ClueMeans(f.Node(at).value.notes, clue, f.Node(r).startTime);
    if clue.Thrown? {
      ThrownIs(f.Node(at).value.notes, clue, f.Node(r).startTime);
    }
  }

  lemma ThrownIs(notes: seq<Member>, clue: Clue, rootStart: int)
    requires clue.Thrown?
    ensures ClueValue(notes, clue, rootStart).Some?
  {
  }

  /** Annotations change no link, and nothing that the tracer records. */
  lemma NotedValid(f: Forest, id: int, clue: Clue, atRoot: bool)
    requires f.Valid() && Tidy(f) && (clue.Fault? ==> clue.line < TWO_32)
    ensures var g := Noted(f, id, clue, atRoot); g.Valid() && Tidy(g) && g.used == f.used && g.trees == f.trees
  {
    hide TraceForest.Forest.Valid, ClueValue, Insert, Kept, Get;
    if f.Live(id) {
      RootIffTree(f, id);
      var r := f.Node(id).rootId;
      ChainEnd(f, r);
      var at := if clue.Fault? || (atRoot && !clue.Thrown?) then r else id;
      WrittenValid(f, id, r, at, clue);
    }
  }

  /** What that changes of each node. */
  lemma WrittenNodes(f: Forest, id: int, r: int, at: int, clue: Clue)
    requires |f.nodes| == |f.used| && f.Live(id) && f.Live(r) && (at == id || at == r)
    ensures var g := Written(f, id, r, at, clue); g.used == f.used && g.trees == f.trees && |g.nodes| == |f.nodes|
    ensures var g := Written(f, id, r, at, clue);
            forall i | 0 <= i < |f.nodes| ::
              && SameLinks(f.nodes[i], g.nodes[i]) && g.nodes[i].extra == f.nodes[i].extra
              && g.nodes[i].expiredTime == f.nodes[i].expiredTime
              && g.nodes[i].value.(notes := f.nodes[i].value.notes) == f.nodes[i].value
              && (i != at - 1 ==> g.nodes[i].value == f.nodes[i].value)
    ensures var g, noted := Written(f, id, r, at, clue), ClueValue(f.Node(at).value.notes, clue, f.Node(r).startTime);
            && (g.Node(at).value.notes == if noted.None? then f.Node(at).value.notes
                                          else Insert(f.Node(at).value.notes, noted.value.0, noted.value.1))
            && forall i | 0 <= i < |f.nodes| ::
                 g.nodes[i].setExp == (f.nodes[i].setExp || (noted.Some? && clue.Thrown? && (i == id - 1 || i == r - 1)))
  {
    hide ClueValue, Insert;
  }

  lemma WrittenValid(f: Forest, id: int, r: int, at: int, clue: Clue)
    requires f.Valid() && Tidy(f) && (clue.Fault? ==> clue.line < TWO_32)
    requires f.Live(id) && f.Live(r) && (at == id || at == r)
    ensures var g := Written(f, id, r, at, clue); g.Valid() && Tidy(g) && g.used == f.used && g.trees == f.trees
  {
    hide TraceForest.Forest.Valid, ClueValue, Insert, Kept, Get, Written;
    WrittenNodes(f, id, r, at, clue);
    var notes, g := f.Node(at).value.notes, Written(f, id, r, at, clue);
    NotesWritten(notes, clue, f.Node(r).startTime, g.Node(at).value.notes);
    RelabelValid(f, g);
    forall x | g.Live(x) ensures Kept(g.Node(x).value.notes) && g.Node(x).value.events == f.Node(x).value.events {
      assert f.Live(x);
    }
  }

  /** A clue keeps what the tracer records, and what can be stored. */
  lemma {:induction false} NotesWritten(notes: seq<Member>, clue: Clue, start: int, after: seq<Member>)
    requires Kept(notes) && (clue.Fault? ==> clue.line < TWO_32)
    requires var noted := ClueValue(notes, clue, start);
             after == if noted.None? then notes else Insert(notes, noted.value.0, noted.value.1)
    ensures Kept(after) && forall name | Internal(name) :: Get(after, name) == Get(notes, name)
  {
    hide ClueValue, Insert, Kept, Get;
    var noted := ClueValue(notes, clue, start);
    if noted.Some? {
      var (name, value) := noted.value;
      ClueKept(notes, clue, start);
      InsertKept(notes, name, value);
      forall other { GetInsert(notes, name, value, other); }
    }
  }

  /** A root, a node under it, and `FreeNodeTree` of that node: what is left is no forest. */
  method FreedInside() returns (a: Agent, root: int, kid: int)
    ensures fresh(a) && !a.pool.Valid() && forall ts :: !a.Forest().(trees := ts).Valid()
    ensures a.pool.Storage() && a.Forest().Live(root) && !a.Forest().Live(kid) && a.Forest().Node(root).next == kid
  {
    hide TraceForest.Forest.Valid, NodeCells.Valid, Partition, Tidy, SpansKept, LiveIds;
    a := new Agent(0);
    ghost var f := a.Forest();
    NoneLive(f);
    root := a.StartTrace(E_ROOT_NODE, 0);
    ghost var g := a.Forest();
    OneMoreLive(f, g, root);
    kid := a.StartTrace(root, 0);
    ghost var h := a.Forest();
    RootsLive(g);
    RootIffTree(h, root);
    RootIffTree(h, kid);
    ChainEnd(h, root);
    assert Rest(h, kid) == [kid];
    a.pool.FreeNodeTree(kid);
  }
}
