/** The node pool: cells of nodes that are never moved, a stack of free indices and a flag per index. */
module TracePool {
  import opened Bytes
  import opened Annotations
  import opened TraceForest

  const CELL_SIZE: nat := 128
  const POOL_MAX_NODES_LIMIT: nat := CELL_SIZE * 100
  /** What the pool can hold: it grows by a cell while it is within the limit. */
  const POOL_CAPACITY: nat := POOL_MAX_NODES_LIMIT + CELL_SIZE
  const MAX_RETURN_TRIES: nat := 1000

  const BLANK_NODE: TraceNode :=
    TraceNode(E_INVALID_NODE, E_INVALID_NODE, E_INVALID_NODE, E_INVALID_NODE, 1, -1, 0, 0, -1, false, None, Span([], []))

  /** `nodeIndexVec`: node `index` is in cell `index / CELL_SIZE`. */
  class NodeCells {
    var cells: seq<array<TraceNode>>
    /** The nodes by index. */
    ghost var nodes: seq<TraceNode>
    ghost var Repr: set<object>

    ghost predicate Valid()
      reads this, Repr
    {
      && this in Repr && (forall c <- cells :: c in Repr)
      && (forall c <- cells :: c.Length == CELL_SIZE)
      && (forall i, j | 0 <= i < j < |cells| :: cells[i] != cells[j])
      && |nodes| == CELL_SIZE * |cells|
      && (forall c, k | 0 <= c < |cells| && 0 <= k < CELL_SIZE :: nodes[CELL_SIZE * c + k] == cells[c][k])
    }

    constructor ()
      ensures Valid() && fresh(Repr) && nodes == []
    {
      cells, nodes := [], [];
      Repr := {this};
    }

    method Get(index: nat) returns (n: TraceNode)
      requires Valid() && index < |nodes|
      ensures n == nodes[index]
    {
      n := cells[index / CELL_SIZE][index % CELL_SIZE];
    }

    method Set(index: nat, n: TraceNode)
      requires Valid() && index < |nodes|
      modifies Repr
      ensures Valid() && Repr == old(Repr) && nodes == old(nodes)[index := n]
    {
      cells[index / CELL_SIZE][index % CELL_SIZE] := n;
      nodes := nodes[index := n];
    }

    method AddCell()
      requires Valid()
      modifies Repr
      ensures Valid() && fresh(Repr - old(Repr))
      ensures nodes == old(nodes) + seq(CELL_SIZE, _ => BLANK_NODE)
    {
      var cell := new TraceNode[CELL_SIZE](_ => BLANK_NODE);
      cells := cells + [cell];
      nodes := nodes + seq(CELL_SIZE, _ => BLANK_NODE);
      Repr := Repr + {cell};
    }
  }

  /** Free and used indices partition the pool. */
  ghost predicate Partition(free: seq<nat>, used: seq<bool>) {
    && NoDuplicates(free)
    && (forall i <- free :: i < |used| && !used[i])
    && (forall i | 0 <= i < |used| && !used[i] :: i in free)
  }

  lemma PopPartition(free: seq<nat>, used: seq<bool>)
    requires Partition(free, used) && free != []
    ensures var i := free[|free| - 1];
            i < |used| && !used[i] && Partition(free[..|free| - 1], used[i := true])
  {
    var last, rest := free[|free| - 1], free[..|free| - 1];
    assert last in free;
    var used' := used[last := true];
    assert free == rest + [last];
    forall i | 0 <= i < |used'| && !used'[i] ensures i in rest {
      assert !used[i] && i in free;
    }
  }

  /** The forest of a pool grown by one cell. */
  ghost function Grown(f: Forest): (g: Forest) {
    f.(nodes := f.nodes + seq(CELL_SIZE, _ => BLANK_NODE), used := f.used + seq(CELL_SIZE, _ => false))
  }

  lemma GrownValid(f: Forest)
    requires f.Valid()
    ensures Grown(f).Valid()
  {
    var g := Grown(f);
    forall r <- g.trees ensures g.RootOk(r) {
      assert f.RootOk(r);
    }
    forall r <- g.trees, i | 0 <= i < |g.trees[r]| ensures g.KidOk(r, i) {
      assert f.KidOk(r, i);
    }
    forall id | g.Live(id) ensures g.Placed(id) {
      assert f.Placed(id);
    }
  }

  lemma GrownNodes(f: Forest)
    requires |f.nodes| == |f.used|
    ensures var g := Grown(f);
            && |f.nodes| <= |g.nodes| == |g.used| && g.trees == f.trees
            && (forall x :: g.Live(x) <==> f.Live(x)) && (forall x | f.Live(x) :: g.Node(x) == f.Node(x))
  {
  }

  /** Counts of used nodes stay; the others are cleared or stay. */
  ghost predicate KeepsRefs(used: seq<bool>, was: seq<nat>, now: seq<nat>) {
    && |was| == |used| <= |now|
    && (forall i | 0 <= i < |was| && used[i] :: now[i] == was[i])
    && (forall i | 0 <= i < |now| :: now[i] == 0 || (i < |was| && now[i] == was[i]))
  }

  /** What the looks at a count, from the `i`-th on, come to: the first 0, or what the last one found. */
  function LastSeen(seen: nat -> nat, i: nat): (c: nat)
    requires i < MAX_RETURN_TRIES
    decreases MAX_RETURN_TRIES - i
  {
    if seen(i) == 0 || i == MAX_RETURN_TRIES - 1 then seen(i) else LastSeen(seen, i + 1)
  }

  /** A count of 0 at one of the thousand looks is found, and no other. */
  lemma {:induction false} SeenZeroIff(seen: nat -> nat, i: nat)
    requires i < 1000
    ensures LastSeen(seen, i) == 0 <==> exists k :: i <= k < 1000 && seen(k) == 0
    ensures LastSeen(seen, i) != 0 ==> LastSeen(seen, i) == seen(999)
    decreases 1000 - i
  {
    if seen(i) == 0 || i == 999 {
    } else {
      SeenZeroIff(seen, i + 1);
    }
  }

  lemma {:induction false} AlwaysSeen(seen: nat -> nat, c: nat, i: nat)
    requires i < MAX_RETURN_TRIES && forall k :: seen(k) == c
    ensures LastSeen(seen, i) == c
    decreases MAX_RETURN_TRIES - i
  {
    if seen(i) == 0 || i == MAX_RETURN_TRIES - 1 {
    } else {
      AlwaysSeen(seen, c, i + 1);
    }
  }

  ghost predicate AllZero(refs: seq<nat>) {
    forall i | 0 <= i < |refs| :: refs[i] == 0
  }

  class PoolManager {
    const cells: NodeCells
    var used: seq<bool>
    var free: seq<nat>
    var maxId: nat
    /** `reference_count_` of each node. */
    var refs: seq<nat>
    /** How often a node was given back although it was still referenced. */
    var forcedReturns: nat
    /** The chains, by root. */
    ghost var trees: map<int, seq<int>>

    ghost function Forest(): (f: Forest)
      reads this, cells
    {
      TraceForest.Forest(cells.nodes, used, trees)
    }

    ghost predicate Storage()
      reads this, cells, cells.Repr
    {
      && cells.Valid() && this !in cells.Repr
      && maxId == |used| == |refs| == |cells.nodes| <= POOL_CAPACITY
      && Partition(free, used)
    }

    ghost predicate Valid()
      reads this, cells, cells.Repr
    {
      Storage() && Forest().Valid()
    }

    /** No reference is held. */
    ghost predicate Quiet()
      reads this
    {
      AllZero(refs)
    }

    constructor ()
      ensures Valid() && Quiet() && trees == map[] && maxId == CELL_SIZE && forcedReturns == 0
      ensures fresh(cells) && fresh(cells.Repr)
    {
      cells := new NodeCells();
      used, free, maxId, refs, trees, forcedReturns := [], [], 0, [], map[], 0;
      new;
      ExpandOnce();
    }

    /** Nothing is free and the pool may not grow exactly when it holds as many live nodes as it can. */
    lemma ExhaustedIffFull()
      requires Storage()
      ensures free == [] && maxId > POOL_MAX_NODES_LIMIT <==> |LiveIds(Forest())| == POOL_CAPACITY
    {
      if free == [] {
        AllLive(Forest());
      } else {
        assert free[0] in free;
        SomeDead(Forest(), free[0]);
      }
    }

    lemma AtMostCapacity()
      requires Storage()
      ensures |LiveIds(Forest())| <= POOL_CAPACITY
    {
      LiveAtMost(Forest());
    }

    predicate IndexInUsedVec(index: int)
      requires maxId == |used|
      reads this
    {
      0 <= index < maxId && used[index]
    }

    /** `expandOnce`. */
    method ExpandOnce()
      requires Storage() && free == [] && maxId <= POOL_MAX_NODES_LIMIT
      modifies this`used, this`free, this`maxId, this`refs, cells.Repr
      ensures Storage() && fresh(cells.Repr - old(cells.Repr))
      ensures Forest() == Grown(old(Forest()))
      ensures |free| == CELL_SIZE && forall i | 0 <= i < CELL_SIZE :: free[i] == old(maxId) + i
      ensures maxId == old(maxId) + CELL_SIZE && refs == old(refs) + seq(CELL_SIZE, _ => 0)
    {
      assert forall i | 0 <= i < |used| :: used[i];
      cells.AddCell();
      used := used + seq(CELL_SIZE, _ => false);
      refs := refs + seq(CELL_SIZE, _ => 0);
      for k := 0 to CELL_SIZE
        modifies this`free
        invariant |free| == k && forall i | 0 <= i < k :: free[i] == maxId + i
      {
        free := free + [maxId + k];
      }
      forall i | 0 <= i < |used| && !used[i] ensures i in free {
        assert free[i - maxId] == i;
      }
      maxId := maxId + CELL_SIZE;
    }

    /** The top of the free stack is marked used and its node reset. */
    method TakeFree() returns (id: int)
      requires Storage() && free != []
      modifies this`used, this`free, this`refs, cells.Repr
      ensures Storage() && cells.Repr == old(cells.Repr)
      ensures id == old(free)[|old(free)| - 1] + 1 && free == old(free)[..|old(free)| - 1]
      ensures id <= |used| && !old(Forest()).Live(id)
      ensures used == old(used)[id - 1 := true] && refs == old(refs)[id - 1 := 0]
      ensures cells.nodes == old(cells.nodes)[id - 1 := old(cells.nodes)[id - 1].Reset(id)]
    {
      hide NodeCells.Valid;
      PopPartition(free, used);
      var index := free[|free| - 1];
      free := free[..|free| - 1];
      used := used[index := true];
      var n := cells.Get(index);
      cells.Set(index, n.Reset(index + 1));
      refs := refs[index := 0];
      return index + 1;
    }

    /** `getReadyNode`: fails only when nothing is free and the pool may not grow. */
    method GetReadyNode() returns (ok: bool, id: int)
      requires Storage()
      modifies this`used, this`free, this`maxId, this`refs, cells.Repr
      ensures Storage() && fresh(cells.Repr - old(cells.Repr))
      ensures ok <==> old(free) != [] || old(maxId) <= POOL_MAX_NODES_LIMIT
      ensures !ok ==> Forest() == old(Forest()) && refs == old(refs) && free == old(free)
      ensures ok ==>
                var f := if old(free) == [] then Grown(old(Forest())) else old(Forest());
                && 1 <= id <= |f.used| == |f.nodes| && !f.Live(id)
                && (if old(free) == [] then id == old(maxId) + CELL_SIZE && |free| == CELL_SIZE - 1
                    else [id - 1] == old(free)[|old(free)| - 1..] && free == old(free)[..|old(free)| - 1])
                && used == f.used[id - 1 := true]
                && cells.nodes == f.nodes[id - 1 := f.nodes[id - 1].Reset(id)]
      ensures KeepsRefs(old(used), old(refs), refs)
    {
      hide NodeCells.Valid, Partition;
      if free == [] {
        if maxId > POOL_MAX_NODES_LIMIT {
          return false, E_INVALID_NODE;
        }
        ExpandOnce();
      }
      ok := true;
      id := TakeFree();
    }

    /** `ReferNode`: a live node, or an exception. */
    method ReferNode(id: int) returns (ok: bool)
      requires Storage()
      modifies this`refs
      ensures Storage()
      ensures ok <==> Forest().Live(id)
      ensures refs == if ok then old(refs)[id - 1 := old(refs)[id - 1] + 1] else old(refs)
    {
      ok := IndexInUsedVec(id - 1);
      if ok {
        refs := refs[id - 1 := refs[id - 1] + 1];
      }
    }

    /** The destructor of a reference. */
    method Release(id: int)
      requires Storage() && Forest().Live(id) && refs[id - 1] > 0
      modifies this`refs
      ensures Storage() && refs == old(refs)[id - 1 := old(refs)[id - 1] - 1] && Forest() == old(Forest())
    {
      refs := refs[id - 1 := refs[id - 1] - 1];
    }

    /** `returnNode`: refuses a node that is still referenced, unless forced. */
    method ReturnOnce(id: int, force: bool) returns (done: bool, next: int)
      requires Storage()
      modifies this`used, this`free
      ensures Storage()
      ensures done <==> !old(Forest()).Live(id) || refs[id - 1] == 0 || force
      ensures done && old(Forest()).Live(id) ==>
                used == old(used)[id - 1 := false] && free == old(free) + [id - 1] && next == cells.nodes[id - 1].next
      ensures !done || !old(Forest()).Live(id) ==>
                used == old(used) && free == old(free) && next == E_INVALID_NODE
    {
      next := E_INVALID_NODE;
      if !IndexInUsedVec(id - 1) {
        return true, next;
      }
      if refs[id - 1] != 0 && !force {
        return false, next;
      }
      used := used[id - 1 := false];
      free := free + [id - 1];
      var n := cells.Get(id - 1);
      return true, n.next;
    }

    /** `ReturnNode`, when the looks at the node's count find `seen(0)`, `seen(1)` and so on: the first 0
        lets it go, and a thousand looks without one force it. */
    method ReturnNode(id: int, seen: nat -> nat) returns (next: int)
      requires Storage()
      modifies this`used, this`free, this`refs, this`forcedReturns
      ensures Storage()
      ensures !old(Forest()).Live(id) ==>
                && used == old(used) && free == old(free) && refs == old(refs) && forcedReturns == old(forcedReturns)
                && next == E_INVALID_NODE
      ensures old(Forest()).Live(id) ==>
                && used == old(used)[id - 1 := false] && free == old(free) + [id - 1]
                && next == cells.nodes[id - 1].next && refs == old(refs)[id - 1 := LastSeen(seen, 0)]
                && forcedReturns == old(forcedReturns) + (if LastSeen(seen, 0) != 0 then 1 else 0)
                && (forcedReturns != old(forcedReturns) <==> forall k | 0 <= k < 1000 :: seen(k) != 0)
    {
      hide NodeCells.Valid, Partition;
      SeenZeroIff(seen, 0);
      var done;
      if !IndexInUsedVec(id - 1) {
        done, next := ReturnOnce(id, false);
        return;
      }
      ghost var count := refs[id - 1];
      for i := 0 to MAX_RETURN_TRIES
        invariant Storage() && used == old(used) && free == old(free) && forcedReturns == old(forcedReturns)
        invariant refs == old(refs)[id - 1 := count]
        invariant if i < MAX_RETURN_TRIES then LastSeen(seen, 0) == LastSeen(seen, i) else LastSeen(seen, 0) == count != 0
      {
        refs := refs[id - 1 := seen(i)];
        count := seen(i);
        done, next := ReturnOnce(id, false);
        if done {
          return;
        }
      }
      forcedReturns := forcedReturns + 1;
      done, next := ReturnOnce(id, true);
    }

    /** The node that was last gets a successor; returns when it started. */
    method LinkLast(last: int, x: int) returns (start: int)
      requires Storage() && Forest().Live(last)
      modifies this`refs, cells.Repr
      ensures Storage() && cells.Repr == old(cells.Repr) && refs == old(refs)
      ensures cells.nodes == old(cells.nodes)[last - 1 := old(cells.nodes)[last - 1].(next := x)]
      ensures start == old(cells.nodes)[last - 1].startTime
    {
      hide NodeCells.Valid, Partition;
      var _ := ReferNode(last);
      var lastNode := cells.Get(last - 1);
      cells.Set(last - 1, lastNode.(next := x));
      Release(last);
      start := lastNode.startTime;
    }

    /** `AppendToRootTrace`: link the fresh node `x` behind the chain of `r`; a node that has a root already
        is left alone. `f` is the forest without `x`, `kid` the node. */
    method AppendToRootTrace(r: int, x: int, ghost f: Forest, ghost kid: TraceNode)
      requires Storage() && 1 <= x <= |cells.nodes| && cells.nodes[x - 1] == kid
      requires kid.rootId == E_INVALID_NODE ==> Detached(f, r, x, kid)
      modifies this`refs, this`trees, cells.Repr
      ensures Storage() && cells.Repr == old(cells.Repr) && refs == old(refs)
      ensures kid.rootId != E_INVALID_NODE ==> Forest() == old(Forest())
      ensures kid.rootId == E_INVALID_NODE ==>
                && f.Valid() && r in f.trees && 1 <= x <= |f.used| && f.Live(f.Before(r, |f.trees[r]|))
                && Forest() == Append(f, r, x, kid.(rootId := r, sequence := |f.trees[r]|,
                                                    preTime := f.Node(f.Before(r, |f.trees[r]|)).startTime))
    {
      hide TraceForest.Forest.Valid, NodeCells.Valid, Partition, Append;
      var node := cells.Get(x - 1);
      if node.rootId != E_INVALID_NODE {
        return;
      }
      ChainEnd(f, r);
      var root := cells.Get(r - 1);
      node := node.(rootId := r);
      var last := root.extra.value.last;
      if last != E_INVALID_NODE {
        var start := LinkLast(last, x);
        node := node.(preTime := start);
      } else {
        node := node.(preTime := root.startTime);
      }
      node := node.(sequence := root.extra.value.sequence);
      root := root.(extra := Some(root.extra.value.(last := x, sequence := root.extra.value.sequence + 1)));
      if root.next == E_INVALID_NODE {
        root := root.(next := x);
      }
      cells.Set(x - 1, node);
      cells.Set(r - 1, root);
      trees := trees[r := trees[r] + [x]];
      AppendedNodes(f, r, x, kid, node);
    }

    /** The pool holds `f` and, in no tree yet, the node `x`. */
    ghost predicate Detached(f: Forest, r: int, x: int, kid: TraceNode)
      reads this, cells
    {
      && f.Valid() && 1 <= x <= |f.used| && !f.Live(x) && r in trees && kid.id == x
      && used == f.used[x - 1 := true] && cells.nodes == f.nodes[x - 1 := kid] && trees == f.trees
    }

    /** `FreeNodeTree`: for a root exactly its tree is given back, for a dead id nothing. A node inside a
        chain would take the rest of the chain with it and leave a broken tree. */
    method FreeNodeTree(id: int)
      requires Valid()
      modifies this`used, this`free, this`refs, this`forcedReturns, this`trees
      ensures refs == old(refs) && Storage() && (Quiet() ==> forcedReturns == old(forcedReturns))
      ensures Valid() <==> !old(Forest()).Live(id) || id in old(trees)
      ensures !old(Forest()).Live(id) ==> Forest() == old(Forest()) && free == old(free)
      ensures old(Forest()).Live(id) ==> |free| == old(|free|) + |Rest(old(Forest()), id)|
      ensures id in old(trees) ==> Forest() == Fell(old(Forest()), id)
      ensures old(Forest()).Live(id) && id !in old(trees) ==>
                && trees == old(trees) && |used| == old(|used|)
                && (forall i | 0 <= i < |used| :: used[i] == (old(used)[i] && i + 1 !in Rest(old(Forest()), id)))
                && forall ts :: !Forest().(trees := ts).Valid()
    {
      hide TraceForest.Forest.Valid, NodeCells.Valid, Partition, Rest, Fell;
      ghost var f := Forest();
      RootsLive(f);
      if id == E_INVALID_NODE || id == E_ROOT_NODE {
        return;
      }
      FreeRest(id);
      if id in f.trees {
        FellValid(f, id);
        FellIsRest(f, id, used);
        trees := trees - {id};
      } else if f.Live(id) {
        forall ts ensures !Forest().(trees := ts).Valid() {
          BrokenTree(f, used, id, ts);
        }
        assert Forest().(trees := trees) == Forest();
      }
    }

    /** `ReturnNode` with nobody else running: the count stays what it is. */
    method ReturnAlone(id: int) returns (next: int)
      requires Storage()
      modifies this`used, this`free, this`refs, this`forcedReturns
      ensures Storage() && refs == old(refs)
      ensures !old(Forest()).Live(id) ==>
                used == old(used) && free == old(free) && forcedReturns == old(forcedReturns) && next == E_INVALID_NODE
      ensures old(Forest()).Live(id) ==>
                && used == old(used)[id - 1 := false] && free == old(free) + [id - 1] && next == cells.nodes[id - 1].next
                && forcedReturns == old(forcedReturns) + if refs[id - 1] != 0 then 1 else 0
    {
      hide NodeCells.Valid, Partition;
      var count := if IndexInUsedVec(id - 1) then refs[id - 1] else 0;
      AlwaysSeen(_ => count, count, 0);
      next := ReturnNode(id, _ => count);
    }

    /** The loop of `FreeNodeTree`. */
    method FreeRest(id: int)
      requires Valid()
      modifies this`used, this`free, this`refs, this`forcedReturns
      ensures refs == old(refs) && Storage() && (Quiet() ==> forcedReturns == old(forcedReturns))
      ensures !old(Forest()).Live(id) ==> Forest() == old(Forest()) && free == old(free)
      ensures old(Forest()).Live(id) ==>
                && |free| == old(|free|) + |Rest(old(Forest()), id)| && |used| == old(|used|)
                && forall i | 0 <= i < |used| :: used[i] == (old(used)[i] && i + 1 !in Rest(old(Forest()), id))
    {
      hide TraceForest.Forest.Valid, NodeCells.Valid, Partition, Rest;
      ghost var f := Forest();
      ghost var c, j := [], 0;
      if f.Live(id) {
        c, j := Rest(f, id), 1;
        RestLinks(f, id, 0);
        assert c[..1] == [id];
      }
      var next := ReturnAlone(id);
      while next != E_INVALID_NODE
        invariant Storage() && trees == f.trees && refs == old(refs)
        invariant |used| == |f.used| && 0 <= j <= |c| && (j == 0 ==> c == [])
        invariant next == (if j < |c| then c[j] else E_INVALID_NODE)
        invariant forall i | 0 <= i < |used| :: used[i] == (f.used[i] && i + 1 !in c[..j])
        invariant |free| == old(|free|) + j && (c == [] ==> free == old(free))
        invariant Quiet() ==> forcedReturns == old(forcedReturns)
        decreases |c| - j
      {
        RestLinks(f, id, j);
        next := ReturnAlone(next);
        assert c[..j + 1] == c[..j] + [c[j]];
        j := j + 1;
      }
      if j < |c| {
        RestLinks(f, id, j);
      }
      assert c[..j] == c;
      assert c == [] ==> used == f.used;
    }

    /** One turn of the encoder's loop; returns the id of the next node. Appending to an annotation that is no
        list throws. */
    method EncodeOne(r: int, id: int, now: int) returns (ok: bool, next: int)
      requires Storage() && Forest().Live(r) && Forest().Live(id) && id != r
      modifies this`refs, cells.Repr
      ensures Storage() && cells.Repr == old(cells.Repr) && refs == old(refs)
      ensures ok == !Jammed(old(cells.nodes)[r - 1].value.notes) && next == old(cells.nodes)[id - 1].next
      ensures var node := old(cells.nodes)[id - 1];
              cells.nodes[id - 1] == if node.expiredTime == -1 then node.End(now) else node
      ensures var kid := Closed(old(cells.nodes)[id - 1], now);
              var root := old(cells.nodes)[r - 1];
              var nodes := old(cells.nodes)[id - 1 := kid];
              var more := root.(value := root.value.(events := root.value.events + [kid.value.notes]));
              cells.nodes == if ok then nodes[r - 1 := more] else nodes
    {
      hide NodeCells.Valid, Partition, TraceNode.End, Get;
      var _ := ReferNode(id);
      var node := cells.Get(id - 1);
      next := node.next;
      if node.expiredTime == -1 {
        node := node.End(now);
      }
      assert node == Closed(old(cells.nodes)[id - 1], now);
      hide Closed;
      cells.Set(id - 1, node);
      var root := cells.Get(r - 1);
      ok := !Jammed(root.value.notes);
      if ok {
        cells.Set(r - 1, root.(value := root.value.(events := root.value.events + [node.value.notes])));
      }
      Release(id);
    }

    /** `EncodeTraceToJsonSpan`. */
    method EncodeTraceToJsonSpan(r: int, clock: nat -> int) returns (ok: bool, span: Span)
      requires Valid() && Forest().Live(r)
      modifies this`refs, cells.Repr
      ensures Valid() && cells.Repr == old(cells.Repr) && refs == old(refs)
      ensures r !in trees ==> ok && cells.nodes == old(cells.nodes) && span == cells.nodes[r - 1].value
      ensures r in trees ==> ok == !(trees[r] != [] && Jammed(old(cells.nodes)[r - 1].value.notes))
      ensures r in trees && ok ==>
                && cells.nodes == EncodeUpTo(old(Forest()), r, |trees[r]|, clock)
                && span == cells.nodes[r - 1].value
      ensures r in trees && !ok ==> Forest() == JamAt(old(Forest()), r, clock)
    {
      hide TraceForest.Forest.Valid, NodeCells.Valid, Partition, EncodeUpTo, EncodedNode, Jammed, Closed, JamAt;
      hide TraceNode.End;
      ghost var f := Forest();
      RootIffTree(f, r);
      var root := cells.Get(r - 1);
      if !root.IsRoot() {
        return true, root.value;
      }
      ChainEnd(f, r);
      EncodeNone(f, r, clock);
      var next, place := root.next, 0;
      ghost var j := 0;
      ghost var kids := f.trees[r];
      while next != E_INVALID_NODE
        invariant Storage() && cells.Repr == old(cells.Repr) && refs == old(refs)
        invariant 0 <= j == place <= |kids| && next == (if j < |kids| then kids[j] else E_INVALID_NODE)
        invariant cells.nodes == EncodeUpTo(f, r, j, clock) && (j > 0 ==> !Jammed(root.value.notes))
        decreases |kids| - j
      {
        EncodeStep(f, r, j, clock);
        ChainLinks(f, r, j + 1);
        ok, next := EncodeOne(r, next, clock(place));
        if !ok {
          JamValid(f, r, clock);
          return false, root.value;
        }
        place := place + 1;
        j := j + 1;
      }
      if j < |kids| {
        ChainLinks(f, r, j + 1);
      }
      EncodeKeepsLinks(f, r, |kids|, clock);
      root := cells.Get(r - 1);
      return true, root.value;
    }

    /** `NoNodesLeak`: the free count equals the total count exactly when no trace is open. */
    method NoNodesLeak() returns (ok: bool)
      requires Valid()
      ensures ok <==> trees.Keys == {}
    {
      FreeCount(free, used);
      EmptyIffUnused(Forest());
      ok := |free| == |cells.cells| * CELL_SIZE;
    }
  }

  ghost function Below(n: nat): (r: set<nat>)
    ensures forall i: nat :: i in r <==> i < n
    ensures |r| == n
  {
    if n == 0 then {} else Below(n - 1) + {n - 1}
  }

  /** All indices are free exactly when their number says so. */
  lemma FreeCount(free: seq<nat>, used: seq<bool>)
    requires Partition(free, used)
    ensures |free| == |used| <==> forall i | 0 <= i < |used| :: !used[i]
  {
    DistinctCount(free);
    var all, some := Below(|used|), Elements(free);
    if i :| 0 <= i < |used| && used[i] {
      SubsetSize(some + {i}, all);
    } else {
      assert some == all;
    }
  }
}
