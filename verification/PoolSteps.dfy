/** `ThreadSafePoolManager` as interleaved steps: the mutex, the free stack, the used flags and the
    reference counts that wrappers raise and drop, the dropping without the mutex. */
module PoolSteps {
  import opened Bytes
  import opened TracePool

  type Tid = nat
  type Handle = nat

  /** What a thread inside the mutex is about to do. */
  datatype Op =
    | Refer(index: nat)      // `ReferNode`: look at the flag
    | Referring(index: nat)  // the flag was set: construct the wrapper
    | Get                    // `GetNode`: take the top of the stack
    | Resetting(index: nat)  // the node was taken: `Reset` clears its count
    | Return(index: nat)     // `returnNode`, unforced: look at flag and count
    | Freeing(index: nat)    // the count was 0: give the node back
    | ForceReturn(index: nat) // `returnNode`, forced: look at the flag only

  datatype State = State(
    used: seq<bool>, free: seq<nat>, refs: seq<int>,
    wrappers: map<Handle, nat>,
    inside: Option<(Tid, Op)>)

  datatype Step =
    | Lock(t: Tid, op: Op)
    | Work(h: Handle)             // the thread inside goes on; a new wrapper is named `h`
    | Move(h: Handle, h': Handle) // the move constructor: a second wrapper of the same node
    | Drop(h: Handle)             // a wrapper is destroyed, without the mutex

  function InitState(): (s: State) {
    State(seq(CELL_SIZE, _ => false), seq(CELL_SIZE, i requires 0 <= i => i), seq(CELL_SIZE, _ => 0), map[], None)
  }

  predicate Enabled(s: State, step: Step) {
    match step
    case Lock(t, op) => s.inside.None? && (op.Refer? || op.Get? || op.Return? || op.ForceReturn?)
    case Work(h) => s.inside.Some? && h !in s.wrappers
    case Move(h, h') => h in s.wrappers && h' !in s.wrappers && s.wrappers[h] < |s.refs|
    case Drop(h) => h in s.wrappers && s.wrappers[h] < |s.refs|
  }

  /** The pool with one more cell when nothing is free and it may grow. */
  function Expanded(s: State): (r: State) {
    if s.free != [] || |s.used| > POOL_MAX_NODES_LIMIT then s
    else
      var n := |s.used|;
      s.(used := s.used + seq(CELL_SIZE, _ => false), refs := s.refs + seq(CELL_SIZE, _ => 0),
         free := seq(CELL_SIZE, i requires 0 <= i => n + i))
  }

  /** One turn of the thread inside; it leaves the mutex when its call is over. */
  function DoWork(s: State, h: Handle): (r: State)
    requires s.inside.Some?
  {
    var (t, op) := s.inside.value;
    var out := s.(inside := None);
    match op
    case Refer(i) => if i < |s.used| && s.used[i] then s.(inside := Some((t, Referring(i)))) else out
    case Referring(i) =>
      if i < |s.refs| then out.(refs := s.refs[i := s.refs[i] + 1], wrappers := s.wrappers[h := i]) else out
    case Get =>
      var e := Expanded(s);
      if e.free == [] || e.free[|e.free| - 1] >= |e.used| then out
      else
        var i := e.free[|e.free| - 1];
        e.(free := e.free[..|e.free| - 1], used := e.used[i := true], inside := Some((t, Resetting(i))))
    case Resetting(i) => if i < |s.refs| then out.(refs := s.refs[i := 0]) else out
    case Return(i) =>
      if i < |s.used| == |s.refs| && s.used[i] && s.refs[i] == 0 then s.(inside := Some((t, Freeing(i)))) else out
    case Freeing(i) => if i < |s.used| then GiveBack(out, i) else out
    case ForceReturn(i) => if i < |s.used| && s.used[i] then GiveBack(out, i) else out
  }

  function GiveBack(s: State, i: nat): (r: State)
    requires i < |s.used|
  {
    s.(used := s.used[i := false], free := s.free + [i])
  }

  function Do(s: State, step: Step): (r: State)
    requires Enabled(s, step)
  {
    match step
    case Lock(t, op) => s.(inside := Some((t, op)))
    case Work(h) => DoWork(s, h)
    case Move(h, h') =>
      var i := s.wrappers[h];
      s.(refs := s.refs[i := s.refs[i] + 1], wrappers := s.wrappers[h' := i])
    case Drop(h) =>
      var i := s.wrappers[h];
      s.(refs := s.refs[i := s.refs[i] - 1], wrappers := s.wrappers - {h})
  }

  /** Live wrappers of a node. */
  ghost function Holders(wrappers: map<Handle, nat>, i: nat): (hs: set<Handle>) {
    set h <- wrappers | wrappers[h] == i
  }

  /** Counts are the live wrappers, and only nodes in use have any. */
  ghost predicate Counted(s: State) {
    && |s.refs| == |s.used|
    && (forall i | 0 <= i < |s.refs| :: s.refs[i] == |Holders(s.wrappers, i)|)
    && (forall h <- s.wrappers :: s.wrappers[h] < |s.used| && s.used[s.wrappers[h]])
  }

  ghost predicate InsideOk(s: State) {
    s.inside.Some? ==>
      match s.inside.value.1
      case Referring(i) => i < |s.used| && s.used[i]
      case Resetting(i) => i < |s.used| && s.used[i] && Holders(s.wrappers, i) == {}
      case Freeing(i) => i < |s.used| && s.used[i] && Holders(s.wrappers, i) == {}
      case _ => true
  }

  ghost predicate Inv(s: State) {
    Partition(s.free, s.used) && Counted(s) && InsideOk(s)
  }

  lemma InvInit()
    ensures Inv(InitState())
  {
    var s := InitState();
    forall i | 0 <= i < |s.refs| ensures s.refs[i] == |Holders(s.wrappers, i)| {
      assert Holders(s.wrappers, i) == {};
    }
    forall i | 0 <= i < |s.used| ensures i in s.free {
      assert s.free[i] == i;
    }
  }

  lemma HoldersPlus(wrappers: map<Handle, nat>, h: Handle, i: nat, j: nat)
    requires h !in wrappers
    ensures Holders(wrappers[h := i], j) == Holders(wrappers, j) + (if i == j then {h} else {})
    ensures h !in Holders(wrappers, j)
  {
  }

  lemma HoldersMinus(wrappers: map<Handle, nat>, h: Handle, j: nat)
    requires h in wrappers
    ensures Holders(wrappers - {h}, j) == Holders(wrappers, j) - {h}
    ensures h in Holders(wrappers, j) <==> wrappers[h] == j
  {
  }

  lemma InvWrap(s: State, h: Handle, i: nat)
    requires Inv(s) && h !in s.wrappers && i < |s.used| && s.used[i]
    requires s.inside.Some? && (s.inside.value.1.Freeing? || s.inside.value.1.Resetting?) ==> s.inside.value.1.index != i
    ensures Inv(s.(refs := s.refs[i := s.refs[i] + 1], wrappers := s.wrappers[h := i]))
  {
    var r := s.(refs := s.refs[i := s.refs[i] + 1], wrappers := s.wrappers[h := i]);
    forall j | 0 <= j < |r.refs| ensures r.refs[j] == |Holders(r.wrappers, j)| {
      HoldersPlus(s.wrappers, h, i, j);
    }
    if s.inside.Some? && (s.inside.value.1.Freeing? || s.inside.value.1.Resetting?) {
      HoldersPlus(s.wrappers, h, i, s.inside.value.1.index);
    }
  }

  lemma InvDrop(s: State, h: Handle)
    requires Inv(s) && h in s.wrappers
    ensures Inv(Do(s, Drop(h)))
  {
    var r := Do(s, Drop(h));
    forall j | 0 <= j < |r.refs| ensures r.refs[j] == |Holders(r.wrappers, j)| {
      HoldersMinus(s.wrappers, h, j);
    }
    if s.inside.Some? && (s.inside.value.1.Freeing? || s.inside.value.1.Resetting?) {
      HoldersMinus(s.wrappers, h, s.inside.value.1.index);
    }
  }

  /** The step is no forced return of a node that somebody holds. */
  ghost predicate Harmless(s: State, step: Step) {
    step.Work? && s.inside.Some? && s.inside.value.1.ForceReturn? ==>
      var i := s.inside.value.1.index;
      i < |s.used| == |s.refs| && s.used[i] ==> s.refs[i] == 0
  }

  /** The thread inside the mutex, whatever the others have done meanwhile. */
  lemma InvWork(s: State, h: Handle)
    requires Inv(s) && Enabled(s, Work(h))
    ensures Inv(DoWork(s, h)) <==> Harmless(s, Work(h))
  {
    var (t, op) := s.inside.value;
    match op
    case Refer(i) =>
    case Referring(i) =>
      InvWrap(s.(inside := None), h, i);
    case Get =>
      InvGet(s, h);
    case Resetting(i) =>
    case Return(i) =>
    case Freeing(i) =>
      hide Partition;
      GiveBackExact(s.(inside := None), i);
    case ForceReturn(i) =>
      hide Partition;
      if i < |s.used| && s.used[i] {
        GiveBackExact(s.(inside := None), i);
      }
  }

  lemma InvGet(s: State, h: Handle)
    requires Inv(s) && s.inside.Some? && s.inside.value.1.Get?
    ensures Inv(DoWork(s, h))
  {
    InvExpanded(s);
    var e := Expanded(s);
    hide Expanded;
    if e.free != [] {
      PopPartition(e.free, e.used);
      hide Partition;
      assert Inv(DoWork(s, h));
    }
  }

  lemma InvExpanded(s: State)
    requires Inv(s)
    ensures Inv(Expanded(s))
    ensures forall i | 0 <= i < |Expanded(s).used| && !Expanded(s).used[i] :: Holders(s.wrappers, i) == {}
  {
    var e := Expanded(s);
    assert s.free == [] ==> forall i | 0 <= i < |s.used| :: s.used[i];
    forall j | 0 <= j < |e.refs| ensures e.refs[j] == |Holders(e.wrappers, j)| {
      if j >= |s.refs| {
        assert Holders(e.wrappers, j) == {};
      }
    }
    forall i | 0 <= i < |e.used| && !e.used[i] ensures i in e.free {
      if e != s {
        assert e.free[i - |s.used|] == i;
      }
    }
    forall i | 0 <= i < |e.used| && !e.used[i] ensures Holders(s.wrappers, i) == {} {
      assert forall h <- s.wrappers :: s.wrappers[h] != i;
    }
  }

  lemma PushPartition(free: seq<nat>, used: seq<bool>, i: nat)
    requires Partition(free, used) && i < |used| && used[i]
    ensures Partition(free + [i], used[i := false])
  {
    assert i !in free;
    var used' := used[i := false];
    forall j | 0 <= j < |used'| && !used'[j] ensures j in free + [i] {
      assert j != i ==> !used[j];
    }
  }

  /** Giving a used node back, forced or not, keeps the invariant exactly when nobody holds it. */
  lemma GiveBackExact(s: State, i: nat)
    requires Inv(s) && s.inside.None? && i < |s.used| && s.used[i]
    ensures Inv(GiveBack(s, i)) <==> s.refs[i] == 0
  {
    PushPartition(s.free, s.used, i);
    if s.refs[i] == 0 {
      forall h <- s.wrappers ensures s.wrappers[h] != i {
        assert s.wrappers[h] == i ==> h in Holders(s.wrappers, i);
      }
    } else {
      var h :| h in Holders(s.wrappers, i);
      assert h in GiveBack(s, i).wrappers;
    }
  }

  /** After a forced return of a held node, the next `GetNode` hands the same node out again and
      clears the count of its live wrapper. */
  lemma ForcedReturnLosesCount(s: State, i: nat, t: Tid, h: Handle, h': Handle)
    requires Inv(s) && s.inside.None? && h in s.wrappers && s.wrappers[h] == i && h' !in s.wrappers
    ensures i < |s.used| && s.used[i]
    ensures var taken := DoWork(GiveBack(s, i).(inside := Some((t, Get))), h');
            var reset := DoWork(taken, h');
            && taken.inside == Some((t, Resetting(i))) && taken.wrappers == s.wrappers
            && i < |reset.refs| == |reset.used| && reset.used[i]
            && h in reset.wrappers && reset.wrappers[h] == i && reset.refs[i] == 0
  {
    var g := GiveBack(s, i);
    assert g.free[|g.free| - 1] == i;
  }

  /** A node is handed out only when nobody uses it, and `Reset` finds a count of 0. */
  lemma HandedOutOnce(s: State, h: Handle)
    requires Inv(s) && Enabled(s, Work(h))
    ensures var r := DoWork(s, h);
            r.inside.Some? && r.inside.value.1.Resetting? ==>
              var i := r.inside.value.1.index;
              (i < |s.used| ==> !s.used[i]) && i < |r.refs| && r.refs[i] == 0
    ensures var op := s.inside.value.1;
            op.Resetting? ==> op.index < |s.refs| && s.refs[op.index] == 0
  {
    if s.inside.value.1.Get? {
      InvExpanded(s);
      var e := Expanded(s);
      if e.free != [] {
        PopPartition(e.free, e.used);
      }
    }
  }

  /** A step keeps the invariant exactly when it is harmless. */
  lemma InvStep(s: State, step: Step)
    requires Inv(s) && Enabled(s, step)
    ensures Inv(Do(s, step)) <==> Harmless(s, step)
  {
    match step
    case Lock(t, op) =>
    case Work(h) => InvWork(s, h);
    case Move(h, h') =>
      assert h in Holders(s.wrappers, s.wrappers[h]);
      InvWrap(s, h', s.wrappers[h]);
    case Drop(h) => InvDrop(s, h);
  }

  /** `ReferNode` with nobody in between: a wrapper of a node in use and its count, or nothing. */
  lemma ReferAlone(s: State, t: Tid, i: nat, h: Handle)
    requires Inv(s) && s.inside.None? && h !in s.wrappers
    ensures var looked := Do(Do(s, Lock(t, Refer(i))), Work(h));
            if i < |s.used| && s.used[i]
            then looked.inside.Some? && looked.wrappers == s.wrappers && Do(looked, Work(h)) ==
                   s.(refs := s.refs[i := s.refs[i] + 1], wrappers := s.wrappers[h := i])
            else looked == s
  {
  }

  /** `returnNode`, unforced: a node in use without wrappers goes on the free stack, or nothing happens. */
  lemma ReturnAlone(s: State, t: Tid, i: nat, h: Handle)
    requires Inv(s) && s.inside.None? && h !in s.wrappers
    ensures var looked := Do(Do(s, Lock(t, Return(i))), Work(h));
            if i < |s.used| && s.used[i] && Holders(s.wrappers, i) == {}
            then looked.inside.Some? && looked.wrappers == s.wrappers
                 && Do(looked, Work(h)) == s.(used := s.used[i := false], free := s.free + [i])
            else looked == s
  {
  }

  /** Forced: any node in use does. */
  lemma ForceReturnAlone(s: State, t: Tid, i: nat, h: Handle)
    requires s.inside.None? && h !in s.wrappers
    ensures Do(Do(s, Lock(t, ForceReturn(i))), Work(h)) ==
            if i < |s.used| && s.used[i] then s.(used := s.used[i := false], free := s.free + [i]) else s
  {
  }

  /** `GetNode`: some node that nobody uses, from the free stack or from a new cell of 128; none exactly when all
      are in use and there are more than 12800. */
  lemma GetAlone(s: State, t: Tid, h: Handle)
    requires Inv(s) && s.inside.None? && h !in s.wrappers
    ensures var full, n := forall i | 0 <= i < |s.used| :: s.used[i], |s.used|;
            var taken := Do(Do(s, Lock(t, Get)), Work(h));
            if full && n > 12800 then taken == s
            else
              && taken.inside.Some? && taken.wrappers == s.wrappers && taken.inside.value.1.Resetting?
              && var i, done := taken.inside.value.1.index, Do(taken, Work(h));
              && done.inside.None? && done.wrappers == s.wrappers
              && |done.used| == |done.refs| == (if full then n + 128 else n) && i < |done.used|
              && done.used[i] && done.refs[i] == 0 && (i < n ==> !s.used[i])
              && (forall j | 0 <= j < n && j != i :: done.used[j] == s.used[j] && done.refs[j] == s.refs[j])
              && (forall j | n <= j < |done.used| && j != i :: !done.used[j])
  {
    var locked := Do(s, Lock(t, Get));
    InvExpanded(locked);
    var e := Expanded(locked);
    assert s.free == [] <==> forall i | 0 <= i < |s.used| :: s.used[i] by {
      if s.free != [] {
        assert s.free[0] in s.free;
      }
    }
    if e.free != [] {
      PopPartition(e.free, e.used);
    }
  }

  /** A wrapper that is moved leaves two of the same node, and one that is destroyed none; nothing else changes
      but the counts, which follow. */
  lemma MovedOrDropped(s: State, h: Handle, h': Handle)
    requires Inv(s) && h in s.wrappers && h' !in s.wrappers
    ensures var moved, i := Do(s, Move(h, h')), s.wrappers[h];
            && moved.wrappers == s.wrappers[h' := i]
            && moved == s.(wrappers := moved.wrappers, refs := s.refs[i := |Holders(s.wrappers, i)| + 1])
            && Do(moved, Drop(h')) == s
    ensures var dropped, i := Do(s, Drop(h)), s.wrappers[h];
            && dropped.wrappers == s.wrappers - {h}
            && dropped == s.(wrappers := dropped.wrappers, refs := s.refs[i := |Holders(s.wrappers, i)| - 1])
  {
    var moved := Do(s, Move(h, h'));
    assert moved.wrappers - {h'} == s.wrappers;
  }

  /** The states a schedule passes through. */
  ghost predicate Schedule(states: seq<State>, steps: seq<Step>) {
    && |states| == |steps| + 1 && states[0] == InitState()
    && forall k | 0 <= k < |steps| :: Enabled(states[k], steps[k]) && states[k + 1] == Do(states[k], steps[k])
  }

  /** In every interleaving without a forced return of a held node, counts equal live wrappers, referenced
      nodes are in use, and free and used indices partition the pool. */
  lemma {:induction false} InvAlways(states: seq<State>, steps: seq<Step>, k: nat)
    requires Schedule(states, steps) && k <= |steps| && forall j | 0 <= j < k :: Harmless(states[j], steps[j])
    ensures Inv(states[k])
    decreases k
  {
    if k == 0 {
      InvInit();
    } else {
      InvAlways(states, steps, k - 1);
      InvStep(states[k - 1], steps[k - 1]);
    }
  }

  lemma Extend(states: seq<State>, steps: seq<Step>, step: Step) returns (states': seq<State>, steps': seq<Step>)
    requires Schedule(states, steps) && Enabled(states[|steps|], step)
    ensures Schedule(states', steps') && |steps'| == |steps| + 1
    ensures states'[|steps'|] == Do(states[|steps|], step)
  {
    hide Enabled, Do;
    states', steps' := states + [Do(states[|steps|], step)], steps + [step];
  }

  /** A node that one thread has been handed and refers to. */
  ghost predicate Held(s: State, i: nat, h: Handle) {
    s.inside.None? && h in s.wrappers && s.wrappers[h] == i && s.wrappers.Keys == {h}
  }

  lemma HeldReached() returns (states: seq<State>, steps: seq<Step>)
    ensures Schedule(states, steps) && Held(states[|steps|], 127, 0)
    ensures forall k | 0 <= k < |steps| :: Harmless(states[k], steps[k])
  {
    hide Expanded;
    var s0 := InitState();
    var s1 := Do(s0, Lock(0, Get));
    StillRoom(s1);
    assert s1.free[127] == 127;
    var s2 := Do(s1, Work(0));
    assert s2.inside == Some((0, Resetting(127)));
    var s3 := Do(s2, Work(0));
    var s4 := Do(s3, Lock(0, Refer(127)));
    var s5 := Do(s4, Work(0));
    assert s5.inside == Some((0, Referring(127)));
    states := [s0, s1, s2, s3, s4, s5, Do(s5, Work(0))];
    steps := [Lock(0, Get), Work(0), Work(0), Lock(0, Refer(127)), Work(0), Work(0)];
  }

  /** A forced return of a held node does happen: from such a state another thread forces the node back,
      and the next `GetNode` clears the count of the wrapper that is still alive. */
  lemma ForcedReturnReached() returns (states: seq<State>, steps: seq<Step>)
    ensures Schedule(states, steps) && |steps| > 0
    ensures var s := states[|steps|];
            && 0 in s.wrappers && s.wrappers[0] == 127 < |s.refs| == |s.used|
            && s.used[127] && s.refs[127] == 0 && !Inv(s)
  {
    hide DoWork, Inv;
    states, steps := HeldReached();
    InvAlways(states, steps, |steps|);
    var s := states[|steps|];
    ForcedReturnLosesCount(s, 127, 1, 0, 1);
    states, steps := Extend(states, steps, Lock(1, ForceReturn(127)));
    ForcedBack(states[|steps|], 1, 127, 1);
    states, steps := Extend(states, steps, Work(1));
    assert states[|steps|] == GiveBack(s, 127);
    states, steps := Extend(states, steps, Lock(1, Get));
    states, steps := Extend(states, steps, Work(1));
    states, steps := Extend(states, steps, Work(1));
    LostCount(states[|steps|], 0, 127);
  }

  lemma ForcedBack(s: State, t: Tid, i: nat, h: Handle)
    requires s.inside == Some((t, ForceReturn(i))) && i < |s.used| && s.used[i]
    ensures DoWork(s, h) == GiveBack(s.(inside := None), i)
  {
  }

  lemma StillRoom(s: State)
    requires s.free != []
    ensures Expanded(s) == s
  {
  }

  lemma LostCount(s: State, h: Handle, i: nat)
    requires h in s.wrappers && s.wrappers[h] == i < |s.refs| && s.refs[i] == 0
    ensures !Inv(s)
  {
    assert h in Holders(s.wrappers, i);
  }
}
