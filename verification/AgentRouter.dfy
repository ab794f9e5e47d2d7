/** `AgentRouter` as interleaved steps: look-up under the read lock, creation under the write lock
    after a second look, clean-up and stop that take agents out under the lock and stop them outside. */
module AgentRouter {
  import opened Bytes

  type Tid = nat

  /** An agent; `birth` tells it from every other, as its address does. */
  datatype Agent = Agent(appid: string, ping: int, birth: nat)

  /** What a `DispatchPacket` call holds between its critical sections. */
  datatype Call = Missed(appid: string) | Holding(appid: string, agent: Agent)

  datatype State = State(
    agents: map<string, Agent>,   // AgentMap
    pingId: int,                  // an `int32`
    births: nat,                  // agents created so far
    calls: map<Tid, Call>,
    pending: map<Agent, Tid>,     // taken out of the map, to be stopped by that thread
    stopped: set<Agent>,
    started: set<Agent>)

  const INIT_STATE: State := State(map[], 1, 0, map[], map[], {}, {})

  datatype Step =
    | Lookup(t: Tid, appid: string)
    | Create(t: Tid)
    | Send(t: Tid)
    | Clean(t: Tid, expired: set<string>)  // `Clean`; `Stop` is the case that expires everything
    | StopOne(t: Tid, agent: Agent)

  predicate Enabled(s: State, step: Step) {
    match step
    case Lookup(t, appid) => t !in s.calls
    case Create(t) => t in s.calls && s.calls[t].Missed?
    case Send(t) => t in s.calls && s.calls[t].Holding?
    case Clean(t, expired) => expired <= s.agents.Keys
    case StopOne(t, agent) => agent in s.pending && s.pending[agent] == t
  }

  ghost function Do(s: State, step: Step): (r: State)
    requires Enabled(s, step)
  {
    match step
    case Lookup(t, appid) =>
      s.(calls := s.calls[t := if appid in s.agents then Holding(appid, s.agents[appid]) else Missed(appid)])
    case Create(t) =>
      var appid := s.calls[t].appid;
      if appid in s.agents then s.(calls := s.calls[t := Holding(appid, s.agents[appid])])
      else
        var agent := Agent(appid, s.pingId, s.births);
        s.(agents := s.agents[appid := agent], pingId := AsInt32(Wrap32(s.pingId + 1)), births := s.births + 1,
           calls := s.calls[t := Holding(appid, agent)], started := s.started + {agent})
    case Send(t) => s.(calls := s.calls - {t})
    case Clean(t, expired) =>
      var taken := set id <- expired :: s.agents[id];
      s.(agents := s.agents - expired, pending := s.pending + (map a | a in taken :: t))
    case StopOne(t, agent) => s.(pending := s.pending - {agent}, stopped := s.stopped + {agent})
  }

  /** Every started agent is in exactly one place, its ping id is the counter's value at its birth, and a
      call holds an agent of the application it is for. */
  ghost predicate Inv(s: State) {
    Numbered(s) && Located(s) && Called(s)
  }

  ghost predicate Numbered(s: State) {
    && s.pingId == Nth(s.births)
    && (forall a <- s.started :: a.birth < s.births && a.ping == Nth(a.birth))
    && (forall a <- s.started, b <- s.started | a.birth == b.birth :: a == b)
  }

  ghost predicate Located(s: State) {
    && (forall id <- s.agents :: s.agents[id].appid == id && s.agents[id] in s.started)
    && (forall a <- s.pending :: a in s.started) && s.stopped <= s.started
    && (forall a <- s.started :: InMap(s, a) || a in s.pending || a in s.stopped)
    && (forall a <- s.pending :: !InMap(s, a) && a !in s.stopped)
    && (forall a <- s.stopped :: !InMap(s, a))
  }

  ghost predicate Called(s: State) {
    forall t <- s.calls | s.calls[t].Holding? ::
      s.calls[t].agent in s.started && s.calls[t].agent.appid == s.calls[t].appid
  }

  ghost predicate InMap(s: State, a: Agent) {
    a.appid in s.agents && s.agents[a.appid] == a
  }

  lemma InvCreate(s: State, t: Tid)
    requires Inv(s) && Enabled(s, Create(t)) && s.calls[t].appid !in s.agents
    ensures Inv(Do(s, Create(t)))
  {
    hide Located, Nth, Wrap32, AsInt32;
    var r, agent := Do(s, Create(t)), Agent(s.calls[t].appid, s.pingId, s.births);
    NthNext(s.births);
    assert agent !in s.started;
    assert Numbered(r) && Called(r);
    LocatedCreate(s, t);
  }

  lemma LocatedCreate(s: State, t: Tid)
    requires Located(s) && Enabled(s, Create(t)) && s.calls[t].appid !in s.agents
    requires Agent(s.calls[t].appid, s.pingId, s.births) !in s.started
    ensures Located(Do(s, Create(t)))
  {
    hide Wrap32, AsInt32;
    var r, agent := Do(s, Create(t)), Agent(s.calls[t].appid, s.pingId, s.births);
    forall a | a != agent ensures InMap(r, a) <==> InMap(s, a) {
    }
  }

  lemma InvClean(s: State, t: Tid, expired: set<string>)
    requires Inv(s) && Enabled(s, Clean(t, expired))
    ensures Inv(Do(s, Clean(t, expired)))
  {
    var r := Do(s, Clean(t, expired));
    forall a ensures InMap(r, a) <==> InMap(s, a) && a.appid !in expired {
    }
    forall a ensures a in r.pending <==> a in s.pending || (InMap(s, a) && a.appid in expired) {
    }
  }

  lemma InvStopOne(s: State, t: Tid, agent: Agent)
    requires Inv(s) && Enabled(s, StopOne(t, agent))
    ensures Inv(Do(s, StopOne(t, agent)))
  {
    assert forall a :: InMap(Do(s, StopOne(t, agent)), a) <==> InMap(s, a);
  }

  lemma InvStep(s: State, step: Step)
    requires Inv(s) && Enabled(s, step)
    ensures Inv(Do(s, step))
  {
    match step
    case Create(t) =>
      if s.calls[t].appid !in s.agents {
        InvCreate(s, t);
      } else {
        assert forall a :: InMap(Do(s, step), a) <==> InMap(s, a);
      }
    case Clean(t, expired) => InvClean(s, t, expired);
    case StopOne(t, agent) => InvStopOne(s, t, agent);
    case _ => assert forall a :: InMap(Do(s, step), a) <==> InMap(s, a);
  }

  /** A dispatch with nobody in between gets hold of the running agent of its application, the one there is or a
      new one with the next ping id, and sending changes nothing but that the call is over. */
  lemma DispatchHolds(s: State, t: Tid, appid: string)
    requires Inv(s) && t !in s.calls
    ensures var looked := Do(s, Lookup(t, appid));
            && t in looked.calls && looked == s.(calls := looked.calls)
            && (looked.calls[t].Missed? <==> appid !in s.agents)
            && var r := if looked.calls[t].Missed? then Do(looked, Create(t)) else looked;
            && t in r.calls && r.calls[t].Holding? && appid in r.agents && r.calls[t].agent == r.agents[appid]
            && r.agents == s.agents[appid := r.agents[appid]] && r.pending == s.pending && r.stopped == s.stopped
            && (if appid in s.agents then r.agents == s.agents && r.started == s.started && r.births == s.births
                else r.started == s.started + {r.agents[appid]} && r.births == s.births + 1
                     && r.agents[appid] == Agent(appid, Nth(s.births), s.births))
            && Do(r, Send(t)) == r.(calls := s.calls)
  {
    hide Nth;
    var looked := Do(s, Lookup(t, appid));
    var r := if looked.calls[t].Missed? then Do(looked, Create(t)) else looked;
    assert r.calls - {t} == s.calls;
    assert appid in s.agents ==> s.agents[appid := s.agents[appid]] == s.agents;
  }

  /** A clean takes exactly the agents of the expired applications out of the map, to be stopped by the thread that
      took them; stopping one stops that one. */
  lemma CleanTakes(s: State, t: Tid, expired: set<string>, id: string)
    requires Inv(s) && expired <= s.agents.Keys
    ensures var r := Do(s, Clean(t, expired));
            && r.agents.Keys == s.agents.Keys - expired && (forall k <- r.agents :: r.agents[k] == s.agents[k])
            && r.pending.Keys == s.pending.Keys + (set k <- expired :: s.agents[k])
            && (forall a <- s.pending :: r.pending[a] == s.pending[a])
            && r == s.(agents := r.agents, pending := r.pending)
            && (id in expired ==>
                  && Enabled(r, StopOne(t, s.agents[id]))
                  && var q := Do(r, StopOne(t, s.agents[id]));
                     q.stopped == s.stopped + {s.agents[id]} && q.pending.Keys == r.pending.Keys - {s.agents[id]}
                     && q == r.(stopped := q.stopped, pending := q.pending))
  {
    forall a <- s.pending ensures forall k <- expired :: s.agents[k] != a {
      assert forall k <- expired :: k in s.agents && InMap(s, s.agents[k]);
    }
  }

  ghost predicate Schedule(states: seq<State>, steps: seq<Step>) {
    && |states| == |steps| + 1 && states[0] == INIT_STATE
    && forall k | 0 <= k < |steps| :: Enabled(states[k], steps[k]) && states[k + 1] == Do(states[k], steps[k])
  }

  /** Under any interleaving of dispatch, clean and stop. */
  lemma {:induction false} InvAlways(states: seq<State>, steps: seq<Step>, k: nat)
    requires Schedule(states, steps) && k <= |steps|
    ensures Inv(states[k])
    decreases k
  {
    if k == 0 {
    } else {
      InvAlways(states, steps, k - 1);
      InvStep(states[k - 1], steps[k - 1]);
    }
  }

  /** No agent is stopped twice: once stopped it is never to be stopped again. */
  lemma {:induction false} StoppedOnce(states: seq<State>, steps: seq<Step>, i: nat, j: nat)
    requires Schedule(states, steps) && i < j < |steps| && steps[i].StopOne? && steps[j].StopOne?
    ensures steps[i].agent != steps[j].agent
  {
    StoppedStays(states, steps, i + 1, j, steps[i].agent);
    InvAlways(states, steps, j);
  }

  lemma {:induction false} StoppedStays(states: seq<State>, steps: seq<Step>, i: nat, j: nat, a: Agent)
    requires Schedule(states, steps) && i <= j <= |steps| && a in states[i].stopped
    ensures a in states[j].stopped
    decreases j
  {
    if i == j {
    } else {
      StoppedStays(states, steps, i, j - 1, a);
      assert states[j] == Do(states[j - 1], steps[j - 1]);
    }
  }

  /** A call's agent is running exactly as long as the map still has it. */
  lemma HeldRunsIffMapped(s: State, t: Tid)
    requires Inv(s) && t in s.calls && s.calls[t].Holding?
    ensures var a := s.calls[t].agent;
            (a !in s.pending && a !in s.stopped) <==> (s.calls[t].appid in s.agents && s.agents[s.calls[t].appid] == a)
  {
    assert InMap(s, s.calls[t].agent) || s.calls[t].agent in s.pending || s.calls[t].agent in s.stopped;
  }

  /** The window between look-up and send is real: an idle agent can be cleaned and stopped in it. */
  lemma StaleHolder() returns (states: seq<State>, steps: seq<Step>)
    ensures Schedule(states, steps)
    ensures var s := states[|steps|]; 0 in s.calls && s.calls[0].Holding? && s.calls[0].agent in s.stopped
  {
    var a := Agent("a", 1, 0);
    steps := [Lookup(0, "a"), Create(0), Clean(1, {"a"}), StopOne(1, a)];
    var s1 := Do(INIT_STATE, steps[0]);
    var s2 := Do(s1, steps[1]);
    var s3 := Do(s2, steps[2]);
    assert s2.agents["a"] == a && a in s3.pending;
    states := [INIT_STATE, s1, s2, s3, Do(s3, steps[3])];
  }

  /** Agents share a ping id exactly when the counter went round between them, so not among the first 2^32. */
  lemma PingIdsRepeat(s: State, a: Agent, b: Agent)
    requires Inv(s) && a in s.started && b in s.started
    ensures a.ping == b.ping <==> (a.birth - b.birth) % TWO_32 == 0
    ensures s.births <= TWO_32 && a.ping == b.ping ==> a == b
  {
    hide Nth;
    NthRepeats(a.birth, b.birth);
  }

  /** Never two running agents for one application. */
  lemma OnePerApplication(s: State, a: Agent, b: Agent)
    requires Inv(s) && a in s.started && b in s.started && a.appid == b.appid
    requires a !in s.pending && a !in s.stopped && b !in s.pending && b !in s.stopped
    ensures a == b
  {
    assert InMap(s, a) && InMap(s, b);
  }

  /** Two callers that both missed an application share one agent, unless it was cleaned in between. */
  lemma SecondLookFinds(s: State, t: Tid, u: Tid)
    requires Inv(s) && t != u && Enabled(s, Create(t)) && Enabled(s, Create(u)) && s.calls[t] == s.calls[u]
    ensures var r := Do(s, Create(t));
            var q := Do(r, Create(u));
            q.calls[u] == q.calls[t] && q.started == r.started && q.pingId == r.pingId
  {
  }
}
