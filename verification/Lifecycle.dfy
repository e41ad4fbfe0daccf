/**
 * Runs of the registry through the lifecycle operations: register, update trust, delegate and
 * cascade. A lone `deactivate_agent` is not among them; what it may break is stated at the end.
 */
module Lifecycle {
  import opened Common
  import opened Delegation
  import opened Registry

  datatype Reg = Reg(agents: Agents, links: seq<Link>)

  datatype Op =
    | Register(agent: Agent)
    | SetTrust(id: AgentId, level: TrustLevel)
    | Delegate(from: AgentId, to: AgentId, scope: seq<string>, now: int, expiresAt: Option<int>)
    | Cascade(id: AgentId)

  const EMPTY := Reg(map[], [])

  /** What the methods of `InMemoryRegistry` are proved to do. */
  ghost function Next(r: Reg, op: Op): Reg {
    match op
    case Register(agent) => r.(agents := r.agents[agent.id := agent])
    case SetTrust(id, level) =>
      if Unavailable(r.agents, id).Some? then r
      else r.(agents := r.agents[id := r.agents[id].(trustLevel := level)])
    case Delegate(from, to, scope, now, expiresAt) =>
      if Refusal(r.agents, r.links, from, to, scope).Some? then r
      else r.(links := r.links + [Link(from, to, scope, now, expiresAt)])
    case Cascade(id) =>
      if Unavailable(r.agents, id).Some? then r
      else r.(agents := SwitchOff(r.agents, ActiveReach(r.agents, r.links, id)))
  }

  /** A registered agent is new and active. */
  ghost predicate Enabled(r: Reg, op: Op) {
    op.Register? ==> op.agent.id !in r.agents && op.agent.active
  }

  ghost predicate IsRun(rs: seq<Reg>, ops: seq<Op>) {
    && |rs| == |ops| + 1
    && rs[0] == EMPTY
    && forall i {:trigger ops[i]} :: 0 <= i < |ops| ==> Enabled(rs[i], ops[i]) && rs[i + 1] == Next(rs[i], ops[i])
  }

  /** A link joins two agents of one owner and hands on capabilities its source holds. */
  ghost predicate LinkSound(agents: Agents, l: Link) {
    && l.from in agents && l.to in agents
    && agents[l.from].owner == agents[l.to].owner
    && l.scope != []
    && forall i :: 0 <= i < |l.scope| ==> l.scope[i] in agents[l.from].capabilities
  }

  ghost predicate LinksSound(r: Reg) {
    forall k :: 0 <= k < |r.links| ==> LinkSound(r.agents, r.links[k])
  }

  ghost predicate Inv(r: Reg) {
    && (forall a :: a in r.agents ==> r.agents[a].id == a)
    && LinksSound(r)
    && Acyclic(r.links)
    && Upright(r.agents, r.links)
  }

  lemma LinkedAppend(links: seq<Link>, l: Link, x: AgentId, y: AgentId)
    ensures Linked(links + [l], x, y) <==> Linked(links, x, y) || (l.from == x && l.to == y)
  {
    if Linked(links, x, y) {
      var k :| 0 <= k < |links| && links[k].from == x && links[k].to == y;
      assert (links + [l])[k] == links[k];
    }
    if l.from == x && l.to == y {
      assert (links + [l])[|links|] == l;
    }
  }

  /** Linked agents are registered. */
  lemma LinkedRegistered(r: Reg, x: AgentId, y: AgentId)
    requires LinksSound(r) && Linked(r.links, x, y)
    ensures x in r.agents && y in r.agents
  {
    var k :| 0 <= k < |r.links| && r.links[k].from == x && r.links[k].to == y;
    assert LinkSound(r.agents, r.links[k]);
  }

  lemma DelegateKeepsInv(r: Reg, op: Op)
    requires Inv(r) && op.Delegate? && Refusal(r.agents, r.links, op.from, op.to, op.scope).None?
    ensures Inv(Next(r, op))
  {
    var l := Link(op.from, op.to, op.scope, op.now, op.expiresAt);
    GrowthKeepsAcyclic(r.links, l);
    forall x, y | Linked(r.links + [l], x, y) && IsActive(r.agents, y)
      ensures IsActive(r.agents, x)
    {
      LinkedAppend(r.links, l, x, y);
    }
  }

  /** After a cascade nobody below a deactivated agent is active. */
  lemma CascadeKeepsUpright(r: Reg, id: AgentId)
    requires Inv(r) && Unavailable(r.agents, id).None?
    ensures Upright(SwitchOff(r.agents, ActiveReach(r.agents, r.links, id)), r.links)
  {
    var off := ActiveReach(r.agents, r.links, id);
    var after := SwitchOff(r.agents, off);
    forall x, y | Linked(r.links, x, y) && IsActive(after, y)
      ensures IsActive(after, x)
    {
      LinkedRegistered(r, x, y);
      assert IsActive(r.agents, y) && y !in off;
      if x in off {
        ReachesOneFurther(r.agents, r.links, id, x, y);
      }
    }
  }

  /** Sound links and the forest survive any change to agents other than owner and capabilities. */
  lemma LinksStaySound(r: Reg, agents: Agents)
    requires LinksSound(r) && r.agents.Keys <= agents.Keys
    requires forall a :: a in r.agents ==>
                           agents[a].owner == r.agents[a].owner && agents[a].capabilities == r.agents[a].capabilities
    ensures LinksSound(r.(agents := agents))
  {
    forall k | 0 <= k < |r.links|
      ensures LinkSound(agents, r.links[k])
    {
      assert LinkSound(r.agents, r.links[k]);
    }
  }

  lemma StepKeepsInv(r: Reg, op: Op)
    requires Inv(r) && Enabled(r, op)
    ensures Inv(Next(r, op))
  {
    match op
    case Register(agent) =>
      LinksStaySound(r, Next(r, op).agents);
      NewAgentUnlinked(r, agent);
    case SetTrust(id, level) =>
      if Unavailable(r.agents, id).None? {
        LinksStaySound(r, Next(r, op).agents);
      }
    case Delegate(from, to, scope, now, expiresAt) =>
      if Refusal(r.agents, r.links, from, to, scope).None? {
        DelegateKeepsInv(r, op);
      }
    case Cascade(id) =>
      if Unavailable(r.agents, id).None? {
        LinksStaySound(r, Next(r, op).agents);
        CascadeKeepsUpright(r, id);
      }
  }

  lemma NewAgentUnlinked(r: Reg, agent: Agent)
    requires Inv(r) && agent.id !in r.agents
    ensures Upright(r.agents[agent.id := agent], r.links)
  {
    forall x, y | Linked(r.links, x, y)
      ensures x in r.agents && y in r.agents
    {
      LinkedRegistered(r, x, y);
    }
  }

  /**
   * In every reachable state links are sound, the first-parent forest is acyclic and no active
   * agent is linked below an inactive one.
   */
  lemma {:induction false} RunKeepsInv(rs: seq<Reg>, ops: seq<Op>, i: nat)
    requires IsRun(rs, ops) && i < |rs|
    ensures Inv(rs[i])
  {
    if i == 0 {
      forall a: AgentId, k: nat | k > 0
        ensures Ancestor([], a, k) != Some(a)
      {
        assert Parent([], a).None?;
      }
    } else {
      RunKeepsInv(rs, ops, i - 1);
      StepKeepsInv(rs[i - 1], ops[i - 1]);
    }
  }

  /** In every reachable state no delegation path leads from an inactive agent to an active one. */
  lemma NoActiveBelowInactive(rs: seq<Reg>, ops: seq<Op>, i: nat, x: AgentId, y: AgentId)
    requires IsRun(rs, ops) && i < |rs| && Reaches(rs[i].links, x, y) && IsActive(rs[i].agents, y)
    ensures IsActive(rs[i].agents, x)
  {
    RunKeepsInv(rs, ops, i);
    UprightIffPaths(rs[i].agents, rs[i].links);
  }

  /**
   * In every reachable state a cascade takes down all agents below `id`, along whatever links: it
   * switches off exactly the active ones, and afterwards none is active.
   */
  lemma CascadeCoversReachable(rs: seq<Reg>, ops: seq<Op>, i: nat, id: AgentId, y: AgentId)
    requires IsRun(rs, ops) && i < |rs| && Unavailable(rs[i].agents, id).None?
    ensures y in ActiveReach(rs[i].agents, rs[i].links, id) <==> Reaches(rs[i].links, id, y) && IsActive(rs[i].agents, y)
    ensures Reaches(rs[i].links, id, y) ==> !IsActive(Next(rs[i], Cascade(id)).agents, y)
  {
    RunKeepsInv(rs, ops, i);
    UprightReach(rs[i].agents, rs[i].links, id, y);
  }

  /** Every delegator on the chain of an active agent is active. */
  lemma {:induction false} ChainActive(agents: Agents, links: seq<Link>, a: AgentId, chain: seq<Link>)
    requires Upright(agents, links) && IsActive(agents, a) && IsChainOf(links, a, chain)
    ensures FirstInactive(agents, chain).None?
    ensures forall i :: 0 <= i < |chain| ==> IsActive(agents, chain[i].from)
    decreases |chain|
  {
    if chain != [] {
      var last := |chain| - 1;
      var l := chain[last];
      ChainPrefix(links, a, chain);
      LinkOf(links, l);
      ChainActive(agents, links, l.from, chain[..last]);
      assert chain == chain[..last] + [l];
      FirstInactiveAppend(agents, chain[..last], l);
    }
  }

  lemma LinkOf(links: seq<Link>, l: Link)
    requires l in links
    ensures Linked(links, l.from, l.to)
  {
    var k :| 0 <= k < |links| && links[k] == l;
  }

  lemma {:induction false} FirstInactiveAppend(agents: Agents, chain: seq<Link>, l: Link)
    requires FirstInactive(agents, chain).None? && IsActive(agents, l.from)
    ensures FirstInactive(agents, chain + [l]).None?
  {
    if chain != [] {
      assert (chain + [l])[1..] == chain[1..] + [l];
      FirstInactiveAppend(agents, chain[1..], l);
    }
  }

  /** In every reachable state verifying an active agent's chain can only fail on an expired link. */
  lemma VerifyNeverMeetsInactive(rs: seq<Reg>, ops: seq<Op>, i: nat, a: AgentId, chain: seq<Link>, now: int)
    requires IsRun(rs, ops) && i < |rs| && IsActive(rs[i].agents, a) && IsChainOf(rs[i].links, a, chain)
    ensures Verdict(rs[i].agents, chain, now) == Ok(chain) || Verdict(rs[i].agents, chain, now).error.ChainExpired?
  {
    RunKeepsInv(rs, ops, i);
    ChainActive(rs[i].agents, rs[i].links, a, chain);
  }

  /** In every reachable state verifying an active agent succeeds exactly when no link of its chain has passed its expiry. */
  lemma VerifySucceedsIff(rs: seq<Reg>, ops: seq<Op>, i: nat, a: AgentId, chain: seq<Link>, now: int)
    requires IsRun(rs, ops) && i < |rs| && IsActive(rs[i].agents, a) && IsChainOf(rs[i].links, a, chain)
    ensures Verdict(rs[i].agents, chain, now) == Ok(chain) <==>
            forall k :: 0 <= k < |chain| ==> chain[k].expiresAt == None || now <= chain[k].expiresAt.value
  {
    RunKeepsInv(rs, ops, i);
    ChainActive(rs[i].agents, rs[i].links, a, chain);
    VerdictVerifies(rs[i].agents, chain, now);
    if forall k :: 0 <= k < |chain| ==> chain[k].expiresAt == None || now <= chain[k].expiresAt.value {
      assert forall k :: 0 <= k < |chain| ==> Unexpired(chain[k], now) && Standing(rs[i].agents, chain[k]);
    } else {
      var k :| 0 <= k < |chain| && !(chain[k].expiresAt == None || now <= chain[k].expiresAt.value);
      assert !Unexpired(chain[k], now);
    }
  }

  /** In every reachable state the chain that the walk returns meets no agent twice and starts at a root. */
  lemma ChainInEveryState(rs: seq<Reg>, ops: seq<Op>, i: nat, a: AgentId, chain: seq<Link>)
    requires IsRun(rs, ops) && i < |rs| && IsChainOf(rs[i].links, a, chain)
    ensures forall j :: 0 <= j < |chain| ==> chain[j].from != a
    ensures forall j, k :: 0 <= j < k < |chain| ==> chain[j].from != chain[k].from
    ensures chain != [] ==> FirstInto(rs[i].links, chain[0].from).None?
  {
    RunKeepsInv(rs, ops, i);
    ChainDistinct(rs[i].links, a, chain);
  }

  /** In every reachable state the chain of an agent has one owner and hands on held capabilities only. */
  lemma {:induction false} ChainOwners(r: Reg, a: AgentId, chain: seq<Link>, i: nat)
    requires Inv(r) && IsChainOf(r.links, a, chain) && i < |chain|
    ensures a in r.agents && chain[i].from in r.agents
    ensures r.agents[chain[i].from].owner == r.agents[a].owner
    ensures LinkSound(r.agents, chain[i])
    decreases |chain|
  {
    var last := |chain| - 1;
    var k :| 0 <= k < |r.links| && r.links[k] == chain[last];
    assert LinkSound(r.agents, r.links[k]);
    ChainPrefix(r.links, a, chain);
    if i < last {
      ChainOwners(r, chain[last].from, chain[..last], i);
    }
  }

  // ---------------------------------------------------------------------------
  // What does not hold
  // ---------------------------------------------------------------------------

  /** A lone deactivation leaves the registry upright exactly when nothing active hangs below the agent. */
  lemma LoneDeactivationIff(r: Reg, id: AgentId)
    requires Inv(r) && Unavailable(r.agents, id).None?
    ensures Upright(r.agents[id := r.agents[id].(active := false)], r.links) <==>
            forall y :: Linked(r.links, id, y) && y != id ==> !IsActive(r.agents, y)
  {
    var after := r.agents[id := r.agents[id].(active := false)];
    if Upright(after, r.links) {
      forall y | Linked(r.links, id, y) && y != id
        ensures !IsActive(r.agents, y)
      {
        assert !IsActive(after, id);
      }
    }
  }

  /** A root has no ancestor but itself. */
  lemma Root(links: seq<Link>, a: AgentId, b: AgentId)
    requires FirstInto(links, a).None? && a != b
    ensures !IsAncestor(links, a, b)
    ensures Ancestor(links, a, 1).None? && Ancestor(links, a, MAX_CHAIN_DEPTH).None?
  {
    AncestorStep(links, a, 0);
    NoneAbove(links, a, 1, MAX_CHAIN_DEPTH);
    forall k: nat
      ensures Ancestor(links, a, k) != Some(b)
    {
      if k > 0 {
        NoneAbove(links, a, 1, k);
      }
    }
  }

  /** Two agents with one accepted link between them, and a lone deactivation of the upper one. */
  lemma LoneDeactivationBreaks(a: Agent, b: Agent) returns (rs: seq<Reg>, ops: seq<Op>)
    requires a.id == 1 && b.id == 2 && a.active && b.active && a.owner == b.owner && "read" in a.capabilities
    ensures IsRun(rs, ops)
    ensures var r := rs[|rs| - 1];
            && Unavailable(r.agents, 1).None?
            && Linked(r.links, 1, 2) && IsActive(r.agents, 2)
            && !Upright(r.agents[1 := r.agents[1].(active := false)], r.links)
  {
    ops := [Register(a), Register(b), Delegate(1, 2, ["read"], 0, None)];
    var one := Next(EMPTY, ops[0]);
    var two := Next(one, ops[1]);
    Root([], 1, 2);
    assert FirstUnheld(a.capabilities, ["read"]).None?;
    assert Refusal(two.agents, [], 1, 2, ["read"]).None?;
    var three := Next(two, ops[2]);
    rs := [EMPTY, one, two, three];
    assert three.links[0] == Link(1, 2, ["read"], 0, None);
    var after := three.agents[1 := three.agents[1].(active := false)];
    assert Linked(three.links, 1, 2) && IsActive(after, 2) && !IsActive(after, 1);
  }
}
