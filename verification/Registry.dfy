/** The in-memory agent registry (arbiter-identity/src/registry.rs). */
module Registry {
  import opened Common
  import opened Delegation

  const MAX_CHAIN_DEPTH := 10

  datatype IdentityError =
    | AgentNotFound(id: AgentId)
    | AgentDeactivated(id: AgentId)
    | DelegationSourceNotFound(id: AgentId)
    | DelegationTargetNotFound(id: AgentId)
    | ScopeNarrowingViolation(scope: string)
    | ChainExpired(from: AgentId, to: AgentId)
    | DelegateFromDeactivated(id: AgentId)
    | CircularDelegation(from: AgentId, to: AgentId)
    | CrossOwnerDelegation(from: AgentId, to: AgentId, fromOwner: string, toOwner: string)
    | InternalError(message: string)

  const TOO_DEEP := InternalError("delegation chain depth would exceed maximum of 10")
  const EMPTY_SCOPE := InternalError("scope_narrowing must not be empty; specify at least one scope")

  // ---------------------------------------------------------------------------
  // What the operations do
  // ---------------------------------------------------------------------------

  function FirstUnheld(capabilities: seq<string>, scope: seq<string>): (r: Option<string>)
    ensures r.None? <==> forall i :: 0 <= i < |scope| ==> scope[i] in capabilities
  {
    if scope == [] then None
    else if scope[0] !in capabilities then Some(scope[0])
    else FirstUnheld(capabilities, scope[1..])
  }

  /** Why `create_delegation` refuses a link, with its checks in the order the code makes them. */
  ghost function Refusal(agents: Agents, links: seq<Link>, from: AgentId, to: AgentId, scope: seq<string>)
    : Option<IdentityError>
  {
    if from == to then Some(CircularDelegation(from, to))
    else if from !in agents then Some(DelegationSourceNotFound(from))
    else if !agents[from].active then Some(DelegateFromDeactivated(from))
    else if to !in agents then Some(DelegationTargetNotFound(to))
    else if agents[from].owner != agents[to].owner then
      Some(CrossOwnerDelegation(from, to, agents[from].owner, agents[to].owner))
    else if Ancestor(links, from, MAX_CHAIN_DEPTH).Some? then Some(TOO_DEEP)
    else if scope == [] then Some(EMPTY_SCOPE)
    else if FirstUnheld(agents[from].capabilities, scope).Some? then
      Some(ScopeNarrowingViolation(FirstUnheld(agents[from].capabilities, scope).value))
    else if IsAncestor(links, from, to) then Some(CircularDelegation(from, to))
    else None
  }

  /** Why an operation on one active agent refuses it. */
  function Unavailable(agents: Agents, id: AgentId): Option<IdentityError> {
    if id !in agents then Some(AgentNotFound(id))
    else if !agents[id].active then Some(AgentDeactivated(id))
    else None
  }

  function SwitchOff(agents: Agents, ids: set<AgentId>): Agents {
    map a | a in agents :: if a in ids then agents[a].(active := false) else agents[a]
  }

  function FirstExpired(chain: seq<Link>, now: int): Option<Link> {
    if chain == [] then None
    else if chain[0].IsExpired(now) then Some(chain[0])
    else FirstExpired(chain[1..], now)
  }

  function FirstInactive(agents: Agents, chain: seq<Link>): Option<AgentId> {
    if chain == [] then None
    else if chain[0].from in agents && !agents[chain[0].from].active then Some(chain[0].from)
    else FirstInactive(agents, chain[1..])
  }

  /** `verify_chain` on the chain it walked. */
  function Verdict(agents: Agents, chain: seq<Link>, now: int): Result<seq<Link>, IdentityError> {
    if FirstExpired(chain, now).Some? then
      Err(ChainExpired(FirstExpired(chain, now).value.from, FirstExpired(chain, now).value.to))
    else if FirstInactive(agents, chain).Some? then Err(AgentDeactivated(FirstInactive(agents, chain).value))
    else Ok(chain)
  }

  // ---------------------------------------------------------------------------
  // Verification and refusal, in fields
  // ---------------------------------------------------------------------------

  /** The link has not passed its expiry. */
  predicate Unexpired(l: Link, now: int) {
    l.expiresAt == None || now <= l.expiresAt.value
  }

  /** The link's delegator is active, or not registered. */
  predicate Standing(agents: Agents, l: Link) {
    l.from in agents ==> agents[l.from].active
  }

  /** `k` is the first place of the chain with an expired link. */
  ghost predicate ExpiresAt(chain: seq<Link>, now: int, k: nat) {
    k < |chain| && !Unexpired(chain[k], now) && forall j :: 0 <= j < k ==> Unexpired(chain[j], now)
  }

  /** `k` is the first place of the chain with an inactive delegator. */
  ghost predicate FallsAt(agents: Agents, chain: seq<Link>, k: nat) {
    k < |chain| && !Standing(agents, chain[k]) && forall j :: 0 <= j < k ==> Standing(agents, chain[j])
  }

  /**
   * What verifying a chain must answer: the chain if no link has passed its expiry and no delegator is
   * inactive, else the first expired link, else the first inactive delegator.
   */
  ghost predicate Verifies(agents: Agents, chain: seq<Link>, now: int, r: Result<seq<Link>, IdentityError>) {
    && (r.Ok? <==> forall k :: 0 <= k < |chain| ==> Unexpired(chain[k], now) && Standing(agents, chain[k]))
    && (r.Ok? ==> r.value == chain)
    && (r.Err? && (exists k :: 0 <= k < |chain| && !Unexpired(chain[k], now)) ==>
          exists k: nat :: ExpiresAt(chain, now, k) && r.error == ChainExpired(chain[k].from, chain[k].to))
    && (r.Err? && (forall k :: 0 <= k < |chain| ==> Unexpired(chain[k], now)) ==>
          exists k: nat :: FallsAt(agents, chain, k) && r.error == AgentDeactivated(chain[k].from))
  }

  lemma {:induction false} FirstExpiredIs(chain: seq<Link>, now: int)
    ensures FirstExpired(chain, now) == None <==> forall k :: 0 <= k < |chain| ==> Unexpired(chain[k], now)
    ensures FirstExpired(chain, now) != None ==>
              exists k: nat :: ExpiresAt(chain, now, k) && FirstExpired(chain, now) == Some(chain[k])
  {
    if chain != [] {
      FirstExpiredIs(chain[1..], now);
      if !Unexpired(chain[0], now) {
        assert ExpiresAt(chain, now, 0);
      } else if FirstExpired(chain[1..], now) != None {
        var k: nat :| ExpiresAt(chain[1..], now, k) && FirstExpired(chain[1..], now) == Some(chain[1..][k]);
        forall j | 0 <= j < k + 1
          ensures Unexpired(chain[j], now)
        {
          assert j > 0 ==> chain[j] == chain[1..][j - 1];
        }
        assert ExpiresAt(chain, now, k + 1);
      }
    }
  }

  lemma {:induction false} FirstInactiveIs(agents: Agents, chain: seq<Link>)
    ensures FirstInactive(agents, chain) == None <==> forall k :: 0 <= k < |chain| ==> Standing(agents, chain[k])
    ensures FirstInactive(agents, chain) != None ==>
              exists k: nat :: FallsAt(agents, chain, k) && FirstInactive(agents, chain) == Some(chain[k].from)
  {
    if chain != [] {
      FirstInactiveIs(agents, chain[1..]);
      if !Standing(agents, chain[0]) {
        assert FallsAt(agents, chain, 0);
      } else if FirstInactive(agents, chain[1..]) != None {
        var k: nat :| && FallsAt(agents, chain[1..], k)
                      && FirstInactive(agents, chain[1..]) == Some(chain[1..][k].from);
        forall j | 0 <= j < k + 1
          ensures Standing(agents, chain[j])
        {
          assert j > 0 ==> chain[j] == chain[1..][j - 1];
        }
        assert FallsAt(agents, chain, k + 1);
      }
    }
  }

  lemma VerdictVerifies(agents: Agents, chain: seq<Link>, now: int)
    ensures Verifies(agents, chain, now, Verdict(agents, chain, now))
  {
    FirstExpiredIs(chain, now);
    FirstInactiveIs(agents, chain);
  }

  /** A delegation is accepted exactly when every one of these holds, with nine links above its source at most. */
  lemma DelegationAcceptedIff(agents: Agents, links: seq<Link>, from: AgentId, to: AgentId, scope: seq<string>)
    ensures Refusal(agents, links, from, to, scope) == None <==>
            && from != to && from in agents && agents[from].active && to in agents
            && agents[from].owner == agents[to].owner
            && Ancestor(links, from, 10) == None
            && |scope| > 0 && (forall i :: 0 <= i < |scope| ==> scope[i] in agents[from].capabilities)
            && !IsAncestor(links, from, to)
  {
  }

  /** A refusal names the first of these that fails. */
  lemma DelegationRefusedBy(agents: Agents, links: seq<Link>, from: AgentId, to: AgentId, scope: seq<string>)
    ensures var e := Refusal(agents, links, from, to, scope);
            if from == to then e == Some(CircularDelegation(from, to))
            else if from !in agents then e == Some(DelegationSourceNotFound(from))
            else if !agents[from].active then e == Some(DelegateFromDeactivated(from))
            else if to !in agents then e == Some(DelegationTargetNotFound(to))
            else if agents[from].owner != agents[to].owner then
              e == Some(CrossOwnerDelegation(from, to, agents[from].owner, agents[to].owner))
            else if Ancestor(links, from, 10) != None then e == Some(InternalError("delegation chain depth would exceed maximum of 10"))
            else if scope == [] then e == Some(InternalError("scope_narrowing must not be empty; specify at least one scope"))
            else if exists i :: 0 <= i < |scope| && scope[i] !in agents[from].capabilities then
              exists k :: && 0 <= k < |scope| && scope[k] !in agents[from].capabilities
                          && (forall j :: 0 <= j < k ==> scope[j] in agents[from].capabilities)
                          && e == Some(ScopeNarrowingViolation(scope[k]))
            else if exists k: nat :: Ancestor(links, from, k) == Some(to) then e == Some(CircularDelegation(from, to))
            else e == None
  {
    if from in agents {
      FirstUnheldIs(agents[from].capabilities, scope);
    }
  }

  lemma {:induction false} FirstUnheldIs(capabilities: seq<string>, scope: seq<string>)
    ensures FirstUnheld(capabilities, scope) != None ==>
              exists k :: && 0 <= k < |scope| && scope[k] !in capabilities && (forall j :: 0 <= j < k ==> scope[j] in capabilities)
                          && FirstUnheld(capabilities, scope) == Some(scope[k])
  {
    if scope != [] && scope[0] in capabilities {
      FirstUnheldIs(capabilities, scope[1..]);
      if FirstUnheld(capabilities, scope[1..]) != None {
        var rest := scope[1..];
        var k :| && 0 <= k < |rest| && rest[k] !in capabilities && (forall j :: 0 <= j < k ==> rest[j] in capabilities)
                 && FirstUnheld(capabilities, rest) == Some(rest[k]);
        forall j | 0 <= j < k + 1
          ensures scope[j] in capabilities
        {
          assert j > 0 ==> scope[j] == rest[j - 1];
        }
        assert scope[k + 1] == rest[k];
      }
    }
  }

  /** When a link is made, the chain above its source has nine links at most. */
  lemma SourceChainIsShort(agents: Agents, links: seq<Link>, from: AgentId, to: AgentId, scope: seq<string>, chain: seq<Link>)
    requires Refusal(agents, links, from, to, scope) == None && IsChainOf(links, from, chain)
    ensures |chain| < 10
  {
    if |chain| >= 10 {
      ChainAncestors(links, from, chain, |chain| - 10);
    }
  }

  ghost predicate NoDuplicates(s: seq<AgentId>) {
    forall i, j :: 0 <= i < j < |s| ==> s[i] != s[j]
  }

  ghost function Elements(s: seq<AgentId>): set<AgentId> {
    set a | a in s
  }

  function Children(links: seq<Link>, a: AgentId): (r: seq<AgentId>)
    ensures forall c :: c in r <==> Linked(links, a, c)
  {
    if links == [] then []
    else
      var rest := Children(links[1..], a);
      assert forall c :: Linked(links, a, c) <==> (links[0].from == a && links[0].to == c) || Linked(links[1..], a, c) by {
        forall c
          ensures Linked(links, a, c) <==> (links[0].from == a && links[0].to == c) || Linked(links[1..], a, c)
        {
          LinkedSplit(links, a, c);
        }
      }
      if links[0].from == a then [links[0].to] + rest else rest
  }

  lemma LinkedSplit(links: seq<Link>, a: AgentId, c: AgentId)
    requires links != []
    ensures Linked(links, a, c) <==> (links[0].from == a && links[0].to == c) || Linked(links[1..], a, c)
  {
    if Linked(links, a, c) {
      var k :| 0 <= k < |links| && links[k].from == a && links[k].to == c;
      if k > 0 {
        assert links[1..][k - 1] == links[k];
      }
    }
    if Linked(links[1..], a, c) {
      var k :| 0 <= k < |links[1..]| && links[1..][k].from == a && links[1..][k].to == c;
      assert links[k + 1] == links[1..][k];
    }
  }

  // ---------------------------------------------------------------------------
  // The cascade's worklist
  // ---------------------------------------------------------------------------

  /** The agents still active, which the cascade can only diminish. */
  ghost function ActiveAgents(agents: Agents): set<AgentId> {
    set a | a in agents && agents[a].active
  }

  /**
   * Where the cascade from `id` stands: `off` were switched off and are all reached actively, and
   * every agent of `off` outside `open` has only inactive agents below it.
   */
  ghost predicate Cascading(before: Agents, now: Agents, links: seq<Link>, id: AgentId, off: set<AgentId>, open: set<AgentId>) {
    && now.Keys == before.Keys
    && (forall a :: a in before ==> now[a] == if a in off then before[a].(active := false) else before[a])
    && id in off
    && open <= off <= ActiveReach(before, links, id)
    && forall a, c :: a in off - open && Linked(links, a, c) ==> !IsActive(now, c)
  }

  /** Switching off an active agent below one that was reached. */
  lemma CascadeOne(before: Agents, now: Agents, links: seq<Link>, id: AgentId, off: set<AgentId>, open: set<AgentId>,
                   a: AgentId, c: AgentId)
    requires Cascading(before, now, links, id, off, open) && a in off && Linked(links, a, c) && IsActive(now, c)
    ensures c !in off && IsActive(before, c)
    ensures Cascading(before, now[c := now[c].(active := false)], links, id, off + {c}, open + {c})
    ensures ActiveAgents(now[c := now[c].(active := false)]) == ActiveAgents(now) - {c}
  {
    ReachesOneFurther(before, links, id, a, c);
  }

  /** All of an agent's children have been seen: it is done. */
  lemma CascadeDone(before: Agents, now: Agents, links: seq<Link>, id: AgentId, off: set<AgentId>, open: set<AgentId>, a: AgentId)
    requires Cascading(before, now, links, id, off, open)
    requires forall c :: Linked(links, a, c) ==> !IsActive(now, c)
    ensures Cascading(before, now, links, id, off, open - {a})
  {
  }

  /** The same, for the vectors the code keeps. */
  lemma ChildOff(before: Agents, now: Agents, links: seq<Link>, id: AgentId, off: seq<AgentId>, open: seq<AgentId>,
                 current: AgentId, child: AgentId)
    requires Cascading(before, now, links, id, Elements(off), Elements(open) + {current}) && NoDuplicates(off)
    requires current in Elements(off) && Linked(links, current, child) && IsActive(now, child)
    ensures var now' := now[child := now[child].(active := false)];
            && Cascading(before, now', links, id, Elements(off + [child]), Elements(open + [child]) + {current})
            && NoDuplicates(off + [child])
            && |ActiveAgents(now')| < |ActiveAgents(now)|
            && (forall a :: IsActive(now', a) ==> IsActive(now, a) && a != child)
  {
    CascadeOne(before, now, links, id, Elements(off), Elements(open) + {current}, current, child);
    assert Elements(off + [child]) == Elements(off) + {child};
    assert Elements(open + [child]) + {current} == Elements(open) + {current} + {child};
  }

  lemma RoundDone(before: Agents, now: Agents, links: seq<Link>, id: AgentId, off: seq<AgentId>, open: seq<AgentId>, current: AgentId)
    requires Cascading(before, now, links, id, Elements(off), Elements(open) + {current})
    requires forall c :: Linked(links, current, c) ==> !IsActive(now, c)
    ensures Cascading(before, now, links, id, Elements(off), Elements(open))
  {
    CascadeDone(before, now, links, id, Elements(off), Elements(open) + {current}, current);
    if current in Elements(open) {
      assert Elements(open) + {current} == Elements(open);
    } else {
      assert Elements(open) + {current} - {current} == Elements(open);
    }
  }

  /** With no work left, exactly the agents reached actively are off. */
  lemma CascadeComplete(before: Agents, now: Agents, links: seq<Link>, id: AgentId, off: set<AgentId>)
    requires Cascading(before, now, links, id, off, {})
    ensures off == ActiveReach(before, links, id)
    ensures now == SwitchOff(before, off)
  {
    forall a, b | a in off && Linked(links, a, b) && IsActive(before, b)
      ensures b in off
    {
      assert !IsActive(now, b);
    }
    ClosedHoldsReach(before, links, id, off);
  }

  class InMemoryRegistry {
    var agents: Agents
    var delegations: seq<Link>

    constructor ()
      ensures agents == map[] && delegations == []
    {
      agents, delegations := map[], [];
    }

    method RegisterAgent(id: AgentId, owner: string, model: string, capabilities: seq<string>, trustLevel: TrustLevel,
                         now: int, expiresAt: Option<int>)
      returns (agent: Agent)
      modifies this`agents
      ensures agent == Agent(id, owner, model, capabilities, trustLevel, now, expiresAt, true)
      ensures agents == old(agents)[id := agent]
    {
      agent := Agent(id, owner, model, capabilities, trustLevel, now, expiresAt, true);
      agents := agents[id := agent];
    }

    method UpdateTrustLevel(id: AgentId, level: TrustLevel) returns (r: Result<Agent, IdentityError>)
      modifies this`agents
      ensures var refusal := Unavailable(old(agents), id);
              if refusal.Some? then r == Err(refusal.value) && agents == old(agents)
              else r == Ok(old(agents)[id].(trustLevel := level)) && agents == old(agents)[id := r.value]
      ensures r.Ok? <==> id in old(agents) && old(agents)[id].active
    {
      if id !in agents {
        return Err(AgentNotFound(id));
      }
      var agent := agents[id];
      if !agent.active {
        return Err(AgentDeactivated(id));
      }
      agent := agent.(trustLevel := level);
      agents := agents[id := agent];
      return Ok(agent);
    }

    method DeactivateAgent(id: AgentId) returns (r: Result<(), IdentityError>)
      modifies this`agents
      ensures var refusal := Unavailable(old(agents), id);
              if refusal.Some? then r == Err(refusal.value) && agents == old(agents)
              else r == Ok(()) && agents == old(agents)[id := old(agents)[id].(active := false)]
      ensures r.Ok? <==> id in old(agents) && old(agents)[id].active
    {
      if id !in agents {
        return Err(AgentNotFound(id));
      }
      var agent := agents[id];
      if !agent.active {
        return Err(AgentDeactivated(id));
      }
      agents := agents[id := agent.(active := false)];
      return Ok(());
    }

    /** The depth walk: whether `from` has `MAX_CHAIN_DEPTH` ancestors. */
    method TooDeep(from: AgentId) returns (deep: bool)
      ensures deep <==> Ancestor(delegations, from, MAX_CHAIN_DEPTH).Some?
    {
      var depth: nat, current := 0, from;
      var link := FirstInto(delegations, current);
      while link.Some?
        invariant depth < MAX_CHAIN_DEPTH
        invariant Ancestor(delegations, from, depth) == Some(current)
        invariant link == FirstInto(delegations, current)
        decreases MAX_CHAIN_DEPTH - depth
      {
        AncestorStep(delegations, from, depth);
        depth := depth + 1;
        if depth >= MAX_CHAIN_DEPTH {
          return true;
        }
        current := link.value.from;
        link := FirstInto(delegations, current);
      }
      AncestorStep(delegations, from, depth);
      NoneAbove(delegations, from, depth + 1, MAX_CHAIN_DEPTH);
      return false;
    }

    /**
     * The cycle walk. The depth walk has already succeeded, so the chain above `from` is short
     * and the walk never meets an agent twice.
     */
    method LeadsTo(from: AgentId, to: AgentId) returns (circular: bool)
      requires from != to && Ancestor(delegations, from, MAX_CHAIN_DEPTH).None?
      ensures circular <==> IsAncestor(delegations, from, to)
    {
      var current, visited := from, {from};
      ghost var k: nat := 0;
      while true
        invariant Walked(delegations, from, to, k, current, visited)
        invariant k < MAX_CHAIN_DEPTH
        decreases MAX_CHAIN_DEPTH - k
      {
        var parent := FirstInto(delegations, current);
        AncestorStep(delegations, from, k);
        if parent.None? {
          NothingFurther(delegations, from, k, to);
          return false;
        }
        if parent.value.from == to {
          return true;
        }
        WalkOn(delegations, from, to, k, current, visited, parent.value.from);
        if parent.value.from in visited {
          assert false;
        }
        visited := visited + {parent.value.from};
        current := parent.value.from;
        k := k + 1;
      }
    }

    method CreateDelegation(from: AgentId, to: AgentId, scope: seq<string>, now: int, expiresAt: Option<int>)
      returns (r: Result<Link, IdentityError>)
      modifies this`delegations
      ensures var refusal := Refusal(agents, old(delegations), from, to, scope);
              if refusal.Some? then r == Err(refusal.value) && delegations == old(delegations)
              else r == Ok(Link(from, to, scope, now, expiresAt)) && delegations == old(delegations) + [r.value]
    {
      if from == to {
        return Err(CircularDelegation(from, to));
      }
      if from !in agents {
        return Err(DelegationSourceNotFound(from));
      }
      var parent := agents[from];
      if !parent.active {
        return Err(DelegateFromDeactivated(from));
      }
      if to !in agents {
        return Err(DelegationTargetNotFound(to));
      }
      var target := agents[to];
      if parent.owner != target.owner {
        return Err(CrossOwnerDelegation(from, to, parent.owner, target.owner));
      }
      var deep := TooDeep(from);
      if deep {
        return Err(TOO_DEEP);
      }
      if scope == [] {
        return Err(EMPTY_SCOPE);
      }
      for i := 0 to |scope|
        invariant FirstUnheld(parent.capabilities, scope) == FirstUnheld(parent.capabilities, scope[i..])
        invariant delegations == old(delegations)
      {
        if scope[i] !in parent.capabilities {
          return Err(ScopeNarrowingViolation(scope[i]));
        }
      }
      var circular := LeadsTo(from, to);
      if circular {
        return Err(CircularDelegation(from, to));
      }
      var link := Link(from, to, scope, now, expiresAt);
      delegations := delegations + [link];
      return Ok(link);
    }

    /**
     * The walk to the root, for any links: up to the first agent without a parent or, on a cycle,
     * the first that was met before. On an acyclic forest that is exactly the agent's chain.
     */
    method GetChainForAgent(agent: AgentId) returns (chain: seq<Link>)
      ensures IsWalkOf(delegations, agent, chain)
      ensures Acyclic(delegations) ==> IsChainOf(delegations, agent, chain)
    {
      var up: seq<Link> := [];
      var current, visited := agent, {agent};
      ghost var nodes := WalkNodes(delegations, agent);
      var link := FirstInto(delegations, current);
      while link.Some?
        invariant link == FirstInto(delegations, current)
        invariant visited <= nodes
        invariant Climbed(delegations, agent, up, current, visited)
        decreases |nodes - visited|
      {
        ClimbOn(delegations, agent, up, current, visited, link.value);
        up := up + [link.value];
        current := link.value.from;
        if current in visited {
          chain := Reversed(up);
          if Acyclic(delegations) {
            WalkIsChain(delegations, agent, chain);
          }
          return;
        }
        FewerLeft(delegations, agent, visited, link.value);
        visited := visited + {current};
        link := FirstInto(delegations, current);
      }
      ClimbEnds(delegations, agent, up, current, visited);
      chain := Reversed(up);
      if Acyclic(delegations) {
        WalkIsChain(delegations, agent, chain);
      }
    }

    /** The two passes over the chain: expiry first, then the delegators. */
    method CheckChain(chain: seq<Link>, now: int) returns (r: Result<seq<Link>, IdentityError>)
      ensures r == Verdict(agents, chain, now)
    {
      for i := 0 to |chain|
        invariant FirstExpired(chain, now) == FirstExpired(chain[i..], now)
      {
        if chain[i].IsExpired(now) {
          return Err(ChainExpired(chain[i].from, chain[i].to));
        }
      }
      for i := 0 to |chain|
        invariant FirstInactive(agents, chain) == FirstInactive(agents, chain[i..])
      {
        if chain[i].from in agents && !agents[chain[i].from].active {
          return Err(AgentDeactivated(chain[i].from));
        }
      }
      return Ok(chain);
    }

    method VerifyChain(agent: AgentId, now: int) returns (r: Result<seq<Link>, IdentityError>)
      ensures exists chain :: && IsWalkOf(delegations, agent, chain) && Verifies(agents, chain, now, r)
                              && r == Verdict(agents, chain, now)
                              && (Acyclic(delegations) ==> IsChainOf(delegations, agent, chain))
    {
      var chain := GetChainForAgent(agent);
      r := CheckChain(chain, now);
      VerdictVerifies(agents, chain, now);
    }

    /**
     * On success exactly the agents that `id` reaches along paths of active agents are switched
     * off, each is returned once, and nothing else changes. Every round either switches an agent
     * off or shortens the worklist.
     */
    method CascadeDeactivate(id: AgentId) returns (r: Result<seq<AgentId>, IdentityError>)
      modifies this`agents
      ensures Unavailable(old(agents), id).Some? ==>
                r == Err(Unavailable(old(agents), id).value) && agents == old(agents)
      ensures Unavailable(old(agents), id).None? ==>
                && r.Ok?
                && NoDuplicates(r.value)
                && Elements(r.value) == ActiveReach(old(agents), delegations, id)
                && agents == SwitchOff(old(agents), ActiveReach(old(agents), delegations, id))
      ensures r.Ok? <==> id in old(agents) && old(agents)[id].active
      ensures agents.Keys == old(agents).Keys
      ensures forall a :: a in old(agents) ==>
                agents[a] == if r.Ok? && a in r.value then old(agents)[a].(active := false) else old(agents)[a]
    {
      var first := DeactivateAgent(id);
      if first.Err? {
        return Err(first.error);
      }
      var deactivated, toProcess := [id], [id];
      ghost var before := old(agents);
      ReachesItself(before, delegations, id);
      assert Elements(deactivated) == {id} == Elements(toProcess);
      while toProcess != []
        invariant Cascading(before, agents, delegations, id, Elements(deactivated), Elements(toProcess))
        invariant NoDuplicates(deactivated)
        decreases |ActiveAgents(agents)|, |toProcess|
      {
        var current := toProcess[|toProcess| - 1];
        var rest := toProcess[..|toProcess| - 1];
        assert toProcess == rest + [current];
        assert Elements(toProcess) == Elements(rest) + {current};
        deactivated, toProcess := SwitchOffChildren(before, id, current, deactivated, rest);
      }
      assert Elements(toProcess) == {};
      CascadeComplete(before, agents, delegations, id, Elements(deactivated));
      return Ok(deactivated);
    }

    /** One round of the cascade: the children of `current` that are still active. */
    method SwitchOffChildren(ghost before: Agents, ghost id: AgentId, current: AgentId, off: seq<AgentId>, open: seq<AgentId>)
      returns (off': seq<AgentId>, open': seq<AgentId>)
      requires Cascading(before, agents, delegations, id, Elements(off), Elements(open) + {current})
      requires NoDuplicates(off)
      modifies this`agents
      ensures Cascading(before, agents, delegations, id, Elements(off'), Elements(open'))
      ensures NoDuplicates(off')
      ensures |ActiveAgents(agents)| < |ActiveAgents(old(agents))| || (agents == old(agents) && open' == open)
    {
      off', open' := off, open;
      var children := Children(delegations, current);
      for i := 0 to |children|
        invariant Cascading(before, agents, delegations, id, Elements(off'), Elements(open') + {current})
        invariant NoDuplicates(off')
        invariant forall j :: 0 <= j < i ==> !IsActive(agents, children[j])
        invariant |ActiveAgents(agents)| < |ActiveAgents(old(agents))| || (agents == old(agents) && open' == open)
      {
        var child := children[i];
        if child in agents && agents[child].active {
          ChildOff(before, agents, delegations, id, off', open', current, child);
          agents := agents[child := agents[child].(active := false)];
          off' := off' + [child];
          open' := open' + [child];
        }
      }
      assert forall c :: Linked(delegations, current, c) ==> c in children;
      RoundDone(before, agents, delegations, id, off', open', current);
    }
  }

  // ---------------------------------------------------------------------------
  // Lemmas for the walks
  // ---------------------------------------------------------------------------

  /** At the root the walk has seen every ancestor. */
  lemma NothingFurther(links: seq<Link>, from: AgentId, k: nat, to: AgentId)
    requires Ancestor(links, from, k + 1).None?
    requires forall j: nat :: j <= k ==> Ancestor(links, from, j) != Some(to)
    ensures !IsAncestor(links, from, to)
  {
    forall j: nat
      ensures Ancestor(links, from, j) != Some(to)
    {
      if j > k {
        NoneAbove(links, from, k + 1, j);
      }
    }
  }

  /** A chain that ends does not come back to an agent. */
  lemma NoReturn(links: seq<Link>, from: AgentId, j: nat, k: nat)
    requires Ancestor(links, from, MAX_CHAIN_DEPTH).None? && j < k
    requires Ancestor(links, from, j).Some?
    ensures Ancestor(links, from, k) != Ancestor(links, from, j)
  {
    var a := Ancestor(links, from, j).value;
    if Ancestor(links, from, k) == Some(a) {
      AncestorCompose(links, from, j, k - j);
      Loops(links, a, k - j, MAX_CHAIN_DEPTH);
      AncestorCompose(links, from, j, MAX_CHAIN_DEPTH);
      NoneAbove(links, from, MAX_CHAIN_DEPTH, j + MAX_CHAIN_DEPTH);
      assert false;
    }
  }

  /** The walk stands `k` steps above `from` and has met `visited`, but not `to`. */
  ghost predicate Walked(links: seq<Link>, from: AgentId, to: AgentId, k: nat, current: AgentId, visited: set<AgentId>) {
    && Ancestor(links, from, k) == Some(current)
    && (forall j: nat :: j <= k ==> Ancestor(links, from, j) != Some(to))
    && (forall a :: a in visited ==> exists j: nat :: j <= k && Ancestor(links, from, j) == Some(a))
  }

  lemma WalkOn(links: seq<Link>, from: AgentId, to: AgentId, k: nat, current: AgentId, visited: set<AgentId>, next: AgentId)
    requires Walked(links, from, to, k, current, visited) && Ancestor(links, from, k + 1) == Some(next) && next != to
    requires Ancestor(links, from, MAX_CHAIN_DEPTH).None?
    ensures Walked(links, from, to, k + 1, next, visited + {next})
    ensures next !in visited && k + 1 < MAX_CHAIN_DEPTH
  {
    if k + 1 >= MAX_CHAIN_DEPTH {
      NoneAbove(links, from, MAX_CHAIN_DEPTH, k + 1);
    }
    if next in visited {
      var j: nat :| j <= k && Ancestor(links, from, j) == Some(next);
      NoReturn(links, from, j, k + 1);
    }
    forall a | a in visited + {next}
      ensures exists j: nat :: j <= k + 1 && Ancestor(links, from, j) == Some(a)
    {
      if a in visited {
        var j: nat :| j <= k && Ancestor(links, from, j) == Some(a);
        assert j <= k + 1;
      } else {
        var j := k + 1;
        assert Ancestor(links, from, j) == Some(a);
      }
    }
  }

  /** An agent above itself has ancestors at every height. */
  lemma {:induction false} Loops(links: seq<Link>, a: AgentId, period: nat, n: nat)
    requires period > 0 && Ancestor(links, a, period) == Some(a)
    ensures Ancestor(links, a, n).Some?
    decreases n
  {
    if n <= period {
      if Ancestor(links, a, n).None? {
        NoneAbove(links, a, n, period);
      }
    } else {
      AncestorCompose(links, a, period, n - period);
      Loops(links, a, period, n - period);
    }
  }

  function Reversed(s: seq<Link>): seq<Link> {
    seq(|s|, i requires 0 <= i < |s| => s[|s| - 1 - i])
  }

  /** Among the first `n` agents upward from `a`, itself included, none comes twice. */
  ghost predicate DistinctUpTo(links: seq<Link>, a: AgentId, n: nat) {
    forall i: nat, j: nat :: i < j < n ==> Ancestor(links, a, i) != Ancestor(links, a, j)
  }

  /** `b` is among the first `n` agents upward from `a`. */
  ghost predicate Met(links: seq<Link>, a: AgentId, n: nat, b: AgentId) {
    exists i: nat :: i < n && Ancestor(links, a, i) == Some(b)
  }

  /** After `n` links the walk stops: there is no parent, or the agent was met before. */
  ghost predicate StopsAt(links: seq<Link>, a: AgentId, n: nat) {
    && DistinctUpTo(links, a, n)
    && Ancestor(links, a, n).Some?
    && (Ancestor(links, a, n + 1).None? || Met(links, a, n, Ancestor(links, a, n).value))
  }

  /** The first links upward from `a`, top first, as far as the walk goes. */
  ghost predicate IsWalkOf(links: seq<Link>, a: AgentId, chain: seq<Link>) {
    StopsAt(links, a, |chain|) && ClimbsUp(links, a, Reversed(chain))
  }

  /** `up[i]` is the first link into the agent `i` steps above `a`. */
  ghost predicate ClimbsUp(links: seq<Link>, a: AgentId, up: seq<Link>) {
    forall i :: 0 <= i < |up| ==> LinkAbove(links, a, i) == Some(up[i])
  }

  ghost function LinkAbove(links: seq<Link>, a: AgentId, i: nat): Option<Link> {
    var b := Ancestor(links, a, i);
    if b.None? then None else FirstInto(links, b.value)
  }

  /** For any links there is one walk only. */
  lemma WalkUnique(links: seq<Link>, a: AgentId, c: seq<Link>, d: seq<Link>)
    requires IsWalkOf(links, a, c) && IsWalkOf(links, a, d)
    ensures c == d
  {
    StopsFirst(links, a, |c|, |d|);
    StopsFirst(links, a, |d|, |c|);
    var up, up' := Reversed(c), Reversed(d);
    forall i | 0 <= i < |c|
      ensures c[i] == d[i]
    {
      assert up[|c| - 1 - i] == c[i] && up'[|c| - 1 - i] == d[i];
    }
  }

  /** The walk goes no further than where it stops first. */
  lemma StopsFirst(links: seq<Link>, a: AgentId, n: nat, m: nat)
    requires StopsAt(links, a, n) && StopsAt(links, a, m)
    ensures m <= n
  {
    if n < m && Ancestor(links, a, n + 1).None? {
      NoneAbove(links, a, n + 1, m);
    }
  }

  /** Where the walk to the root stands. */
  ghost predicate Climbed(links: seq<Link>, a: AgentId, up: seq<Link>, current: AgentId, visited: set<AgentId>) {
    && Ancestor(links, a, |up|) == Some(current)
    && ClimbsUp(links, a, up)
    && DistinctUpTo(links, a, |up| + 1)
    && (forall b :: b in visited <==> Met(links, a, |up| + 1, b))
  }

  lemma MetMore(links: seq<Link>, a: AgentId, n: nat, b: AgentId)
    ensures Met(links, a, n + 1, b) <==> Met(links, a, n, b) || Ancestor(links, a, n) == Some(b)
  {
    if Met(links, a, n, b) {
      var i: nat :| i < n && Ancestor(links, a, i) == Some(b);
      assert i < n + 1;
    }
  }

  /** One more link: back to an agent met before, where the walk stops, or to a new one. */
  lemma ClimbOn(links: seq<Link>, a: AgentId, up: seq<Link>, current: AgentId, visited: set<AgentId>, l: Link)
    requires Climbed(links, a, up, current, visited) && FirstInto(links, current) == Some(l)
    ensures l.from in visited ==> IsWalkOf(links, a, Reversed(up + [l]))
    ensures l.from !in visited ==> Climbed(links, a, up + [l], l.from, visited + {l.from})
  {
    var n, up' := |up| + 1, up + [l];
    AncestorStep(links, a, |up|);
    assert Ancestor(links, a, n) == Some(l.from);
    assert ClimbsUp(links, a, up');
    assert Reversed(Reversed(up')) == up';
    if l.from !in visited {
      forall b
        ensures b in visited + {l.from} <==> Met(links, a, n + 1, b)
      {
        MetMore(links, a, n, b);
      }
      assert DistinctUpTo(links, a, n + 1) by {
        forall i: nat, j: nat | i < j < n + 1
          ensures Ancestor(links, a, i) != Ancestor(links, a, j)
        {
          if j == n {
            assert !Met(links, a, n, l.from);
          }
        }
      }
    }
  }

  lemma ClimbEnds(links: seq<Link>, a: AgentId, up: seq<Link>, current: AgentId, visited: set<AgentId>)
    requires Climbed(links, a, up, current, visited) && FirstInto(links, current).None?
    ensures IsWalkOf(links, a, Reversed(up))
  {
    AncestorStep(links, a, |up|);
    assert Reversed(Reversed(up)) == up;
  }

  /** On an acyclic forest the walk never stops at an agent met before, and it is the chain. */
  lemma WalkIsChain(links: seq<Link>, a: AgentId, chain: seq<Link>)
    requires Acyclic(links) && IsWalkOf(links, a, chain)
    ensures IsChainOf(links, a, chain)
  {
    var n, up := |chain|, Reversed(chain);
    if Met(links, a, n, Ancestor(links, a, n).value) {
      var i: nat :| i < n && Ancestor(links, a, i) == Ancestor(links, a, n);
      AncestorCompose(links, a, i, n - i);
    }
    forall i | 0 <= i < n
      ensures chain[i] == up[n - 1 - i] && FirstInto(links, chain[i].to) == Some(chain[i])
      ensures Ancestor(links, a, n - 1 - i) == Some(chain[i].to) && Ancestor(links, a, n - i) == Some(chain[i].from)
    {
      assert LinkAbove(links, a, n - 1 - i) == Some(up[n - 1 - i]);
      AncestorStep(links, a, n - 1 - i);
    }
    AncestorStep(links, a, n);
  }

  /** The agents a walk can visit. */
  ghost function WalkNodes(links: seq<Link>, agent: AgentId): set<AgentId> {
    {agent} + set l | l in links :: l.from
  }

  lemma FewerLeft(links: seq<Link>, agent: AgentId, visited: set<AgentId>, l: Link)
    requires l in links && l.from !in visited
    ensures l.from in WalkNodes(links, agent)
    ensures |WalkNodes(links, agent) - (visited + {l.from})| < |WalkNodes(links, agent) - visited|
  {
    var nodes := WalkNodes(links, agent);
    assert nodes - visited == (nodes - (visited + {l.from})) + {l.from};
  }
}
