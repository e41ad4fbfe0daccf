/**
 * The delegation graph of the agent registry (arbiter-identity/src/registry.rs): the forest that
 * the code walks, which follows only the first link into an agent, and reachability along any link.
 */
module Delegation {
  import opened Common

  type AgentId = nat

  datatype TrustLevel = Untrusted | Basic | Verified | Trusted

  datatype Agent = Agent(
    id: AgentId,
    owner: string,
    model: string,
    capabilities: seq<string>,
    trustLevel: TrustLevel,
    createdAt: int,
    expiresAt: Option<int>,
    active: bool)

  datatype Link = Link(from: AgentId, to: AgentId, scope: seq<string>, createdAt: int, expiresAt: Option<int>) {
    predicate IsExpired(now: int) {
      expiresAt.Some? && now > expiresAt.value
    }
  }

  type Agents = map<AgentId, Agent>

  // ---------------------------------------------------------------------------
  // The first-parent forest
  // ---------------------------------------------------------------------------

  /** `delegations.iter().find(|d| d.to == a)`. */
  function FirstInto(links: seq<Link>, a: AgentId): (r: Option<Link>)
    ensures r.Some? ==> r.value in links && r.value.to == a
    ensures r.None? <==> forall k :: 0 <= k < |links| ==> links[k].to != a
  {
    if links == [] then None
    else if links[0].to == a then Some(links[0])
    else FirstInto(links[1..], a)
  }

  function Parent(links: seq<Link>, a: AgentId): Option<AgentId> {
    var l := FirstInto(links, a);
    if l.Some? then Some(l.value.from) else None
  }

  /** The agent `k` first links above `a`. */
  function Ancestor(links: seq<Link>, a: AgentId, k: nat): Option<AgentId>
    decreases k
  {
    if k == 0 then Some(a)
    else if Parent(links, a).None? then None
    else Ancestor(links, Parent(links, a).value, k - 1)
  }

  ghost predicate IsAncestor(links: seq<Link>, a: AgentId, b: AgentId) {
    exists k: nat :: Ancestor(links, a, k) == Some(b)
  }

  ghost predicate Acyclic(links: seq<Link>) {
    forall a: AgentId, k: nat :: k > 0 ==> Ancestor(links, a, k) != Some(a)
  }

  lemma {:induction false} AncestorCompose(links: seq<Link>, a: AgentId, i: nat, j: nat)
    requires Ancestor(links, a, i).Some?
    ensures Ancestor(links, a, i + j) == Ancestor(links, Ancestor(links, a, i).value, j)
    decreases i
  {
    if i > 0 {
      AncestorCompose(links, Parent(links, a).value, i - 1, j);
    }
  }

  /** One step further up. */
  lemma AncestorStep(links: seq<Link>, a: AgentId, k: nat)
    requires Ancestor(links, a, k).Some?
    ensures Ancestor(links, a, k + 1) == Parent(links, Ancestor(links, a, k).value)
  {
    AncestorCompose(links, a, k, 1);
    var b := Ancestor(links, a, k).value;
    assert Ancestor(links, b, 1) == if Parent(links, b).None? then None else Ancestor(links, Parent(links, b).value, 0);
  }

  /** Above a missing ancestor there is none. */
  lemma {:induction false} NoneAbove(links: seq<Link>, a: AgentId, i: nat, j: nat)
    requires i <= j && Ancestor(links, a, i).None?
    ensures Ancestor(links, a, j).None?
    decreases i
  {
    if i > 0 && Parent(links, a).Some? {
      NoneAbove(links, Parent(links, a).value, i - 1, j - 1);
    }
  }

  lemma {:induction false} FirstIntoAppend(links: seq<Link>, l: Link, a: AgentId)
    ensures FirstInto(links + [l], a) ==
            if FirstInto(links, a).Some? then FirstInto(links, a) else if l.to == a then Some(l) else None
  {
    if links != [] {
      assert (links + [l])[1..] == links[1..] + [l];
      FirstIntoAppend(links[1..], l, a);
    } else {
      assert links + [l] == [l];
    }
  }

  /** A walk in the grown forest is a walk in the old one unless it meets the link's target, at step `j`. */
  lemma {:induction false} SameUntilTarget(links: seq<Link>, l: Link, a: AgentId, k: nat) returns (j: nat)
    ensures Ancestor(links + [l], a, k) == Ancestor(links, a, k) || (j < k && Ancestor(links + [l], a, j) == Some(l.to))
    decreases k
  {
    j := 0;
    if k > 0 && a != l.to {
      FirstIntoAppend(links, l, a);
      if Parent(links, a).Some? {
        j := SameUntilTarget(links, l, Parent(links, a).value, k - 1);
        j := j + 1;
      }
    }
  }

  /** If the grown forest leads from `a` to the link's target, so did the old one. */
  lemma {:induction false} TargetWasAbove(links: seq<Link>, l: Link, a: AgentId, k: nat) returns (m: nat)
    requires Ancestor(links + [l], a, k) == Some(l.to)
    ensures Ancestor(links, a, m) == Some(l.to)
    decreases k
  {
    if a == l.to {
      m := 0;
    } else {
      FirstIntoAppend(links, l, a);
      m := TargetWasAbove(links, l, Parent(links, a).value, k - 1);
      m := m + 1;
    }
  }

  /** A link whose target is not above its source keeps the forest acyclic. */
  lemma GrowthKeepsAcyclic(links: seq<Link>, l: Link)
    requires Acyclic(links) && !IsAncestor(links, l.from, l.to)
    ensures Acyclic(links + [l])
  {
    var grown := links + [l];
    forall a: AgentId, k: nat | k > 0
      ensures Ancestor(grown, a, k) != Some(a)
    {
      if Ancestor(grown, a, k) == Some(a) {
        CycleNeedsLink(links, l, a, k);
        assert false;
      }
    }
  }

  lemma CycleNeedsLink(links: seq<Link>, l: Link, a: AgentId, k: nat)
    requires Acyclic(links) && k > 0 && Ancestor(links + [l], a, k) == Some(a)
    ensures IsAncestor(links, l.from, l.to)
  {
    var grown := links + [l];
    var j := SameUntilTarget(links, l, a, k);
    assert Ancestor(links, a, k) != Some(a);
    AncestorCompose(grown, a, j, k - j);
    AncestorCompose(grown, l.to, k - j, j);
    CycleThroughTarget(links, l, k);
  }

  lemma CycleThroughTarget(links: seq<Link>, l: Link, k: nat)
    requires Acyclic(links) && k > 0 && Ancestor(links + [l], l.to, k) == Some(l.to)
    ensures IsAncestor(links, l.from, l.to)
  {
    FirstIntoAppend(links, l, l.to);
    if FirstInto(links, l.to).Some? {
      NoNewEdge(links, l, l.to, k);
      assert false;
    } else {
      var m := TargetWasAbove(links, l, l.from, k - 1);
    }
  }

  /** A second link into an agent does not change the forest at all. */
  lemma {:induction false} NoNewEdge(links: seq<Link>, l: Link, a: AgentId, k: nat)
    requires FirstInto(links, l.to).Some?
    ensures Ancestor(links + [l], a, k) == Ancestor(links, a, k)
    decreases k
  {
    FirstIntoAppend(links, l, a);
    if k > 0 && Parent(links, a).Some? {
      NoNewEdge(links, l, Parent(links, a).value, k - 1);
    }
  }

  // ---------------------------------------------------------------------------
  // Chains
  // ---------------------------------------------------------------------------

  /** The links from the root of the forest down to `a`. */
  ghost predicate IsChainOf(links: seq<Link>, a: AgentId, chain: seq<Link>) {
    if chain == [] then FirstInto(links, a).None?
    else
      && chain[|chain| - 1].to == a
      && FirstInto(links, chain[0].from).None?
      && (forall i :: 0 <= i < |chain| ==> FirstInto(links, chain[i].to) == Some(chain[i]))
      && (forall i :: 0 <= i < |chain| - 1 ==> chain[i].to == chain[i + 1].from)
  }

  /** Dropping the last link leaves the chain of the parent. */
  lemma ChainPrefix(links: seq<Link>, a: AgentId, chain: seq<Link>)
    requires IsChainOf(links, a, chain) && chain != []
    ensures IsChainOf(links, chain[|chain| - 1].from, chain[..|chain| - 1])
    ensures Parent(links, a) == Some(chain[|chain| - 1].from)
  {
    var shorter := chain[..|chain| - 1];
    if shorter != [] {
      assert shorter[|shorter| - 1].to == chain[|chain| - 1].from;
    }
  }

  /** There is only one such chain, so the predicate determines what the walk returns. */
  lemma {:induction false} ChainUnique(links: seq<Link>, a: AgentId, c: seq<Link>, d: seq<Link>)
    requires IsChainOf(links, a, c) && IsChainOf(links, a, d)
    ensures c == d
    decreases |c|
  {
    if c != [] && d != [] {
      ChainPrefix(links, a, c);
      ChainPrefix(links, a, d);
      ChainUnique(links, c[|c| - 1].from, c[..|c| - 1], d[..|d| - 1]);
      assert c == c[..|c| - 1] + [c[|c| - 1]] && d == d[..|d| - 1] + [d[|d| - 1]];
    }
  }

  /** The delegator of the `i`-th link is that many steps above the agent. */
  lemma {:induction false} ChainAncestors(links: seq<Link>, a: AgentId, chain: seq<Link>, i: nat)
    requires IsChainOf(links, a, chain) && i < |chain|
    ensures Ancestor(links, a, |chain| - i) == Some(chain[i].from)
    decreases |chain|
  {
    ChainPrefix(links, a, chain);
    var last := |chain| - 1;
    if i < last {
      ChainAncestors(links, chain[last].from, chain[..last], i);
    } else {
      assert Ancestor(links, a, 1) == Ancestor(links, chain[last].from, 0);
    }
  }

  /** No agent occurs twice on a chain. */
  lemma ChainDistinct(links: seq<Link>, a: AgentId, chain: seq<Link>)
    requires Acyclic(links) && IsChainOf(links, a, chain)
    ensures forall i :: 0 <= i < |chain| ==> chain[i].from != a
    ensures forall i, j :: 0 <= i < j < |chain| ==> chain[i].from != chain[j].from
  {
    forall i | 0 <= i < |chain|
      ensures chain[i].from != a
    {
      ChainAncestors(links, a, chain, i);
    }
    forall i, j | 0 <= i < j < |chain|
      ensures chain[i].from != chain[j].from
    {
      ChainAncestors(links, a, chain, i);
      ChainAncestors(links, a, chain, j);
      AncestorCompose(links, a, |chain| - j, j - i);
    }
  }

  // ---------------------------------------------------------------------------
  // Reachability along any link
  // ---------------------------------------------------------------------------

  ghost predicate Linked(links: seq<Link>, x: AgentId, y: AgentId) {
    exists k :: 0 <= k < |links| && links[k].from == x && links[k].to == y
  }

  predicate IsActive(agents: Agents, a: AgentId) {
    a in agents && agents[a].active
  }

  ghost predicate IsPath(links: seq<Link>, p: seq<AgentId>) {
    && p != []
    && forall i :: 0 <= i < |p| - 1 ==> Linked(links, p[i], p[i + 1])
  }

  /** A delegation path on which every agent is active. */
  ghost predicate IsActivePath(agents: Agents, links: seq<Link>, p: seq<AgentId>) {
    IsPath(links, p) && forall i :: 0 <= i < |p| ==> IsActive(agents, p[i])
  }

  ghost predicate Joins(p: seq<AgentId>, x: AgentId, y: AgentId) {
    p != [] && p[0] == x && p[|p| - 1] == y
  }

  ghost predicate Reaches(links: seq<Link>, x: AgentId, y: AgentId) {
    exists p :: IsPath(links, p) && Joins(p, x, y)
  }

  ghost predicate ReachesActively(agents: Agents, links: seq<Link>, x: AgentId, y: AgentId) {
    exists p :: IsActivePath(agents, links, p) && Joins(p, x, y)
  }

  /** The agents that deactivating `id` must take down. */
  ghost function ActiveReach(agents: Agents, links: seq<Link>, id: AgentId): set<AgentId> {
    set a | a in agents && ReachesActively(agents, links, id, a)
  }

  lemma ReachesItself(agents: Agents, links: seq<Link>, a: AgentId)
    requires IsActive(agents, a)
    ensures a in ActiveReach(agents, links, a)
  {
    assert IsActivePath(agents, links, [a]) && Joins([a], a, a);
  }

  lemma ReachesOneFurther(agents: Agents, links: seq<Link>, x: AgentId, y: AgentId, z: AgentId)
    requires y in ActiveReach(agents, links, x) && Linked(links, y, z) && IsActive(agents, z)
    ensures z in ActiveReach(agents, links, x)
  {
    var p :| IsActivePath(agents, links, p) && Joins(p, x, y);
    var q := p + [z];
    forall i | 0 <= i < |q| - 1
      ensures Linked(links, q[i], q[i + 1])
    {
      if i < |p| - 1 {
        assert Linked(links, p[i], p[i + 1]);
      }
    }
    assert IsActivePath(agents, links, q) && Joins(q, x, z);
  }

  /** A set that holds `x` and every active agent linked from it holds all that `x` reaches actively. */
  lemma {:induction false} ClosedHoldsPath(agents: Agents, links: seq<Link>, p: seq<AgentId>, s: set<AgentId>, i: nat)
    requires IsActivePath(agents, links, p) && p[0] in s && i < |p|
    requires forall a, b :: a in s && Linked(links, a, b) && IsActive(agents, b) ==> b in s
    ensures p[i] in s
  {
    if i > 0 {
      ClosedHoldsPath(agents, links, p, s, i - 1);
      assert Linked(links, p[i - 1], p[i - 1 + 1]);
    }
  }

  lemma ClosedHoldsReach(agents: Agents, links: seq<Link>, x: AgentId, s: set<AgentId>)
    requires x in s
    requires forall a, b :: a in s && Linked(links, a, b) && IsActive(agents, b) ==> b in s
    ensures ActiveReach(agents, links, x) <= s
  {
    forall y | y in ActiveReach(agents, links, x)
      ensures y in s
    {
      var p :| IsActivePath(agents, links, p) && Joins(p, x, y);
      ClosedHoldsPath(agents, links, p, s, |p| - 1);
    }
  }

  // ---------------------------------------------------------------------------
  // No active agent below an inactive one
  // ---------------------------------------------------------------------------

  ghost predicate Upright(agents: Agents, links: seq<Link>) {
    forall x, y :: Linked(links, x, y) && IsActive(agents, y) ==> IsActive(agents, x)
  }

  lemma {:induction false} UprightPath(agents: Agents, links: seq<Link>, p: seq<AgentId>)
    requires Upright(agents, links) && IsPath(links, p) && IsActive(agents, p[|p| - 1])
    ensures IsActivePath(agents, links, p)
  {
    var last := |p| - 1;
    if last > 0 {
      assert Linked(links, p[last - 1], p[last - 1 + 1]);
      UprightPath(agents, links, p[..last]);
      forall i | 0 <= i < |p|
        ensures IsActive(agents, p[i])
      {
        if i < last {
          assert p[i] == p[..last][i];
        }
      }
    }
  }

  /** Upright, link by link, means that no path leads from an inactive agent to an active one. */
  lemma UprightIffPaths(agents: Agents, links: seq<Link>)
    ensures Upright(agents, links) <==>
            forall x, y :: Reaches(links, x, y) && IsActive(agents, y) ==> IsActive(agents, x)
  {
    if Upright(agents, links) {
      forall x, y | Reaches(links, x, y) && IsActive(agents, y)
        ensures IsActive(agents, x)
      {
        var p :| IsPath(links, p) && Joins(p, x, y);
        UprightPath(agents, links, p);
      }
    } else {
      var x, y :| Linked(links, x, y) && IsActive(agents, y) && !IsActive(agents, x);
      assert IsPath(links, [x, y]) && Joins([x, y], x, y);
    }
  }

  /** Then an active path is any path to an active agent. */
  lemma UprightReach(agents: Agents, links: seq<Link>, x: AgentId, y: AgentId)
    requires Upright(agents, links)
    ensures ReachesActively(agents, links, x, y) <==> Reaches(links, x, y) && IsActive(agents, y)
  {
    if ReachesActively(agents, links, x, y) {
      var p :| IsActivePath(agents, links, p) && Joins(p, x, y);
      assert Reaches(links, x, y);
    }
    if Reaches(links, x, y) && IsActive(agents, y) {
      var p :| IsPath(links, p) && Joins(p, x, y);
      UprightPath(agents, links, p);
    }
  }
}
