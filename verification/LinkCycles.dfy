/**
 * Cycles of delegation links. The registry keeps the first-parent forest acyclic; the links as a
 * whole may form a cycle, and here is exactly when they do.
 */
module LinkCycles {
  import opened Common
  import opened Delegation
  import opened Registry
  import opened Lifecycle

  ghost predicate LinksAcyclic(links: seq<Link>) {
    forall x, y :: Linked(links, x, y) ==> !Reaches(links, y, x)
  }

  // ---------------------------------------------------------------------------
  // Paths along any links
  // ---------------------------------------------------------------------------

  lemma ReachesSelf(links: seq<Link>, x: AgentId)
    ensures Reaches(links, x, x)
  {
    assert IsPath(links, [x]) && Joins([x], x, x);
  }

  lemma ReachesStep(links: seq<Link>, x: AgentId, y: AgentId, z: AgentId)
    requires Reaches(links, x, y) && Linked(links, y, z)
    ensures Reaches(links, x, z)
  {
    var p :| IsPath(links, p) && Joins(p, x, y);
    var q := p + [z];
    forall i | 0 <= i < |q| - 1
      ensures Linked(links, q[i], q[i + 1])
    {
      if i < |p| - 1 {
        assert Linked(links, p[i], p[i + 1]);
      }
    }
    assert IsPath(links, q) && Joins(q, x, z);
  }

  /** The front of a path is a path, and its last link joins on. */
  lemma PathFront(links: seq<Link>, p: seq<AgentId>)
    requires IsPath(links, p) && |p| > 1
    ensures IsPath(links, p[..|p| - 1]) && Linked(links, p[|p| - 2], p[|p| - 1])
  {
    var q := p[..|p| - 1];
    forall i | 0 <= i < |q| - 1
      ensures Linked(links, q[i], q[i + 1])
    {
      assert Linked(links, p[i], p[i + 1]);
    }
    assert Linked(links, p[|p| - 2], p[|p| - 2 + 1]);
  }

  lemma {:induction false} ReachesAlong(links: seq<Link>, x: AgentId, p: seq<AgentId>)
    requires IsPath(links, p) && Reaches(links, x, p[0])
    ensures Reaches(links, x, p[|p| - 1])
  {
    if |p| > 1 {
      PathFront(links, p);
      ReachesAlong(links, x, p[..|p| - 1]);
      ReachesStep(links, x, p[|p| - 2], p[|p| - 1]);
    }
  }

  lemma ReachesThrough(links: seq<Link>, x: AgentId, y: AgentId, z: AgentId)
    requires Reaches(links, x, y) && Reaches(links, y, z)
    ensures Reaches(links, x, z)
  {
    var p :| IsPath(links, p) && Joins(p, y, z);
    ReachesAlong(links, x, p);
  }

  lemma ReachesInGrown(links: seq<Link>, l: Link, x: AgentId, y: AgentId)
    requires Reaches(links, x, y)
    ensures Reaches(links + [l], x, y)
  {
    var p :| IsPath(links, p) && Joins(p, x, y);
    forall i | 0 <= i < |p| - 1
      ensures Linked(links + [l], p[i], p[i + 1])
    {
      LinkedAppend(links, l, p[i], p[i + 1]);
    }
    assert IsPath(links + [l], p);
  }

  /** A path in the grown graph was there before, or goes through the new link. */
  lemma {:induction false} GrownPathSplits(links: seq<Link>, l: Link, p: seq<AgentId>)
    requires IsPath(links + [l], p)
    ensures
      || Reaches(links, p[0], p[|p| - 1])
      || (Reaches(links, p[0], l.from) && Reaches(links, l.to, p[|p| - 1]))
  {
    if |p| == 1 {
      ReachesSelf(links, p[0]);
    } else {
      var x, y, z := p[0], p[|p| - 2], p[|p| - 1];
      PathFront(links + [l], p);
      GrownPathSplits(links, l, p[..|p| - 1]);
      LinkedAppend(links, l, y, z);
      if !Linked(links, y, z) {
        ReachesSelf(links, l.to);
      } else if Reaches(links, x, y) {
        ReachesStep(links, x, y, z);
      } else {
        ReachesStep(links, l.to, y, z);
      }
    }
  }

  // ---------------------------------------------------------------------------
  // When a link closes a cycle
  // ---------------------------------------------------------------------------

  /** No old link lies on a cycle of the grown graph unless the new link does. */
  lemma OldLinkOffCycle(links: seq<Link>, l: Link, x: AgentId, y: AgentId)
    requires LinksAcyclic(links) && !Reaches(links, l.to, l.from) && Linked(links + [l], x, y)
    ensures !Reaches(links + [l], y, x)
  {
    LinkedAppend(links, l, x, y);
    if Reaches(links + [l], y, x) {
      var p :| IsPath(links + [l], p) && Joins(p, y, x);
      GrownPathSplits(links, l, p);
      if Linked(links, x, y) {
        ReachesStep(links, l.to, x, y);
        ReachesThrough(links, l.to, y, l.from);
      }
    }
  }

  /** One more link keeps the links acyclic exactly when its target does not already reach its source. */
  lemma LinkClosesCycleIff(links: seq<Link>, l: Link)
    requires LinksAcyclic(links)
    ensures LinksAcyclic(links + [l]) <==> !Reaches(links, l.to, l.from)
  {
    if Reaches(links, l.to, l.from) {
      ReachesInGrown(links, l, l.to, l.from);
      LinkedAppend(links, l, l.from, l.to);
    } else {
      forall x, y | Linked(links + [l], x, y)
        ensures !Reaches(links + [l], y, x)
      {
        OldLinkOffCycle(links, l, x, y);
      }
    }
  }

  /** Removing the last link opens no cycle. */
  lemma FewerLinksAcyclic(links: seq<Link>, l: Link)
    requires LinksAcyclic(links + [l])
    ensures LinksAcyclic(links)
  {
    forall x, y | Linked(links, x, y)
      ensures !Reaches(links, y, x)
    {
      LinkedAppend(links, l, x, y);
      if Reaches(links, y, x) {
        ReachesInGrown(links, l, y, x);
      }
    }
  }

  /** The operation is a delegation that the registry accepts although its target already reaches its source. */
  ghost predicate ClosesCycle(r: Reg, op: Op) {
    && op.Delegate?
    && Refusal(r.agents, r.links, op.from, op.to, op.scope).None?
    && Reaches(r.links, op.to, op.from)
  }

  lemma StepClosesCycleIff(r: Reg, op: Op)
    ensures LinksAcyclic(Next(r, op).links) <==> LinksAcyclic(r.links) && !ClosesCycle(r, op)
  {
    if op.Delegate? && Refusal(r.agents, r.links, op.from, op.to, op.scope).None? {
      var l := Link(op.from, op.to, op.scope, op.now, op.expiresAt);
      if LinksAcyclic(r.links) {
        LinkClosesCycleIff(r.links, l);
      } else if LinksAcyclic(r.links + [l]) {
        FewerLinksAcyclic(r.links, l);
      }
    }
  }

  /** No cycle was closed by the first `n` operations. */
  ghost predicate NoCycleClosed(rs: seq<Reg>, ops: seq<Op>, n: nat)
    requires n <= |ops| && n <= |rs|
  {
    forall k {:trigger ops[k]} :: 0 <= k < n ==> !ClosesCycle(rs[k], ops[k])
  }

  lemma NoCycleClosedNext(rs: seq<Reg>, ops: seq<Op>, n: nat)
    requires n < |ops| && n < |rs|
    ensures NoCycleClosed(rs, ops, n + 1) <==> NoCycleClosed(rs, ops, n) && !ClosesCycle(rs[n], ops[n])
  {
  }

  /**
   * In every reachable state the links form no cycle if and only if no delegation was accepted
   * whose target already reached its source along any links, which can be asked before the call.
   */
  lemma {:induction false} LinksAcyclicIff(rs: seq<Reg>, ops: seq<Op>, i: nat)
    requires IsRun(rs, ops) && i < |rs|
    ensures LinksAcyclic(rs[i].links) <==> NoCycleClosed(rs, ops, i)
  {
    if i > 0 {
      LinksAcyclicIff(rs, ops, i - 1);
      NoCycleClosedNext(rs, ops, i - 1);
      assert rs[i] == Next(rs[i - 1], ops[i - 1]);
      StepClosesCycleIff(rs[i - 1], ops[i - 1]);
    }
  }

  /** Only the forest is acyclic: three accepted delegations can close a cycle of links. */
  lemma LinksMayFormCycle(a: Agent, b: Agent, c: Agent)
    requires a.id == 1 && b.id == 2 && c.id == 3 && a.active && b.active && c.active
    requires a.owner == b.owner == c.owner && "read" in a.capabilities && "read" in b.capabilities && "read" in c.capabilities
    ensures var agents := map[1 := a, 2 := b, 3 := c];
            var l := (x, y) => Link(x, y, ["read"], 0, None);
            && Refusal(agents, [], 1, 2, ["read"]).None?
            && Refusal(agents, [l(1, 2)], 3, 2, ["read"]).None?
            && Refusal(agents, [l(1, 2), l(3, 2)], 2, 3, ["read"]).None?
            && IsPath([l(1, 2), l(3, 2), l(2, 3)], [2, 3, 2])
  {
    var l := (x, y) => Link(x, y, ["read"], 0, None);
    Root([], 1, 2);
    Root([l(1, 2)], 3, 2);
    assert FirstUnheld(a.capabilities, ["read"]).None?;
    assert FirstUnheld(b.capabilities, ["read"]).None?;
    assert FirstUnheld(c.capabilities, ["read"]).None?;
    var two := [l(1, 2), l(3, 2)];
    assert FirstInto(two, 2) == Some(two[0]);
    forall k: nat
      ensures Ancestor(two, 2, k) != Some(3)
      ensures k >= 2 ==> Ancestor(two, 2, k).None?
    {
      if k > 0 {
        assert Ancestor(two, 2, k) == Ancestor(two, 1, k - 1);
        Root(two, 1, 3);
        if k > 1 {
          NoneAbove(two, 1, 1, k - 1);
        }
      }
    }
    var three := [l(1, 2), l(3, 2), l(2, 3)];
    var p := [2, 3, 2];
    assert three[2].from == 2 && three[2].to == 3 && three[1].from == 3 && three[1].to == 2;
    assert IsPath(three, p);
  }
}
