/** Delegated scope across the registry and the policy evaluator. */
module EndToEnd {
  import opened Common
  import opened Delegation
  import opened Lifecycle
  import opened Mcp
  import opened Policy
  import opened Evaluate

  /**
   * In every reachable registry state: if the evaluator, given the chain that the registry walks
   * for an agent, decides anything but a denial, then the tool (or method) was handed on by every
   * link, is a capability of every delegator on the chain, and all of them share the agent's owner.
   */
  lemma DelegatedScope(rs: seq<Reg>, ops: seq<Op>, n: nat, text: Text, ps: seq<Rule>, ctx: EvalContext,
                       request: McpRequest, d: Decision, i: nat)
    requires IsRun(rs, ops) && n < |rs| && IsChainOf(rs[n].links, ctx.agent.id, ctx.chain)
    requires Decides(text, ps, ctx, request, d) && !d.Denied?
    requires i < |ctx.chain|
    ensures var delegator := ctx.chain[i].from;
            && ctx.agent.id in rs[n].agents && delegator in rs[n].agents
            && Subject(request) in ctx.chain[i].scope
            && Subject(request) in rs[n].agents[delegator].capabilities
            && rs[n].agents[delegator].owner == rs[n].agents[ctx.agent.id].owner
  {
    RunKeepsInv(rs, ops, n);
    ChainOwners(rs[n], ctx.agent.id, ctx.chain, i);
    assert InScope(ctx.chain, Subject(request));
    var k :| 0 <= k < |ctx.chain[i].scope| && ctx.chain[i].scope[k] == Subject(request);
  }
}
