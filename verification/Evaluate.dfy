/** The policy evaluator (arbiter-policy/src/eval.rs): deny by default, most specific match wins. */
module Evaluate {
  import opened Common
  import opened Delegation
  import opened Mcp
  import opened Policy
  import opened StableSort

  datatype Decision =
    | Allowed(policyId: string)
    | Denied(reason: string)
    | Escalated(reason: string)
    | Annotated(policyId: string, reason: string)

  datatype PolicyTrace = PolicyTrace(
    policyId: string,
    matched: bool,
    effect: string,
    specificity: int,
    disposition: string,
    skipReason: Option<string>,
    agentId: AgentId,
    principalSub: string,
    toolName: string,
    timestamp: int)

  datatype EvalResult = EvalResult(decision: Decision, trace: seq<PolicyTrace>)

  const DEFAULT_DENY := Denied("no matching policy found (deny-by-default)")

  /** The tool of a request, or its method when it is no tool call. */
  function Subject(request: McpRequest): string {
    if request.toolName.Some? then request.toolName.value else request.rpcMethod
  }

  function EffectName(e: Effect): string {
    match e
    case Allow => "allow"
    case Deny => "deny"
    case Escalate => "escalate"
  }

  function DispositionName(d: Disposition): string {
    match d
    case Block => "block"
    case Annotate => "annotate"
  }

  function TraceOf(text: Text, p: Rule, ctx: EvalContext, request: McpRequest, now: int): PolicyTrace {
    PolicyTrace(p.id, Matches(text, p, ctx, request), EffectName(p.effect), Specificity(p), DispositionName(p.disposition),
                ExplainMismatch(text, p, ctx, request), ctx.agent.id, ctx.principalSub, Subject(request), now)
  }

  function Apply(p: Rule): Decision {
    match p.effect
    case Allow => Allowed(p.id)
    case Deny =>
      (match p.disposition
       case Block => Denied("denied by policy '" + p.id + "'")
       case Annotate => Annotated(p.id, "denied by policy '" + p.id + "'"))
    case Escalate => Escalated("escalation required by policy '" + p.id + "'")
  }

  // ---------------------------------------------------------------------------
  // The specification
  // ---------------------------------------------------------------------------

  /** Every link of the chain that narrows scopes names the subject. */
  ghost predicate InScope(chain: seq<Link>, subject: string) {
    forall i :: 0 <= i < |chain| ==> chain[i].scope == [] || subject in chain[i].scope
  }

  /** Policy `i` matches, no matching policy is more specific, and none listed before it is as specific. */
  ghost predicate Wins(text: Text, ps: seq<Rule>, ctx: EvalContext, request: McpRequest, i: nat) {
    && i < |ps|
    && Matches(text, ps[i], ctx, request)
    && forall j :: 0 <= j < |ps| && Matches(text, ps[j], ctx, request) ==>
                     Specificity(ps[j]) < Specificity(ps[i]) || (Specificity(ps[j]) == Specificity(ps[i]) && i <= j)
  }

  ghost predicate NoneMatch(text: Text, ps: seq<Rule>, ctx: EvalContext, request: McpRequest) {
    forall j :: 0 <= j < |ps| ==> !Matches(text, ps[j], ctx, request)
  }

  /** What the decision must be. */
  ghost predicate Decides(text: Text, ps: seq<Rule>, ctx: EvalContext, request: McpRequest, d: Decision) {
    if !InScope(ctx.chain, Subject(request)) then
      d == Denied("tool '" + Subject(request) + "' not in delegation scope narrowing")
    else if NoneMatch(text, ps, ctx, request) then d == DEFAULT_DENY
    else exists i: nat :: Wins(text, ps, ctx, request, i) && d == Apply(ps[i])
  }

  lemma WinnerUnique(text: Text, ps: seq<Rule>, ctx: EvalContext, request: McpRequest, i: nat, j: nat)
    requires Wins(text, ps, ctx, request, i) && Wins(text, ps, ctx, request, j)
    ensures i == j
  {
  }

  /** The specification leaves no choice. */
  lemma DecisionUnique(text: Text, ps: seq<Rule>, ctx: EvalContext, request: McpRequest, d: Decision, e: Decision)
    requires Decides(text, ps, ctx, request, d) && Decides(text, ps, ctx, request, e)
    ensures d == e
  {
    if InScope(ctx.chain, Subject(request)) && !NoneMatch(text, ps, ctx, request) {
      var i: nat :| Wins(text, ps, ctx, request, i) && d == Apply(ps[i]);
      var j: nat :| Wins(text, ps, ctx, request, j) && e == Apply(ps[j]);
      WinnerUnique(text, ps, ctx, request, i, j);
    }
  }

  // ---------------------------------------------------------------------------
  // The evaluator
  // ---------------------------------------------------------------------------

  /** The matching policies among the first `n`, in their order, with their places. */
  ghost predicate Gathers(text: Text, ps: seq<Rule>, ctx: EvalContext, request: McpRequest, n: nat, m: seq<Ranked<Rule>>, at: seq<nat>) {
    && n <= |ps| && |at| == |m|
    && (forall k :: 0 <= k < |m| ==>
          at[k] < n && m[k] == (ps[at[k]], Specificity(ps[at[k]])) && Matches(text, ps[at[k]], ctx, request))
    && (forall j, k :: 0 <= j < k < |m| ==> at[j] < at[k])
    && (forall i :: 0 <= i < n && Matches(text, ps[i], ctx, request) ==> i in at)
  }

  lemma GatherNext(text: Text, ps: seq<Rule>, ctx: EvalContext, request: McpRequest, n: nat, m: seq<Ranked<Rule>>, at: seq<nat>)
    requires Gathers(text, ps, ctx, request, n, m, at) && n < |ps|
    ensures !Matches(text, ps[n], ctx, request) ==> Gathers(text, ps, ctx, request, n + 1, m, at)
    ensures Matches(text, ps[n], ctx, request) ==>
              Gathers(text, ps, ctx, request, n + 1, m + [(ps[n], Specificity(ps[n]))], at + [n])
  {
    var at' := at + [n];
    forall i | 0 <= i < n + 1 && Matches(text, ps[i], ctx, request) && i != n
      ensures i in at && i in at'
    {
      var k :| 0 <= k < |at| && at[k] == i;
      assert at'[k] == i;
    }
    assert at'[|at|] == n;
  }

  /** The head of the sorted matches is the winner. */
  lemma HeadWins(text: Text, ps: seq<Rule>, ctx: EvalContext, request: McpRequest, m: seq<Ranked<Rule>>, at: seq<nat>, s: seq<Ranked<Rule>>)
    returns (i: nat)
    requires Gathers(text, ps, ctx, request, |ps|, m, at) && m != []
    requires Sorted(s) && SameByKey(s, m) && forall x :: x in s <==> x in m
    ensures s != [] && Wins(text, ps, ctx, request, i) && s[0].0 == ps[i]
  {
    var k := SortedHead(m, s);
    i := at[k];
    forall j | 0 <= j < |ps| && Matches(text, ps[j], ctx, request)
      ensures Specificity(ps[j]) < Specificity(ps[i]) || (Specificity(ps[j]) == Specificity(ps[i]) && i <= j)
    {
      var l :| 0 <= l < |at| && at[l] == j;
      assert m[l].1 == Specificity(ps[j]);
    }
  }

  method EvaluateExplained(text: Text, policies: seq<Rule>, ctx: EvalContext, request: McpRequest, now: int)
    returns (r: EvalResult)
    ensures Decides(text, policies, ctx, request, r.decision)
    ensures |r.trace| == |policies|
    ensures forall i :: 0 <= i < |policies| ==> r.trace[i] == TraceOf(text, policies[i], ctx, request, now)
  {
    var trace: seq<PolicyTrace> := [];
    var matching: seq<Ranked<Rule>> := [];
    ghost var at: seq<nat> := [];
    for i := 0 to |policies|
      invariant |trace| == i && forall j :: 0 <= j < i ==> trace[j] == TraceOf(text, policies[j], ctx, request, now)
      invariant Gathers(text, policies, ctx, request, i, matching, at)
    {
      var policy := policies[i];
      var skip := ExplainMismatch(text, policy, ctx, request);
      var specificity := Specificity(policy);
      GatherNext(text, policies, ctx, request, i, matching, at);
      if skip.None? {
        matching := matching + [(policy, specificity)];
        at := at + [i];
      }
      trace := trace + [PolicyTrace(policy.id, skip.None?, EffectName(policy.effect), specificity,
                                    DispositionName(policy.disposition), skip, ctx.agent.id, ctx.principalSub,
                                    Subject(request), now)];
    }
    var decision := Choose(text, policies, ctx, request, matching, at);
    return EvalResult(decision, trace);
  }

  /** The sort, the walk along the delegation chain and the choice of the first match. */
  method Choose(text: Text, policies: seq<Rule>, ctx: EvalContext, request: McpRequest, matching: seq<Ranked<Rule>>, ghost at: seq<nat>)
    returns (d: Decision)
    requires Gathers(text, policies, ctx, request, |policies|, matching, at)
    ensures Decides(text, policies, ctx, request, d)
  {
    var sorted := Sort(matching);
    SortIsStable(matching);
    var subject := Subject(request);
    for i := 0 to |ctx.chain|
      invariant InScope(ctx.chain[..i], subject)
    {
      if ctx.chain[i].scope != [] && subject !in ctx.chain[i].scope {
        return Denied("tool '" + subject + "' not in delegation scope narrowing");
      }
    }
    assert ctx.chain[..|ctx.chain|] == ctx.chain;
    if sorted == [] {
      return DEFAULT_DENY;
    }
    ghost var i := HeadWins(text, policies, ctx, request, matching, at, sorted);
    return Apply(sorted[0].0);
  }

  // ---------------------------------------------------------------------------
  // Consequences
  // ---------------------------------------------------------------------------

  /** With the subject in scope, deny-by-default happens exactly when no policy matches. */
  lemma DefaultDenyIffNoneMatch(text: Text, ps: seq<Rule>, ctx: EvalContext, request: McpRequest, d: Decision)
    requires Decides(text, ps, ctx, request, d) && InScope(ctx.chain, Subject(request))
    ensures d == DEFAULT_DENY <==> NoneMatch(text, ps, ctx, request)
  {
    if !NoneMatch(text, ps, ctx, request) {
      var i: nat :| Wins(text, ps, ctx, request, i) && d == Apply(ps[i]);
      if ps[i].effect == Deny && ps[i].disposition == Block {
        assert ("denied by policy '" + ps[i].id + "'")[0] == 'd';
        assert DEFAULT_DENY.reason[0] == 'n';
      }
    }
  }

  /** Where a policy ends up when another is inserted at `k`. */
  function Shifted(i: nat, k: nat): nat {
    if i < k then i else i + 1
  }

  /**
   * Inserting, anywhere, a policy that does not match, or one strictly less specific than some
   * match, changes no decision.
   */
  lemma IrrelevantPolicy(text: Text, ps: seq<Rule>, ctx: EvalContext, request: McpRequest, q: Rule, k: nat, d: Decision)
    requires k <= |ps| && Decides(text, ps, ctx, request, d)
    requires Matches(text, q, ctx, request) ==>
               exists j :: 0 <= j < |ps| && Matches(text, ps[j], ctx, request) && Specificity(ps[j]) > Specificity(q)
    ensures Decides(text, ps[..k] + [q] + ps[k..], ctx, request, d)
  {
    var qs := ps[..k] + [q] + ps[k..];
    assert forall i :: 0 <= i < |ps| ==> qs[Shifted(i, k)] == ps[i];
    if InScope(ctx.chain, Subject(request)) {
      if NoneMatch(text, ps, ctx, request) {
        forall i | 0 <= i < |qs|
          ensures !Matches(text, qs[i], ctx, request)
        {
          if i < k {
            assert qs[i] == ps[i];
          } else if i > k {
            assert qs[i] == ps[i - 1];
          }
        }
      } else {
        var i: nat :| Wins(text, ps, ctx, request, i) && d == Apply(ps[i]);
        WinnerShifts(text, ps, ctx, request, q, k, i);
        assert Matches(text, qs[Shifted(i, k)], ctx, request);
      }
    }
  }

  lemma WinnerShifts(text: Text, ps: seq<Rule>, ctx: EvalContext, request: McpRequest, q: Rule, k: nat, i: nat)
    requires k <= |ps| && Wins(text, ps, ctx, request, i)
    requires Matches(text, q, ctx, request) ==>
               exists j :: 0 <= j < |ps| && Matches(text, ps[j], ctx, request) && Specificity(ps[j]) > Specificity(q)
    ensures Wins(text, ps[..k] + [q] + ps[k..], ctx, request, Shifted(i, k))
  {
    var qs := ps[..k] + [q] + ps[k..];
    forall j | 0 <= j < |qs| && Matches(text, qs[j], ctx, request)
      ensures Specificity(qs[j]) < Specificity(ps[i]) || (Specificity(qs[j]) == Specificity(ps[i]) && Shifted(i, k) <= j)
    {
      if j < k {
        assert qs[j] == ps[j];
      } else if j > k {
        assert qs[j] == ps[j - 1];
      }
    }
  }

  /** Compiling a configuration does not change what is decided. */
  lemma CompilationKeepsDecisions(text: Text, ps: seq<Rule>, cs: seq<Rule>, ctx: EvalContext, request: McpRequest, d: Decision)
    requires Loadable(text, ps) && |cs| == |ps|
    requires forall i :: 0 <= i < |ps| ==> Uncompiled(ps[i]) && cs[i] == Compiled(text, ps[i])
    ensures Decides(text, ps, ctx, request, d) <==> Decides(text, cs, ctx, request, d)
  {
    forall i | 0 <= i < |ps|
      ensures Matches(text, cs[i], ctx, request) <==> Matches(text, ps[i], ctx, request)
      ensures Specificity(cs[i]) == Specificity(ps[i]) && Apply(cs[i]) == Apply(ps[i])
    {
      CompilationKeepsMeaning(text, ps[i], ctx, request);
    }
    assert forall i: nat :: Wins(text, cs, ctx, request, i) <==> Wins(text, ps, ctx, request, i);
  }
}
