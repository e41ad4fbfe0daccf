/**
 * What a policy decision means for the caller, said in the fields of policies, agents and requests:
 * which effect decides what, and what an agent and its request must have for a policy to match.
 */
module Verdicts {
  import opened Common
  import opened Delegation
  import opened Mcp
  import opened Policy
  import opened Evaluate

  // ---------------------------------------------------------------------------
  // Dotted paths
  // ---------------------------------------------------------------------------

  /** The segments with a dot between neighbours. */
  function JoinDots(segments: seq<string>): string
    requires segments != []
  {
    if |segments| == 1 then segments[0] else segments[0] + ['.'] + JoinDots(segments[1..])
  }

  /** The segments are free of dots and spell the path. */
  ghost predicate Spells(segments: seq<string>, path: string) {
    segments != [] && JoinDots(segments) == path && forall i :: 0 <= i < |segments| ==> '.' !in segments[i]
  }

  lemma {:induction false} SplitSpells(path: string)
    ensures Spells(SplitDots(path), path)
  {
    if path != [] {
      var rest := SplitDots(path[1..]);
      SplitSpells(path[1..]);
      if path[0] == '.' {
        assert ([[]] + rest)[1..] == rest;
        assert path == [] + ['.'] + path[1..];
      } else {
        FirstLonger(path[0], rest, [[path[0]] + rest[0]] + rest[1..]);
        assert path == [path[0]] + path[1..];
      }
    }
  }

  lemma FirstLonger(c: char, rest: seq<string>, longer: seq<string>)
    requires rest != [] && longer == [[c] + rest[0]] + rest[1..]
    ensures JoinDots(longer) == [c] + JoinDots(rest)
  {
    assert longer[1..] == rest[1..];
  }

  /** A path has one spelling only. */
  lemma {:induction false} SpellingIsSplit(segments: seq<string>, path: string)
    requires Spells(segments, path)
    ensures segments == SplitDots(path)
    decreases |path|
  {
    var first := segments[0];
    if first == [] {
      if |segments| > 1 {
        assert path == ['.'] + JoinDots(segments[1..]);
        assert path[1..] == JoinDots(segments[1..]);
        SpellingIsSplit(segments[1..], path[1..]);
        assert segments == [[]] + segments[1..];
      }
    } else {
      var rest := [first[1..]] + segments[1..];
      assert rest[1..] == segments[1..] && first == [first[0]] + rest[0];
      assert segments == [first] + segments[1..];
      FirstLonger(first[0], rest, segments);
      assert segments[0] == [first[0]] + rest[0] && path == [first[0]] + JoinDots(rest);
      assert path[1..] == JoinDots(rest) && path[0] == first[0] && path[0] in segments[0];
      SpellingIsSplit(rest, path[1..]);
      assert segments == [[path[0]] + rest[0]] + rest[1..];
    }
  }

  /** The argument at a dotted key, along the pieces that, as shown above, are the only ones to spell it. */
  ghost predicate ArgumentAt(args: Json, key: string, x: Json) {
    Descend(args, SplitDots(key)) == Some(x)
  }

  /** No pieces lead to the value itself; further ones lead on exactly from its field of the first name. */
  lemma DescendSteps(value: Json, first: string, rest: seq<string>)
    ensures Descend(value, []) == Some(value)
    ensures Descend(value, [first] + rest) ==
            if value.JObj? && first in value.fields then Descend(value.fields[first], rest) else None
  {
    assert ([first] + rest)[1..] == rest;
  }

  // ---------------------------------------------------------------------------
  // What a policy asks for
  // ---------------------------------------------------------------------------

  /** From least to most trusted. */
  const LADDER := [Untrusted, Basic, Verified, Trusted]

  ghost predicate NotBelow(have: TrustLevel, need: TrustLevel) {
    exists i, j :: 0 <= i <= j < 4 && LADDER[i] == need && LADDER[j] == have
  }

  lemma RankIsPlace(have: TrustLevel, need: TrustLevel)
    ensures Rank(have) >= Rank(need) <==> NotBelow(have, need)
  {
    assert LADDER[0] == Untrusted && LADDER[1] == Basic && LADDER[2] == Verified && LADDER[3] == Trusted;
  }

  ghost predicate AgentFits(p: Rule, agent: Agent) {
    && (p.agentMatch.agentId == None || p.agentMatch.agentId == Some(agent.id))
    && (p.agentMatch.trustLevel == None || NotBelow(agent.trustLevel, p.agentMatch.trustLevel.value))
    && (forall c :: c in p.agentMatch.capabilities ==> c in agent.capabilities)
  }

  ghost predicate PrincipalFits(p: Rule, sub: string, groups: seq<string>) {
    && (p.principalMatch.sub == None || p.principalMatch.sub == Some(sub))
    && (p.principalMatch.groups == [] || exists g :: g in p.principalMatch.groups && g in groups)
  }

  ghost predicate UriFits(p: Rule, request: McpRequest) {
    p.resourceMatch == [] ||
    (request.resourceUri != None && exists prefix :: prefix in p.resourceMatch && prefix <= request.resourceUri.value)
  }

  /** A wildcard asks for the resource only, a tool must be listed whatever its case, another method as it is spelled. */
  ghost predicate ToolFits(text: Text, p: Rule, request: McpRequest) {
    if p.allowedTools == [] || "*" in p.allowedTools then UriFits(p, request)
    else match request.toolName
      case Some(tool) => exists t :: t in p.allowedTools && text.lower(t) == text.lower(tool)
      case None => request.rpcMethod in p.allowedTools && request.rpcMethod != "tools/call" && UriFits(p, request)
  }

  /** Bounds ask for a number within them, a list of values for a string in it. */
  ghost predicate ValueFits(c: Constraint, x: Json) {
    && (c.max == None || (x.JNum? && x.n <= c.max.value))
    && (c.min == None || (x.JNum? && x.n >= c.min.value))
    && (c.allowed == [] || (x.JStr? && x.s in c.allowed))
  }

  ghost predicate HasFitting(args: Json, c: Constraint) {
    exists x :: ArgumentAt(args, c.key, x) && ValueFits(c, x)
  }

  ghost predicate ArgumentsFit(p: Rule, request: McpRequest) {
    p.constraints == [] ||
    (request.arguments != None && forall c :: c in p.constraints ==> HasFitting(request.arguments.value, c))
  }

  /** Every keyword is a word of the lower-cased intent and the expression matches the intent. */
  ghost predicate IntentFits(text: Text, p: Rule, intent: string) {
    var m := p.intentMatch;
    && (if m.compiledKeywords != [] then
          forall k :: k in m.compiledKeywords ==> text.isMatch(k, text.lower(intent))
        else
          forall k :: k in m.keywords ==>
                        text.valid("\\b" + text.escape(text.lower(k)) + "\\b")
                        && text.isMatch("\\b" + text.escape(text.lower(k)) + "\\b", text.lower(intent)))
    && (match m.compiledRegex
        case Some(re) => text.isMatch(re, intent)
        case None => m.regex == None || (text.valid(m.regex.value) && text.isMatch(m.regex.value, intent)))
  }

  lemma UriFitsIff(p: Rule, request: McpRequest)
    ensures MatchesResourceUri(p, request) <==> UriFits(p, request)
  {
    if p.resourceMatch != [] && request.resourceUri != None {
      var uri := request.resourceUri.value;
      if i :| 0 <= i < |p.resourceMatch| && p.resourceMatch[i] <= uri {
        assert p.resourceMatch[i] in p.resourceMatch;
      }
      if prefix :| prefix in p.resourceMatch && prefix <= uri {
        var i :| 0 <= i < |p.resourceMatch| && p.resourceMatch[i] == prefix;
      }
    }
  }

  lemma ToolFitsIff(text: Text, p: Rule, request: McpRequest)
    ensures MatchesTool(text, p, request) <==> ToolFits(text, p, request)
  {
    UriFitsIff(p, request);
    if request.toolName != None && exists t :: t in p.allowedTools && text.lower(t) == text.lower(request.toolName.value) {
      var t :| t in p.allowedTools && text.lower(t) == text.lower(request.toolName.value);
      var i :| 0 <= i < |p.allowedTools| && p.allowedTools[i] == t;
    }
  }

  lemma AgentFitsIff(p: Rule, ctx: EvalContext)
    ensures MatchesAgent(p.agentMatch, ctx) <==> AgentFits(p, ctx.agent)
  {
    if p.agentMatch.trustLevel != None {
      RankIsPlace(ctx.agent.trustLevel, p.agentMatch.trustLevel.value);
    }
  }

  lemma PrincipalFitsIff(p: Rule, ctx: EvalContext)
    ensures MatchesPrincipal(p.principalMatch, ctx) <==> PrincipalFits(p, ctx.principalSub, ctx.principalGroups)
  {
    var groups := p.principalMatch.groups;
    if exists g :: g in groups && g in ctx.principalGroups {
      var g :| g in groups && g in ctx.principalGroups;
      var i :| 0 <= i < |groups| && groups[i] == g;
    }
  }

  lemma IntentFitsIff(text: Text, p: Rule, intent: string)
    ensures MatchesIntent(text, p.intentMatch, intent) <==> IntentFits(text, p, intent)
  {
  }

  lemma ValueFitsIff(c: Constraint, args: Json)
    ensures Satisfies(c, args) <==> HasFitting(args, c)
  {
    var found := Descend(args, SplitDots(c.key));
    if found != None && ValueFits(c, found.value) {
      assert ArgumentAt(args, c.key, found.value);
    }
  }

  lemma ArgumentsFitIff(p: Rule, request: McpRequest)
    ensures MatchesConstraints(p.constraints, request) <==> ArgumentsFit(p, request)
  {
    if request.arguments != None {
      forall i | 0 <= i < |p.constraints|
        ensures Satisfies(p.constraints[i], request.arguments.value) <==> HasFitting(request.arguments.value, p.constraints[i])
      {
        ValueFitsIff(p.constraints[i], request.arguments.value);
      }
    }
  }

  /** A policy matches exactly when agent, principal, intent, tool and arguments all fit. */
  ghost predicate Fits(text: Text, p: Rule, ctx: EvalContext, request: McpRequest) {
    && AgentFits(p, ctx.agent) && PrincipalFits(p, ctx.principalSub, ctx.principalGroups)
    && IntentFits(text, p, ctx.intent) && ToolFits(text, p, request) && ArgumentsFit(p, request)
  }

  lemma MatchesIff(text: Text, p: Rule, ctx: EvalContext, request: McpRequest)
    ensures Matches(text, p, ctx, request) <==> Fits(text, p, ctx, request)
  {
    AgentFitsIff(p, ctx);
    PrincipalFitsIff(p, ctx);
    IntentFitsIff(text, p, ctx.intent);
    ToolFitsIff(text, p, request);
    ArgumentsFitIff(p, request);
  }

  // ---------------------------------------------------------------------------
  // What is decided
  // ---------------------------------------------------------------------------

  /** The tool asked for, or the method when no tool is named, is within every narrowing of the chain. */
  ghost predicate WithinScope(chain: seq<Link>, request: McpRequest) {
    forall l :: l in chain && |l.scope| > 0 ==>
                  match request.toolName
                  case Some(tool) => tool in l.scope
                  case None => request.rpcMethod in l.scope
  }

  lemma ScopeIff(chain: seq<Link>, request: McpRequest)
    ensures InScope(chain, Subject(request)) <==> WithinScope(chain, request)
  {
    if WithinScope(chain, request) {
      forall i | 0 <= i < |chain|
        ensures chain[i].scope == [] || Subject(request) in chain[i].scope
      {
        assert chain[i] in chain;
      }
    }
  }

  /** In scope, the effect and disposition of the winning policy fix the decision. */
  lemma WinnerDecides(text: Text, ps: seq<Rule>, ctx: EvalContext, request: McpRequest, d: Decision, i: nat)
    requires Decides(text, ps, ctx, request, d) && WithinScope(ctx.chain, request) && Wins(text, ps, ctx, request, i)
    ensures d.Allowed? <==> ps[i].effect == Allow
    ensures d.Denied? <==> ps[i].effect == Deny && ps[i].disposition == Block
    ensures d.Annotated? <==> ps[i].effect == Deny && ps[i].disposition == Annotate
    ensures d.Escalated? <==> ps[i].effect == Escalate
    ensures (d.Allowed? || d.Annotated?) ==> d.policyId == ps[i].id
    ensures (d.Denied? || d.Annotated?) ==> d.reason == "denied by policy '" + ps[i].id + "'"
    ensures d.Escalated? ==> d.reason == "escalation required by policy '" + ps[i].id + "'"
  {
    ScopeIff(ctx.chain, request);
    var j: nat :| Wins(text, ps, ctx, request, j) && d == Apply(ps[j]);
    WinnerUnique(text, ps, ctx, request, i, j);
  }

  /** An allowed request is in scope and fits a listed Allow policy, with none more specific that fits. */
  lemma AllowedMeans(text: Text, ps: seq<Rule>, ctx: EvalContext, request: McpRequest, d: Decision) returns (i: nat)
    requires Decides(text, ps, ctx, request, d) && d.Allowed?
    ensures WithinScope(ctx.chain, request)
    ensures i < |ps| && ps[i].id == d.policyId && ps[i].effect == Allow && Fits(text, ps[i], ctx, request)
    ensures forall j :: 0 <= j < |ps| && Fits(text, ps[j], ctx, request) ==>
                          Specificity(ps[j]) < Specificity(ps[i]) || (Specificity(ps[j]) == Specificity(ps[i]) && i <= j)
  {
    ScopeIff(ctx.chain, request);
    i :| Wins(text, ps, ctx, request, i) && d == Apply(ps[i]);
    WinnerDecides(text, ps, ctx, request, d, i);
    forall j | 0 <= j < |ps|
      ensures Matches(text, ps[j], ctx, request) <==> Fits(text, ps[j], ctx, request)
    {
      MatchesIff(text, ps[j], ctx, request);
    }
  }

  ghost predicate NoneFit(text: Text, ps: seq<Rule>, ctx: EvalContext, request: McpRequest) {
    forall j :: 0 <= j < |ps| ==> !Fits(text, ps[j], ctx, request)
  }

  lemma NoneFitIff(text: Text, ps: seq<Rule>, ctx: EvalContext, request: McpRequest)
    ensures NoneMatch(text, ps, ctx, request) <==> NoneFit(text, ps, ctx, request)
  {
    forall j | 0 <= j < |ps|
      ensures Matches(text, ps[j], ctx, request) <==> Fits(text, ps[j], ctx, request)
    {
      MatchesIff(text, ps[j], ctx, request);
    }
  }

  /** A request is denied exactly when it is out of scope, fits no policy, or a blocking deny wins. */
  lemma DeniedIff(text: Text, ps: seq<Rule>, ctx: EvalContext, request: McpRequest, d: Decision)
    requires Decides(text, ps, ctx, request, d)
    ensures d.Denied? <==>
            || !WithinScope(ctx.chain, request)
            || NoneFit(text, ps, ctx, request)
            || (exists i: nat :: Wins(text, ps, ctx, request, i) && ps[i].effect == Deny && ps[i].disposition == Block)
  {
    ScopeIff(ctx.chain, request);
    NoneFitIff(text, ps, ctx, request);
    if WithinScope(ctx.chain, request) && !NoneMatch(text, ps, ctx, request) {
      var i: nat :| Wins(text, ps, ctx, request, i) && d == Apply(ps[i]);
      WinnerDecides(text, ps, ctx, request, d, i);
      if j: nat :| Wins(text, ps, ctx, request, j) && ps[j].effect == Deny && ps[j].disposition == Block {
        WinnerUnique(text, ps, ctx, request, i, j);
      }
    }
  }

  /** What a denial says when no policy decided it. */
  lemma DeniedReasons(text: Text, ps: seq<Rule>, ctx: EvalContext, request: McpRequest, d: Decision)
    requires Decides(text, ps, ctx, request, d)
    ensures !WithinScope(ctx.chain, request) ==>
              d == Denied("tool '" + (match request.toolName case Some(tool) => tool case None => request.rpcMethod)
                          + "' not in delegation scope narrowing")
    ensures WithinScope(ctx.chain, request) && NoneFit(text, ps, ctx, request) ==>
              d == Denied("no matching policy found (deny-by-default)")
  {
    ScopeIff(ctx.chain, request);
    NoneFitIff(text, ps, ctx, request);
  }

  /** The reason for skipping a policy names the first criterion that does not fit. */
  lemma SkipReasons(text: Text, p: Rule, ctx: EvalContext, request: McpRequest)
    ensures var r := ExplainMismatch(text, p, ctx, request);
            if !AgentFits(p, ctx.agent) then r == Some("agent criteria not met")
            else if !PrincipalFits(p, ctx.principalSub, ctx.principalGroups) then r == Some("principal criteria not met")
            else if !IntentFits(text, p, ctx.intent) then r == Some("intent criteria not met")
            else if !ToolFits(text, p, request) then
              r == Some("tool '" + (match request.toolName case Some(tool) => tool case None => "(none)") + "' not in allowed_tools")
            else if !ArgumentsFit(p, request) then r == Some("parameter constraints not met")
            else r == None
  {
    AgentFitsIff(p, ctx);
    PrincipalFitsIff(p, ctx);
    IntentFitsIff(text, p, ctx.intent);
    ToolFitsIff(text, p, request);
    ArgumentsFitIff(p, request);
  }

  /** Each trace entry reports its policy's fields, whether it fits, and a reason exactly when it does not. */
  lemma TraceMeans(text: Text, p: Rule, ctx: EvalContext, request: McpRequest, now: int)
    ensures var t := TraceOf(text, p, ctx, request, now);
            && t.policyId == p.id && (t.matched <==> Fits(text, p, ctx, request)) && (t.skipReason == None <==> t.matched)
            && t.effect == (if p.effect == Allow then "allow" else if p.effect == Deny then "deny" else "escalate")
            && t.disposition == (if p.disposition == Block then "block" else "annotate")
            && t.specificity == Specificity(p) && t.agentId == ctx.agent.id && t.principalSub == ctx.principalSub
            && t.toolName == (match request.toolName case Some(tool) => tool case None => request.rpcMethod)
            && t.timestamp == now
  {
    MatchesIff(text, p, ctx, request);
  }

  // ---------------------------------------------------------------------------
  // Specificity, criterion by criterion
  // ---------------------------------------------------------------------------

  function Bare(p: Rule): Rule {
    p.(agentMatch := AgentMatch(None, None, []), principalMatch := PrincipalMatch(None, []),
       intentMatch := p.intentMatch.(keywords := [], regex := None))
  }

  /** A policy without criteria scores nothing and a priority overrides any score. */
  lemma SpecificityBase(p: Rule)
    ensures p.priority != 0 ==> Specificity(p) == p.priority
    ensures p.priority == 0 ==> Specificity(Bare(p)) == 0
  {
  }

  /** What each criterion adds to the score; a fourth capability and what is matched otherwise add nothing. */
  lemma SpecificitySteps(p: Rule, id: AgentId, level: TrustLevel, capability: string, sub: string, group: string,
                         regex: string, keyword: string)
    requires p.priority == 0
    ensures var m := p.agentMatch;
            && (m.agentId == None ==> Specificity(p.(agentMatch := m.(agentId := Some(id)))) == Specificity(p) + 100)
            && (m.trustLevel == None ==> Specificity(p.(agentMatch := m.(trustLevel := Some(level)))) == Specificity(p) + 50)
            && Specificity(p.(agentMatch := m.(capabilities := m.capabilities + [capability]))) ==
               Specificity(p) + if |m.capabilities| < 3 then 25 else 0
    ensures var m := p.principalMatch;
            && (m.sub == None ==> Specificity(p.(principalMatch := m.(sub := Some(sub)))) == Specificity(p) + 40)
            && Specificity(p.(principalMatch := m.(groups := m.groups + [group]))) == Specificity(p) + 20
    ensures var m := p.intentMatch;
            && (m.regex == None ==> Specificity(p.(intentMatch := m.(regex := Some(regex)))) == Specificity(p) + 30)
            && Specificity(p.(intentMatch := m.(keywords := m.keywords + [keyword]))) == Specificity(p) + 10
  {
  }

  lemma SpecificityIgnores(p: Rule, q: Rule)
    requires p.priority == q.priority && p.agentMatch == q.agentMatch && p.principalMatch == q.principalMatch
    requires p.intentMatch.keywords == q.intentMatch.keywords && p.intentMatch.regex == q.intentMatch.regex
    ensures Specificity(p) == Specificity(q)
  {
  }

  // ---------------------------------------------------------------------------
  // Loading
  // ---------------------------------------------------------------------------

  /** Which configurations load: distinct ids, priorities up to 1000, usable patterns, and no Allow of everything. */
  lemma LoadableIff(text: Text, ps: seq<Rule>)
    ensures Loadable(text, ps) <==>
            && (forall i, j :: 0 <= i < |ps| && 0 <= j < |ps| && ps[i].id == ps[j].id ==> i == j)
            && (forall p :: p in ps ==> p.priority <= 1000)
            && (forall p :: p in ps && p.intentMatch.regex != None ==>
                              Utf8Len(p.intentMatch.regex.value) <= 500 && text.valid(p.intentMatch.regex.value))
            && (forall p, k :: p in ps && k in p.intentMatch.keywords ==>
                                 text.valid("\\b" + text.escape(text.lower(k)) + "\\b"))
            && (forall p :: p in ps && p.effect == Allow ==> |p.allowedTools| > 0 || |p.resourceMatch| > 0)
  {
  }

  /** What is wrong with the patterns of a policy: too long an expression, an unusable one, or the first unusable keyword. */
  lemma PatternErrorMeans(text: Text, p: Rule)
    requires !PatternsValid(text, p.intentMatch)
    ensures var m, e := p.intentMatch, PatternError(text, p);
            if m.regex != None && Utf8Len(m.regex.value) > 500 then e == RegexTooLong(p.id, Utf8Len(m.regex.value))
            else if m.regex != None && !text.valid(m.regex.value) then
              e == InvalidRegex(p.id, m.regex.value, text.reason(m.regex.value))
            else
              exists k :: && 0 <= k < |m.keywords| && UnusableAt(text, m.keywords, k)
                          && e == InvalidRegex(p.id, WordPattern(text, m.keywords[k]), text.reason(WordPattern(text, m.keywords[k])))
  {
    var m := p.intentMatch;
    if !(m.regex != None && Utf8Len(m.regex.value) > 500) && !(m.regex != None && !text.valid(m.regex.value)) {
      FirstInvalidIs(text, m.keywords, KeywordPatterns(text, m.keywords));
    }
  }

  function WordPattern(text: Text, keyword: string): string {
    "\\b" + text.escape(text.lower(keyword)) + "\\b"
  }

  /** The first keyword whose pattern the library refuses. */
  ghost predicate UnusableAt(text: Text, keywords: seq<string>, k: nat) {
    && k < |keywords| && !text.valid(WordPattern(text, keywords[k]))
    && forall j :: 0 <= j < k ==> text.valid(WordPattern(text, keywords[j]))
  }

  lemma {:induction false} FirstInvalidIs(text: Text, keywords: seq<string>, patterns: seq<string>)
    requires |patterns| == |keywords| && forall i :: 0 <= i < |keywords| ==> patterns[i] == WordPattern(text, keywords[i])
    requires FirstInvalid(text, patterns) != None
    ensures exists k :: && 0 <= k < |keywords| && UnusableAt(text, keywords, k)
                        && FirstInvalid(text, patterns) == Some(WordPattern(text, keywords[k]))
    decreases |keywords|
  {
    if !text.valid(patterns[0]) {
      assert UnusableAt(text, keywords, 0);
    } else {
      var rest := keywords[1..];
      FirstInvalidIs(text, rest, patterns[1..]);
      var k :| && 0 <= k < |rest| && UnusableAt(text, rest, k)
               && FirstInvalid(text, patterns[1..]) == Some(WordPattern(text, rest[k]));
      forall j | 0 <= j < k + 1
        ensures text.valid(WordPattern(text, keywords[j]))
      {
        assert j > 0 ==> keywords[j] == rest[j - 1];
      }
      assert UnusableAt(text, keywords, k + 1) && keywords[k + 1] == rest[k];
    }
  }
}
