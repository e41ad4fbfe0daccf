/** Policies and what they match (arbiter-policy/src/model.rs and the `matches_*` functions of eval.rs). */
module Policy {
  import opened Common
  import opened Delegation
  import opened Mcp

  /** What the code leaves to libraries: case folding, and regular expressions by their pattern. */
  datatype Text = Text(
    lower: string -> string,
    escape: string -> string,
    valid: string -> bool,
    reason: string -> string,
    isMatch: (string, string) -> bool)

  datatype Effect = Allow | Deny | Escalate

  datatype Disposition = Block | Annotate

  datatype AgentMatch = AgentMatch(agentId: Option<AgentId>, trustLevel: Option<TrustLevel>, capabilities: seq<string>)

  datatype PrincipalMatch = PrincipalMatch(sub: Option<string>, groups: seq<string>)

  /** A compiled regular expression is known by its pattern. */
  datatype IntentMatch = IntentMatch(
    keywords: seq<string>,
    regex: Option<string>,
    compiledRegex: Option<string>,
    compiledKeywords: seq<string>)

  datatype Constraint = Constraint(key: string, max: Option<real>, min: Option<real>, allowed: seq<string>)

  datatype Rule = Rule(
    id: string,
    agentMatch: AgentMatch,
    principalMatch: PrincipalMatch,
    intentMatch: IntentMatch,
    allowedTools: seq<string>,
    resourceMatch: seq<string>,
    constraints: seq<Constraint>,
    effect: Effect,
    disposition: Disposition,
    priority: int)

  datatype EvalContext = EvalContext(
    agent: Agent,
    chain: seq<Link>,
    intent: string,
    principalSub: string,
    principalGroups: seq<string>)

  function Rank(level: TrustLevel): nat {
    match level
    case Untrusted => 0
    case Basic => 1
    case Verified => 2
    case Trusted => 3
  }

  function AtMost(n: nat, cap: nat): nat {
    if n < cap then n else cap
  }

  /** Higher is more specific; a priority other than 0 replaces the computed score. */
  function Specificity(p: Rule): int {
    if p.priority != 0 then p.priority
    else
      (if p.agentMatch.agentId.Some? then 100 else 0)
      + (if p.agentMatch.trustLevel.Some? then 50 else 0)
      + AtMost(|p.agentMatch.capabilities|, 3) * 25
      + (if p.principalMatch.sub.Some? then 40 else 0)
      + |p.principalMatch.groups| * 20
      + (if p.intentMatch.regex.Some? then 30 else 0)
      + |p.intentMatch.keywords| * 10
  }

  // ---------------------------------------------------------------------------
  // Matching
  // ---------------------------------------------------------------------------

  predicate MatchesAgent(m: AgentMatch, ctx: EvalContext) {
    && (m.agentId.Some? ==> ctx.agent.id == m.agentId.value)
    && (m.trustLevel.Some? ==> Rank(ctx.agent.trustLevel) >= Rank(m.trustLevel.value))
    && forall i :: 0 <= i < |m.capabilities| ==> m.capabilities[i] in ctx.agent.capabilities
  }

  predicate MatchesPrincipal(m: PrincipalMatch, ctx: EvalContext) {
    && (m.sub.Some? ==> ctx.principalSub == m.sub.value)
    && (m.groups != [] ==> exists i :: 0 <= i < |m.groups| && m.groups[i] in ctx.principalGroups)
  }

  /** A keyword is looked for as a word of the lower-cased intent. */
  function KeywordPattern(text: Text, keyword: string): string {
    "\\b" + text.escape(text.lower(keyword)) + "\\b"
  }

  /** Compiled expressions are used when there are any, else the patterns are compiled on the spot. */
  predicate MatchesIntent(text: Text, m: IntentMatch, intent: string) {
    var lowered := text.lower(intent);
    && (if m.compiledKeywords != [] then
          forall i :: 0 <= i < |m.compiledKeywords| ==> text.isMatch(m.compiledKeywords[i], lowered)
        else
          forall i :: 0 <= i < |m.keywords| ==>
                        var pattern := KeywordPattern(text, m.keywords[i]);
                        text.valid(pattern) && text.isMatch(pattern, lowered))
    && (if m.compiledRegex.Some? then text.isMatch(m.compiledRegex.value, intent)
        else m.regex.Some? ==> text.valid(m.regex.value) && text.isMatch(m.regex.value, intent))
  }

  predicate MatchesResourceUri(p: Rule, request: McpRequest) {
    p.resourceMatch != [] ==>
      && request.resourceUri.Some?
      && exists i :: 0 <= i < |p.resourceMatch| && p.resourceMatch[i] <= request.resourceUri.value
  }

  predicate MatchesTool(text: Text, p: Rule, request: McpRequest) {
    if p.allowedTools == [] || "*" in p.allowedTools then MatchesResourceUri(p, request)
    else if request.toolName.Some? then
      exists i :: 0 <= i < |p.allowedTools| && text.lower(p.allowedTools[i]) == text.lower(request.toolName.value)
    else
      request.rpcMethod != "tools/call" && request.rpcMethod in p.allowedTools && MatchesResourceUri(p, request)
  }

  /** The pieces of a path between its dots. */
  function SplitDots(path: string): (r: seq<string>)
    ensures r != []
  {
    if path == [] then [[]]
    else
      var rest := SplitDots(path[1..]);
      if path[0] == '.' then [[]] + rest else [[path[0]] + rest[0]] + rest[1..]
  }

  function Descend(value: Json, segments: seq<string>): Option<Json> {
    if segments == [] then Some(value)
    else
      var next := value.Get(segments[0]);
      if next.None? then None else Descend(next.value, segments[1..])
  }

  method TraverseDotPath(value: Json, path: string) returns (r: Option<Json>)
    ensures r == Descend(value, SplitDots(path))
  {
    var current, segments := value, SplitDots(path);
    for i := 0 to |segments|
      invariant Descend(value, segments) == Descend(current, segments[i..])
    {
      var next := current.Get(segments[i]);
      if next.None? {
        return None;
      }
      current := next.value;
    }
    return Some(current);
  }

  /** A missing parameter, or one of the wrong type, fails the constraint. */
  predicate Satisfies(c: Constraint, args: Json) {
    var value := Descend(args, SplitDots(c.key));
    && value.Some?
    && (c.max.Some? || c.min.Some? ==>
          && value.value.JNum?
          && (c.max.Some? ==> value.value.n <= c.max.value)
          && (c.min.Some? ==> c.min.value <= value.value.n))
    && (c.allowed != [] ==> value.value.JStr? && value.value.s in c.allowed)
  }

  predicate MatchesConstraints(constraints: seq<Constraint>, request: McpRequest) {
    constraints != [] ==>
      && request.arguments.Some?
      && forall i :: 0 <= i < |constraints| ==> Satisfies(constraints[i], request.arguments.value)
  }

  predicate Matches(text: Text, p: Rule, ctx: EvalContext, request: McpRequest) {
    && MatchesAgent(p.agentMatch, ctx)
    && MatchesPrincipal(p.principalMatch, ctx)
    && MatchesIntent(text, p.intentMatch, ctx.intent)
    && MatchesTool(text, p, request)
    && MatchesConstraints(p.constraints, request)
  }

  /** Why a policy does not match; the first criterion that fails. */
  function ExplainMismatch(text: Text, p: Rule, ctx: EvalContext, request: McpRequest): (r: Option<string>)
    ensures r.None? <==> Matches(text, p, ctx, request)
  {
    if !MatchesAgent(p.agentMatch, ctx) then Some("agent criteria not met")
    else if !MatchesPrincipal(p.principalMatch, ctx) then Some("principal criteria not met")
    else if !MatchesIntent(text, p.intentMatch, ctx.intent) then Some("intent criteria not met")
    else if !MatchesTool(text, p, request) then
      Some("tool '" + (if request.toolName.Some? then request.toolName.value else "(none)") + "' not in allowed_tools")
    else if !MatchesConstraints(p.constraints, request) then Some("parameter constraints not met")
    else None
  }

  // ---------------------------------------------------------------------------
  // Compilation
  // ---------------------------------------------------------------------------

  const MAX_PRIORITY := 1000
  const MAX_REGEX_PATTERN_LEN := 500

  datatype PolicyError =
    | DuplicatePolicyId(policyId: string)
    | PriorityTooHigh(policyId: string, priority: int)
    | RegexTooLong(policyId: string, length: nat)
    | InvalidRegex(policyId: string, pattern: string, reason: string)
    | EmptyAllowOnAllEffect(policyId: string)

  predicate DistinctIds(ps: seq<Rule>) {
    forall i, j :: 0 <= i < j < |ps| ==> ps[i].id != ps[j].id
  }

  predicate BlanketAllow(p: Rule) {
    p.effect == Allow && p.allowedTools == [] && p.resourceMatch == []
  }

  predicate PatternsValid(text: Text, m: IntentMatch) {
    && (m.regex.Some? ==> Utf8Len(m.regex.value) <= MAX_REGEX_PATTERN_LEN && text.valid(m.regex.value))
    && forall i :: 0 <= i < |m.keywords| ==> text.valid(KeywordPattern(text, m.keywords[i]))
  }

  predicate RegexFits(m: IntentMatch) {
    m.regex.Some? ==> Utf8Len(m.regex.value) <= MAX_REGEX_PATTERN_LEN
  }

  /** The first of the patterns that the library refuses. */
  function FirstInvalid(text: Text, patterns: seq<string>): (r: Option<string>)
    ensures r.None? <==> forall i :: 0 <= i < |patterns| ==> text.valid(patterns[i])
  {
    if patterns == [] then None
    else if !text.valid(patterns[0]) then Some(patterns[0])
    else FirstInvalid(text, patterns[1..])
  }

  /** Why the patterns of one policy are refused: its expression comes before its keywords. */
  function PatternError(text: Text, p: Rule): PolicyError
    requires !PatternsValid(text, p.intentMatch)
  {
    var m := p.intentMatch;
    if !RegexFits(m) then RegexTooLong(p.id, Utf8Len(m.regex.value))
    else if m.regex.Some? && !text.valid(m.regex.value) then Unusable(text, p.id, m.regex.value)
    else
      var patterns := KeywordPatterns(text, m.keywords);
      assert forall i :: 0 <= i < |m.keywords| ==> patterns[i] == KeywordPattern(text, m.keywords[i]);
      Unusable(text, p.id, FirstInvalid(text, patterns).value)
  }

  function Unusable(text: Text, id: string, pattern: string): PolicyError {
    InvalidRegex(id, pattern, text.reason(pattern))
  }

  /** The error names the first policy at fault in the first check that fails. */
  ghost predicate Blames(text: Text, ps: seq<Rule>, e: PolicyError, i: nat) {
    && i < |ps|
    && var p := ps[i];
       if !DistinctIds(ps) then
         e == DuplicatePolicyId(p.id) && DistinctIds(ps[..i]) && !DistinctIds(ps[..i + 1])
       else if exists j :: 0 <= j < |ps| && ps[j].priority > MAX_PRIORITY then
         && e == PriorityTooHigh(p.id, p.priority) && p.priority > MAX_PRIORITY
         && (forall j :: 0 <= j < i ==> ps[j].priority <= MAX_PRIORITY)
       else if exists j :: 0 <= j < |ps| && !PatternsValid(text, ps[j].intentMatch) then
         && !PatternsValid(text, p.intentMatch) && e == PatternError(text, p)
         && (forall j :: 0 <= j < i ==> PatternsValid(text, ps[j].intentMatch))
       else
         && e == EmptyAllowOnAllEffect(p.id) && BlanketAllow(p)
         && (forall j :: 0 <= j < i ==> !BlanketAllow(ps[j]))
  }

  /** What a configuration must satisfy to be loaded. */
  predicate Loadable(text: Text, ps: seq<Rule>) {
    && DistinctIds(ps)
    && forall i :: 0 <= i < |ps| ==>
                     ps[i].priority <= MAX_PRIORITY && PatternsValid(text, ps[i].intentMatch) && !BlanketAllow(ps[i])
  }

  function KeywordPatterns(text: Text, keywords: seq<string>): seq<string> {
    seq(|keywords|, i requires 0 <= i < |keywords| => KeywordPattern(text, keywords[i]))
  }

  function Compiled(text: Text, p: Rule): Rule {
    var m := p.intentMatch;
    p.(intentMatch := m.(compiledRegex := if m.regex.Some? then m.regex else m.compiledRegex,
                         compiledKeywords := KeywordPatterns(text, m.keywords)))
  }

  /** `PolicyConfig::compile`. */
  method Compile(text: Text, policies: seq<Rule>) returns (r: Result<seq<Rule>, PolicyError>)
    ensures r.Ok? <==> Loadable(text, policies)
    ensures r.Err? ==> exists i: nat :: Blames(text, policies, r.error, i)
    ensures r.Ok? ==>
              && |r.value| == |policies|
              && forall i :: 0 <= i < |policies| ==> r.value[i] == Compiled(text, policies[i])
  {
    var seen: set<string> := {};
    for i := 0 to |policies|
      invariant seen == set j | 0 <= j < i :: policies[j].id
      invariant DistinctIds(policies[..i])
    {
      if policies[i].id in seen {
        DuplicateAt(policies, i);
        assert Blames(text, policies, DuplicatePolicyId(policies[i].id), i);
        return Err(DuplicatePolicyId(policies[i].id));
      }
      seen := seen + {policies[i].id};
    }
    assert policies[..|policies|] == policies;
    for i := 0 to |policies|
      invariant forall j :: 0 <= j < i ==> policies[j].priority <= MAX_PRIORITY
    {
      if policies[i].priority > MAX_PRIORITY {
        assert Blames(text, policies, PriorityTooHigh(policies[i].id, policies[i].priority), i);
        return Err(PriorityTooHigh(policies[i].id, policies[i].priority));
      }
    }
    var compiled: seq<Rule> := [];
    for i := 0 to |policies|
      invariant |compiled| == i
      invariant forall j :: 0 <= j < i ==>
                              PatternsValid(text, policies[j].intentMatch) && compiled[j] == Compiled(text, policies[j])
    {
      var rule := CompileRule(text, policies[i]);
      if rule.Err? {
        assert Blames(text, policies, rule.error, i);
        return Err(rule.error);
      }
      compiled := compiled + [rule.value];
    }
    for i := 0 to |policies|
      invariant forall j :: 0 <= j < i ==> !BlanketAllow(policies[j])
    {
      if BlanketAllow(policies[i]) {
        assert Blames(text, policies, EmptyAllowOnAllEffect(policies[i].id), i);
        return Err(EmptyAllowOnAllEffect(policies[i].id));
      }
    }
    return Ok(compiled);
  }

  lemma DuplicateAt(ps: seq<Rule>, i: nat)
    requires i < |ps| && exists j :: 0 <= j < i && ps[j].id == ps[i].id
    ensures !DistinctIds(ps) && !DistinctIds(ps[..i + 1])
  {
    var j :| 0 <= j < i && ps[j].id == ps[i].id;
    assert ps[..i + 1][j].id == ps[..i + 1][i].id;
  }

  /** The patterns of the keywords, or the first that the library refuses. */
  method CompileKeywords(text: Text, keywords: seq<string>) returns (r: Result<seq<string>, string>)
    ensures r.Ok? <==> forall i :: 0 <= i < |keywords| ==> text.valid(KeywordPattern(text, keywords[i]))
    ensures r.Ok? ==> r.value == KeywordPatterns(text, keywords)
    ensures r.Err? ==> FirstInvalid(text, KeywordPatterns(text, keywords)) == Some(r.error)
  {
    var patterns: seq<string> := [];
    ghost var all := KeywordPatterns(text, keywords);
    for i := 0 to |keywords|
      invariant patterns == all[..i]
      invariant forall j :: 0 <= j < i ==> text.valid(KeywordPattern(text, keywords[j]))
      invariant FirstInvalid(text, all) == FirstInvalid(text, all[i..])
    {
      var pattern := KeywordPattern(text, keywords[i]);
      assert all[i..][0] == pattern && all[i..][1..] == all[i + 1..];
      if !text.valid(pattern) {
        return Err(pattern);
      }
      patterns := patterns + [pattern];
    }
    return Ok(patterns);
  }

  method CompileRule(text: Text, p: Rule) returns (r: Result<Rule, PolicyError>)
    ensures r.Ok? <==> PatternsValid(text, p.intentMatch)
    ensures r.Err? ==> r.error == PatternError(text, p)
    ensures r.Ok? ==> r.value == Compiled(text, p)
  {
    var m := p.intentMatch;
    if m.regex.Some? {
      if Utf8Len(m.regex.value) > MAX_REGEX_PATTERN_LEN {
        return Err(RegexTooLong(p.id, Utf8Len(m.regex.value)));
      }
      if !text.valid(m.regex.value) {
        return Err(Unusable(text, p.id, m.regex.value));
      }
      m := m.(compiledRegex := m.regex);
    }
    var patterns := CompileKeywords(text, m.keywords);
    if patterns.Err? {
      return Err(Unusable(text, p.id, patterns.error));
    }
    m := m.(compiledKeywords := patterns.value);
    return Ok(p.(intentMatch := m));
  }

  /** As loaded from a file, before compilation. */
  predicate Uncompiled(p: Rule) {
    p.intentMatch.compiledRegex.None? && p.intentMatch.compiledKeywords == []
  }

  /** The compiled form of a policy matches the same requests, with the same specificity, verdict and reasons. */
  lemma CompilationKeepsMeaning(text: Text, p: Rule, ctx: EvalContext, request: McpRequest)
    requires Uncompiled(p) && PatternsValid(text, p.intentMatch)
    ensures Matches(text, Compiled(text, p), ctx, request) <==> Matches(text, p, ctx, request)
    ensures ExplainMismatch(text, Compiled(text, p), ctx, request) == ExplainMismatch(text, p, ctx, request)
    ensures Specificity(Compiled(text, p)) == Specificity(p)
  {
    var m, c := p.intentMatch, Compiled(text, p).intentMatch;
    var lowered := text.lower(ctx.intent);
    assert MatchesIntent(text, c, ctx.intent) <==> MatchesIntent(text, m, ctx.intent) by {
      if c.compiledKeywords != [] {
        assert forall i :: 0 <= i < |m.keywords| ==> c.compiledKeywords[i] == KeywordPattern(text, m.keywords[i]);
      }
    }
  }
}
