/**
 * Task sessions (arbiter-session/src/model.rs) and what one use of a session does to it.
 * Times and durations are integers counting nanoseconds; every reading of the clock that
 * the code takes is a separate argument.
 */
module SessionModel {
  import opened Common

  /** UUIDs are only ever compared for equality. */
  type Uuid = nat
  type SessionId = Uuid

  const SECOND := 1_000_000_000
  const MILLISECOND := 1_000_000

  datatype Sensitivity = Public | Internal | Confidential | Restricted

  datatype Status = Active | Closed | Expired

  datatype SessionError =
    | NotFound(id: SessionId)
    | SessionExpired(id: SessionId)
    | BudgetExceeded(id: SessionId, limit: nat, used: nat)
    | ToolNotAuthorized(id: SessionId, tool: string)
    | AlreadyClosed(id: SessionId)
    | RateLimited(id: SessionId, limitPerMinute: nat)
    | AgentMismatch(id: SessionId, expected: Uuid, actual: Uuid)
    | StorageWriteThrough(id: SessionId)
    | TooManySessions(agentId: Uuid, max: nat, current: nat)

  datatype TaskSession = TaskSession(
    sessionId: SessionId,
    agentId: Uuid,
    chainSnapshot: seq<string>,
    intent: string,
    tools: seq<string>,
    credentials: seq<string>,
    timeLimit: int,
    callBudget: nat,
    callsMade: nat,
    rateLimit: Option<nat>,
    windowStart: int,
    windowCalls: nat,
    windowSecs: nat,
    ceiling: Sensitivity,
    createdAt: int,
    status: Status)
  {
    predicate PastLimit(now: int) {
      now - createdAt > timeLimit
    }

    predicate IsExpired(now: int) {
      PastLimit(now) || status == Expired
    }

    predicate IsBudgetExceeded() {
      callsMade >= callBudget
    }

    /** An empty list authorizes every tool. */
    predicate IsToolAuthorized(tool: string) {
      tools == [] || tool in tools
    }

    /** An empty list authorizes every credential reference. */
    predicate IsCredentialAuthorized(reference: string) {
      credentials == [] || reference in credentials
    }

    /** The fixed rate window has run out, so the next accepted call opens a new one. */
    predicate WindowOver(now: int) {
      now - windowStart >= windowSecs * SECOND
    }
  }

  datatype CreateRequest = CreateRequest(
    agentId: Uuid,
    chainSnapshot: seq<string>,
    intent: string,
    tools: seq<string>,
    credentials: seq<string>,
    timeLimit: int,
    callBudget: nat,
    rateLimit: Option<nat>,
    windowSecs: nat,
    ceiling: Sensitivity)

  function NewSession(id: SessionId, req: CreateRequest, timeLimit: int, tWindow: int, tCreated: int): TaskSession {
    TaskSession(id, req.agentId, req.chainSnapshot, req.intent, req.tools, req.credentials, timeLimit,
                req.callBudget, 0, req.rateLimit, tWindow, 0, req.windowSecs, req.ceiling, tCreated, Active)
  }

  /** The outcome of an operation on one session: its new value, and the error if it was refused. */
  datatype Outcome = Outcome(session: TaskSession, error: Option<SessionError>) {
    predicate Accepted() {
      error.None?
    }
  }

  /** `check_rate_limit`: the session after the check, and whether the call is rejected. */
  function RateCheck(s: TaskSession, now: int): (TaskSession, bool) {
    if s.rateLimit.None? then (s, false)
    else if s.WindowOver(now) then (s.(windowStart := now, windowCalls := 1), false)
    else if s.windowCalls >= s.rateLimit.value then (s, true)
    else (s.(windowCalls := s.windowCalls + 1), false)
  }

  /** The checks that `use_session` and `use_session_batch` share, in their order. */
  function Gate(s: TaskSession, agent: Option<Uuid>, tExpiry: int): Outcome {
    if agent.Some? && agent.value != s.agentId then
      Outcome(s, Some(AgentMismatch(s.sessionId, s.agentId, agent.value)))
    else if s.status == Closed then Outcome(s, Some(AlreadyClosed(s.sessionId)))
    else if s.IsExpired(tExpiry) then Outcome(s.(status := Expired), Some(SessionExpired(s.sessionId)))
    else Outcome(s, None)
  }

  /** `use_session` on the session it finds: one call, reading the clock at `tExpiry` and `tRate`. */
  function UseOne(s: TaskSession, tool: string, agent: Option<Uuid>, tExpiry: int, tRate: int): Outcome {
    var g := Gate(s, agent, tExpiry);
    if !g.Accepted() then g
    else if s.IsBudgetExceeded() then Outcome(s, Some(BudgetExceeded(s.sessionId, s.callBudget, s.callsMade)))
    else if !s.IsToolAuthorized(tool) then Outcome(s, Some(ToolNotAuthorized(s.sessionId, tool)))
    else
      var (checked, rejected) := RateCheck(s, tRate);
      if rejected then Outcome(checked, Some(RateLimited(s.sessionId, s.rateLimit.value)))
      else Outcome(checked.(callsMade := checked.callsMade + 1), None)
  }

  /** The first tool of a batch that the session does not authorize. */
  function FirstUnauthorized(s: TaskSession, tools: seq<string>): Option<string> {
    if tools == [] then None
    else if !s.IsToolAuthorized(tools[0]) then Some(tools[0])
    else FirstUnauthorized(s, tools[1..])
  }

  /** The rate window after a batch of `n` calls was let through. */
  function ChargeWindow(s: TaskSession, n: nat, now: int): TaskSession {
    if s.rateLimit.None? then s
    else if s.WindowOver(now) then s.(windowStart := now, windowCalls := n)
    else s.(windowCalls := s.windowCalls + n)
  }

  /** `use_session_batch`: all checks first, then both counters at once. */
  function UseBatch(s: TaskSession, tools: seq<string>, agent: Option<Uuid>, tExpiry: int, tCheck: int, tCharge: int)
    : Outcome
  {
    var g := Gate(s, agent, tExpiry);
    if !g.Accepted() then g
    else if s.callsMade + |tools| > s.callBudget then
      Outcome(s, Some(BudgetExceeded(s.sessionId, s.callBudget, s.callsMade)))
    else if FirstUnauthorized(s, tools).Some? then
      Outcome(s, Some(ToolNotAuthorized(s.sessionId, FirstUnauthorized(s, tools).value)))
    else if s.rateLimit.Some? && !s.WindowOver(tCheck) && s.windowCalls + |tools| > s.rateLimit.value then
      Outcome(s, Some(RateLimited(s.sessionId, s.rateLimit.value)))
    else
      var charged := ChargeWindow(s, |tools|, tCharge);
      Outcome(charged.(callsMade := charged.callsMade + |tools|), None)
  }

  /** Using the tools one after the other at one instant, stopping at the first refusal. */
  function UseFold(s: TaskSession, tools: seq<string>, agent: Option<Uuid>, t: int): Outcome
    decreases |tools|
  {
    if tools == [] then Outcome(s, None)
    else
      var first := UseOne(s, tools[0], agent, t, t);
      if !first.Accepted() then first else UseFold(first.session, tools[1..], agent, t)
  }

  // ---------------------------------------------------------------------------
  // A batch refines sequential use
  // ---------------------------------------------------------------------------

  /** Nothing but the two counters and the rate window tells two values of a session apart. */
  predicate SameTerms(a: TaskSession, b: TaskSession) {
    a == b.(callsMade := a.callsMade, windowStart := a.windowStart, windowCalls := a.windowCalls, status := a.status)
  }

  /** How many more calls the rate limit lets through at `t` when they come one by one. */
  ghost predicate RateRoom(s: TaskSession, n: nat, t: int) {
    || s.rateLimit.None?
    || (s.WindowOver(t) && (s.windowSecs == 0 || n <= 1 || n <= s.rateLimit.value))
    || (!s.WindowOver(t) && s.windowCalls + n <= s.rateLimit.value)
  }

  /** The rate window after `n` single calls at `t`. */
  ghost function RateAfter(s: TaskSession, n: nat, t: int): TaskSession {
    if s.rateLimit.None? || n == 0 then s
    else if s.WindowOver(t) then s.(windowStart := t, windowCalls := if s.windowSecs == 0 then 1 else n)
    else s.(windowCalls := s.windowCalls + n)
  }

  /** What folding `use_session` over a non-empty list of tools does, in closed form. */
  lemma {:induction false} FoldClosedForm(s: TaskSession, tools: seq<string>, agent: Option<Uuid>, t: int)
    requires tools != []
    ensures UseFold(s, tools, agent, t).Accepted() <==>
            && Gate(s, agent, t).Accepted()
            && s.callsMade + |tools| <= s.callBudget
            && FirstUnauthorized(s, tools).None?
            && RateRoom(s, |tools|, t)
    ensures UseFold(s, tools, agent, t).Accepted() ==>
              UseFold(s, tools, agent, t).session ==
              RateAfter(s, |tools|, t).(callsMade := s.callsMade + |tools|)
    decreases |tools|
  {
    var first := UseOne(s, tools[0], agent, t, t);
    if first.Accepted() {
      var rest := tools[1..];
      SameAuthorization(s, first.session, rest);
      if rest != [] {
        FoldClosedForm(first.session, rest, agent, t);
      }
    }
  }

  lemma {:induction false} SameAuthorization(a: TaskSession, b: TaskSession, tools: seq<string>)
    requires a.tools == b.tools
    ensures FirstUnauthorized(a, tools) == FirstUnauthorized(b, tools)
  {
    if tools != [] {
      SameAuthorization(a, b, tools[1..]);
    }
  }

  /** At one instant the batch takes a fresh window without comparing its size to the limit. */
  predicate Diverges(s: TaskSession, tools: seq<string>, agent: Option<Uuid>, t: int) {
    && Gate(s, agent, t).Accepted()
    && s.callsMade + |tools| <= s.callBudget
    && FirstUnauthorized(s, tools).None?
    && s.rateLimit.Some?
    && s.WindowOver(t)
    && |tools| > 1
    && (s.windowSecs == 0 || |tools| > s.rateLimit.value)
  }

  /**
   * A non-empty batch is accepted exactly when folding `use_session` over it is, and leaves the
   * same session behind, if and only if it does not open a fresh window with more calls than
   * the limit (or with several calls when the window has length zero).
   */
  lemma BatchRefinesFold(s: TaskSession, tools: seq<string>, agent: Option<Uuid>, t: int)
    requires tools != []
    ensures var batch, fold := UseBatch(s, tools, agent, t, t, t), UseFold(s, tools, agent, t);
            (batch.Accepted() == fold.Accepted() && (batch.Accepted() ==> batch.session == fold.session))
            <==> !Diverges(s, tools, agent, t)
  {
    FoldClosedForm(s, tools, agent, t);
  }

  /** The case the middleware relies on: batches no larger than the limit, windows of positive length. */
  lemma SmallBatchIsFold(s: TaskSession, tools: seq<string>, agent: Option<Uuid>, t: int)
    requires tools != []
    requires s.rateLimit.Some? ==> s.windowSecs > 0 && |tools| <= s.rateLimit.value
    ensures var batch, fold := UseBatch(s, tools, agent, t, t, t), UseFold(s, tools, agent, t);
            batch.Accepted() == fold.Accepted() && (batch.Accepted() ==> batch.session == fold.session)
  {
    BatchRefinesFold(s, tools, agent, t);
  }

  /** A limit of 1 does not stop a batch of 2 that opens a window; two single calls are stopped. */
  lemma FreshWindowTakesAnyBatch(s: TaskSession)
    requires s.status == Active && s.rateLimit == Some(1) && s.windowSecs == 60 && s.windowStart == 0
    requires s.createdAt == 0 && s.timeLimit >= 3600 * SECOND && s.callsMade == 0 && s.callBudget == 5 && s.tools == []
    ensures var t, tools := 60 * SECOND, ["a", "b"];
            && UseBatch(s, tools, None, t, t, t).Accepted()
            && UseBatch(s, tools, None, t, t, t).session.windowCalls == 2 > s.rateLimit.value
            && !UseFold(s, tools, None, t).Accepted()
  {
    FoldClosedForm(s, ["a", "b"], None, 60 * SECOND);
    var rest := ["a", "b"][1..];
    assert FirstUnauthorized(s, rest) == FirstUnauthorized(s, rest[1..]) == None;
  }

  /** An accepted batch stays within the limit exactly when it did not open a window with too many calls. */
  lemma BatchWithinLimit(s: TaskSession, tools: seq<string>, agent: Option<Uuid>, tExpiry: int, tCheck: int, tCharge: int)
    requires tCheck <= tCharge
    requires UseBatch(s, tools, agent, tExpiry, tCheck, tCharge).Accepted() && s.rateLimit.Some?
    ensures UseBatch(s, tools, agent, tExpiry, tCheck, tCharge).session.windowCalls <= s.rateLimit.value
            <==> !(s.WindowOver(tCharge) && |tools| > s.rateLimit.value)
  {
  }

  /** A refused batch changes no counter; at most it marks the session expired. */
  lemma RefusedBatchChargesNothing(s: TaskSession, tools: seq<string>, agent: Option<Uuid>, tExpiry: int, tCheck: int, tCharge: int)
    requires !UseBatch(s, tools, agent, tExpiry, tCheck, tCharge).Accepted()
    ensures var after := UseBatch(s, tools, agent, tExpiry, tCheck, tCharge).session;
            || after == s
            || (after == s.(status := Expired) && s.status != Closed && s.IsExpired(tExpiry))
  {
  }
}
