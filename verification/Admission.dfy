/**
 * Which calls a session admits, said in the session's fields alone: by its agent, for a listed tool,
 * in time, within budget and rate. Every accepted call of every run was such a call.
 */
module Admission {
  import opened Common
  import opened SessionModel
  import opened SessionStore
  import opened SessionRuns

  // ---------------------------------------------------------------------------
  // The terms of a session
  // ---------------------------------------------------------------------------

  /** A caller that names an agent names the session's. */
  predicate OwnAgent(s: TaskSession, agent: Option<Uuid>) {
    agent == None || agent == Some(s.agentId)
  }

  predicate InTime(s: TaskSession, now: int) {
    s.status != Expired && now <= s.createdAt + s.timeLimit
  }

  /** An empty list means any tool. */
  predicate Lists(s: TaskSession, tool: string) {
    |s.tools| > 0 ==> exists i :: 0 <= i < |s.tools| && s.tools[i] == tool
  }

  predicate ListsAll(s: TaskSession, tools: seq<string>) {
    forall i :: 0 <= i < |tools| ==> Lists(s, tools[i])
  }

  /** A new window begins when the last began a window length ago, in nanoseconds. */
  predicate NewWindow(s: TaskSession, now: int) {
    s.windowStart + s.windowSecs * 1_000_000_000 <= now
  }

  /** The rate limit lets `n` more calls through; a new window takes any number. */
  predicate RateLets(s: TaskSession, n: nat, now: int) {
    match s.rateLimit
    case None => true
    case Some(limit) => NewWindow(s, now) || s.windowCalls + n <= limit
  }

  /** What `n` admitted calls charged at `now` leave behind. */
  function Charged(s: TaskSession, n: nat, now: int): TaskSession {
    var start := if s.rateLimit != None && NewWindow(s, now) then now else s.windowStart;
    var calls := if s.rateLimit == None then s.windowCalls else if NewWindow(s, now) then n else s.windowCalls + n;
    s.(callsMade := s.callsMade + n, windowStart := start, windowCalls := calls)
  }

  // ---------------------------------------------------------------------------
  // One call
  // ---------------------------------------------------------------------------

  /** A call is admitted exactly when all terms are met, and then charges one call and nothing else. */
  lemma UseAdmittedIff(s: TaskSession, tool: string, agent: Option<Uuid>, tExpiry: int, tRate: int)
    ensures var o := UseOne(s, tool, agent, tExpiry, tRate);
            && (o.error == None <==>
                && OwnAgent(s, agent) && s.status == Active && InTime(s, tExpiry) && s.callsMade < s.callBudget
                && Lists(s, tool) && RateLets(s, 1, tRate))
            && (o.error == None ==> o.session == Charged(s, 1, tRate))
  {
    if tool in s.tools {
      var i :| 0 <= i < |s.tools| && s.tools[i] == tool;
    }
  }

  /** A refusal names the first term that is not met; only a late call changes the session, to Expired. */
  lemma UseRefusedBy(s: TaskSession, tool: string, agent: Option<Uuid>, tExpiry: int, tRate: int)
    ensures var o := UseOne(s, tool, agent, tExpiry, tRate);
            if !OwnAgent(s, agent) then o == Outcome(s, Some(AgentMismatch(s.sessionId, s.agentId, agent.value)))
            else if s.status == Closed then o == Outcome(s, Some(AlreadyClosed(s.sessionId)))
            else if !InTime(s, tExpiry) then o == Outcome(s.(status := Expired), Some(SessionExpired(s.sessionId)))
            else if s.callBudget <= s.callsMade then
              o == Outcome(s, Some(BudgetExceeded(s.sessionId, s.callBudget, s.callsMade)))
            else if !Lists(s, tool) then o == Outcome(s, Some(ToolNotAuthorized(s.sessionId, tool)))
            else if !RateLets(s, 1, tRate) then o == Outcome(s, Some(RateLimited(s.sessionId, s.rateLimit.value)))
            else o.error == None
  {
    if tool in s.tools {
      var i :| 0 <= i < |s.tools| && s.tools[i] == tool;
    }
  }

  // ---------------------------------------------------------------------------
  // A batch
  // ---------------------------------------------------------------------------

  lemma {:induction false} FirstUnlisted(s: TaskSession, tools: seq<string>)
    ensures FirstUnauthorized(s, tools) == None <==> ListsAll(s, tools)
    ensures FirstUnauthorized(s, tools) != None ==>
              exists k :: 0 <= k < |tools| && FirstUnauthorized(s, tools) == Some(tools[k]) && !Lists(s, tools[k])
                          && ListsAll(s, tools[..k])
  {
    if tools != [] {
      var first := tools[0];
      if first in s.tools {
        var i :| 0 <= i < |s.tools| && s.tools[i] == first;
      }
      FirstUnlisted(s, tools[1..]);
      if !Lists(s, first) {
        assert ListsAll(s, tools[..0]);
      } else if FirstUnauthorized(s, tools[1..]) != None {
        var k :| 0 <= k < |tools[1..]| && FirstUnauthorized(s, tools[1..]) == Some(tools[1..][k]) && !Lists(s, tools[1..][k])
                 && ListsAll(s, tools[1..][..k]);
        var front := tools[..k + 1];
        forall i | 0 <= i < |front|
          ensures Lists(s, front[i])
        {
          if i > 0 {
            assert front[i] == tools[1..][..k][i - 1];
          }
        }
        assert tools[k + 1] == tools[1..][k];
      } else {
        forall i | 0 <= i < |tools|
          ensures Lists(s, tools[i])
        {
          if i > 0 {
            assert tools[i] == tools[1..][i - 1];
          }
        }
      }
    }
  }

  /** The same for a batch, which is admitted or refused as a whole. */
  lemma BatchAdmittedIff(s: TaskSession, tools: seq<string>, agent: Option<Uuid>, tExpiry: int, tCheck: int, tCharge: int)
    ensures var o := UseBatch(s, tools, agent, tExpiry, tCheck, tCharge);
            && (o.error == None <==>
                && OwnAgent(s, agent) && s.status == Active && InTime(s, tExpiry) && s.callsMade + |tools| <= s.callBudget
                && ListsAll(s, tools) && RateLets(s, |tools|, tCheck))
            && (o.error == None ==> o.session == Charged(s, |tools|, tCharge))
  {
    FirstUnlisted(s, tools);
  }

  lemma BatchRefusedBy(s: TaskSession, tools: seq<string>, agent: Option<Uuid>, tExpiry: int, tCheck: int, tCharge: int)
    ensures var o := UseBatch(s, tools, agent, tExpiry, tCheck, tCharge);
            if !OwnAgent(s, agent) then o == Outcome(s, Some(AgentMismatch(s.sessionId, s.agentId, agent.value)))
            else if s.status == Closed then o == Outcome(s, Some(AlreadyClosed(s.sessionId)))
            else if !InTime(s, tExpiry) then o == Outcome(s.(status := Expired), Some(SessionExpired(s.sessionId)))
            else if s.callBudget < s.callsMade + |tools| then
              o == Outcome(s, Some(BudgetExceeded(s.sessionId, s.callBudget, s.callsMade)))
            else if !ListsAll(s, tools) then
              exists k :: && 0 <= k < |tools| && !Lists(s, tools[k]) && ListsAll(s, tools[..k])
                          && o == Outcome(s, Some(ToolNotAuthorized(s.sessionId, tools[k])))
            else if !RateLets(s, |tools|, tCheck) then o == Outcome(s, Some(RateLimited(s.sessionId, s.rateLimit.value)))
            else o.error == None
  {
    FirstUnlisted(s, tools);
  }

  // ---------------------------------------------------------------------------
  // Creation, closing and clean-up in fields
  // ---------------------------------------------------------------------------

  /** A new session has its request's terms, no calls, and admits its agent's calls until a term is met. */
  lemma NewSessionAdmits(id: SessionId, req: CreateRequest, limit: int, tWindow: int, tCreated: int, tool: string,
                         agent: Option<Uuid>, tExpiry: int, tRate: int)
    ensures var s := NewSession(id, req, limit, tWindow, tCreated);
            && s.sessionId == id && s.agentId == req.agentId && s.chainSnapshot == req.chainSnapshot
            && s.intent == req.intent && s.tools == req.tools && s.credentials == req.credentials
            && s.callBudget == req.callBudget && s.rateLimit == req.rateLimit && s.windowSecs == req.windowSecs
            && s.ceiling == req.ceiling && s.timeLimit == limit
            && s.createdAt == tCreated && s.windowStart == tWindow && s.callsMade == s.windowCalls == 0 && s.status == Active
    ensures UseOne(NewSession(id, req, limit, tWindow, tCreated), tool, agent, tExpiry, tRate).error == None <==>
            && (agent == None || agent == Some(req.agentId)) && tExpiry <= tCreated + limit && 0 < req.callBudget
            && (req.tools == [] || tool in req.tools)
            && (req.rateLimit == None || tWindow + req.windowSecs * 1_000_000_000 <= tRate || 1 <= req.rateLimit.value)
  {
    UseAdmittedIff(NewSession(id, req, limit, tWindow, tCreated), tool, agent, tExpiry, tRate);
  }

  /** `create` raises a limit below a second to a second. */
  lemma CreatedLimit(limit: int)
    ensures ClampedLimit(limit) >= limit && ClampedLimit(limit) >= 1_000_000_000
    ensures ClampedLimit(limit) == limit || ClampedLimit(limit) == 1_000_000_000
  {
  }

  /** Closing changes the status of an open session to Closed, once. */
  lemma ClosedOnce(s: TaskSession)
    ensures CloseOne(s).error == None <==> s.status == Active || s.status == Expired
    ensures CloseOne(s).error == None ==> CloseOne(s).session == s.(status := Closed)
    ensures CloseOne(s).error != None ==> CloseOne(s) == Outcome(s, Some(AlreadyClosed(s.sessionId)))
    ensures CloseOne(CloseOne(s).session).error == Some(AlreadyClosed(s.sessionId))
  {
  }

  /** Clean-up keeps exactly the active sessions that are in time, unchanged. */
  lemma CleanupKeepsIff(m: Sessions, readAt: SessionId -> int, id: SessionId)
    ensures id in AfterCleanup(m, readAt) <==>
            id in m && m[id].status == Active && readAt(id) <= m[id].createdAt + m[id].timeLimit
    ensures id in AfterCleanup(m, readAt) ==> AfterCleanup(m, readAt)[id] == m[id]
  {
  }

  // ---------------------------------------------------------------------------
  // Runs
  // ---------------------------------------------------------------------------

  /** The operation asked for exactly these calls, on the terms of the session `s`. */
  ghost predicate Asked(op: Op, e: Accept, s: TaskSession) {
    match op
    case Use(id, tool, agent, tExpiry, tRate) =>
      && e == Accept(id, tRate, 1) && id == s.sessionId
      && OwnAgent(s, agent) && Lists(s, tool) && tExpiry <= s.createdAt + s.timeLimit
    case Batch(id, tools, agent, tExpiry, _, tCharge) =>
      && e == Accept(id, tCharge, |tools|) && id == s.sessionId
      && OwnAgent(s, agent) && ListsAll(s, tools) && tExpiry <= s.createdAt + s.timeLimit
    case _ => false
  }

  lemma StepAsked(w: World, op: Op)
    requires Inv(w) && Enabled(w, op) && Acceptance(w.store, op) != []
    ensures Acceptance(w.store, op) == [Acceptance(w.store, op)[0]]
    ensures var e := Acceptance(w.store, op)[0];
            e.id in w.ever && w.ever[e.id].status == Active && Asked(op, e, w.ever[e.id])
  {
    match op
    case Use(id, tool, agent, tExpiry, tRate) =>
      UseAdmittedIff(w.store[id], tool, agent, tExpiry, tRate);
    case Batch(id, tools, agent, tExpiry, tCheck, tCharge) =>
      BatchAdmittedIff(w.store[id], tools, agent, tExpiry, tCheck, tCharge);
  }

  /** A session's terms do not change, so what was asked on them stays so. */
  lemma AskedLater(op: Op, e: Accept, s: TaskSession, s': TaskSession)
    requires Asked(op, e, s) && Progress(s, s')
    ensures Asked(op, e, s')
  {
    assert s'.tools == s.tools;
    if op.Batch? {
      forall i | 0 <= i < |op.tools|
        ensures Lists(s', op.tools[i])
      {
        assert Lists(s, op.tools[i]);
      }
    }
  }

  /**
   * Over every run, every accepted call was asked for by the session's own agent (or by a caller that
   * named none), for tools the session lists, while the session was active and in time.
   */
  lemma {:induction false} EveryCallWasAdmitted(ws: seq<World>, ops: seq<Op>, i: nat, j: nat) returns (k: nat)
    requires IsRun(ws, ops) && i < |ws| && j < |ws[i].log|
    ensures k < i && ws[i].log[j].id in ws[k].store && ws[k].store[ws[i].log[j].id].status == Active
    ensures ws[i].log[j].id in ws[i].ever && Asked(ops[k], ws[i].log[j], ws[i].ever[ws[i].log[j].id])
  {
    var w, op := ws[i - 1], ops[i - 1];
    assert ws[i] == Next(w, op);
    RunKeepsInv(ws, ops, i - 1);
    StepKeepsInv(w, op);
    if j < |w.log| {
      assert ws[i].log[j] == w.log[j];
      k := EveryCallWasAdmitted(ws, ops, i - 1, j);
      var id := w.log[j].id;
      AskedLater(ops[k], w.log[j], w.ever[id], ws[i].ever[id]);
    } else {
      k := i - 1;
      StepAsked(w, op);
      var e := Acceptance(w.store, op)[0];
      assert ws[i].log[j] == e;
      AskedLater(op, e, w.ever[e.id], ws[i].ever[e.id]);
    }
  }
}
