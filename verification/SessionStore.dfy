/** The in-memory session store (arbiter-session/src/store.rs). */
module SessionStore {
  import opened Common
  import opened SessionModel

  type Sessions = map<SessionId, TaskSession>

  /** Every session is filed under its own id. */
  ghost predicate WellKeyed(m: Sessions) {
    forall id :: id in m ==> m[id].sessionId == id
  }

  /** The sessions that count against an agent's cap. */
  ghost function ActiveIds(m: Sessions, agent: Uuid): set<SessionId> {
    set id | id in m && m[id].agentId == agent && m[id].status == Active
  }

  /** What becomes of the store when one session is replaced by the outcome of an operation on it. */
  function Put(m: Sessions, id: SessionId, o: Outcome): Sessions {
    m[id := o.session]
  }

  /** The minimum time limit that `create`, but not `create_if_under_cap`, enforces. */
  function ClampedLimit(limit: int): int {
    if limit < SECOND then SECOND else limit
  }

  function AfterUse(m: Sessions, id: SessionId, tool: string, agent: Option<Uuid>, tExpiry: int, tRate: int): Sessions {
    if id in m then Put(m, id, UseOne(m[id], tool, agent, tExpiry, tRate)) else m
  }

  function AfterBatch(m: Sessions, id: SessionId, tools: seq<string>, agent: Option<Uuid>, tExpiry: int, tCheck: int, tCharge: int)
    : Sessions
  {
    if id in m then Put(m, id, UseBatch(m[id], tools, agent, tExpiry, tCheck, tCharge)) else m
  }

  function CloseOne(s: TaskSession): Outcome {
    if s.status == Closed then Outcome(s, Some(AlreadyClosed(s.sessionId))) else Outcome(s.(status := Closed), None)
  }

  function AfterClose(m: Sessions, id: SessionId): Sessions {
    if id in m then Put(m, id, CloseOne(m[id])) else m
  }

  /** One visit of `close_sessions_for_agent`. */
  function Closing(s: TaskSession, agent: Uuid): TaskSession {
    if s.agentId == agent && s.status == Active then s.(status := Closed) else s
  }

  function AfterCloseAgent(m: Sessions, agent: Uuid): Sessions {
    map id | id in m :: Closing(m[id], agent)
  }

  predicate Kept(s: TaskSession, now: int) {
    !s.IsExpired(now) && s.status != Closed
  }

  /** The clock is read anew for each session. */
  function AfterCleanup(m: Sessions, readAt: SessionId -> int): Sessions {
    map id | id in m && Kept(m[id], readAt(id)) :: m[id]
  }

  /** A lookup that fails with NotFound, else the session and the operation's verdict. */
  ghost predicate Reports(r: Result<TaskSession, SessionError>, m: Sessions, id: SessionId, o: TaskSession -> Outcome) {
    if id !in m then r == Err(NotFound(id))
    else if o(m[id]).Accepted() then r == Ok(o(m[id]).session)
    else r == Err(o(m[id]).error.value)
  }

  /** Taking one id off the worklist adds it to what was counted, if it is one to count. */
  lemma OneLess(wanted: set<SessionId>, rest: set<SessionId>, id: SessionId)
    requires id in rest
    ensures |wanted - (rest - {id})| == |wanted - rest| + if id in wanted then 1 else 0
  {
    if id in wanted {
      assert wanted - (rest - {id}) == (wanted - rest) + {id};
    } else {
      assert wanted - (rest - {id}) == wanted - rest;
    }
  }

  lemma CloseAgentExactly(m: Sessions, agent: Uuid)
    ensures ActiveIds(AfterCloseAgent(m, agent), agent) == {}
    ensures forall id :: id in m && m[id].agentId != agent ==> AfterCloseAgent(m, agent)[id] == m[id]
  {
  }

  /** Everything but `rest` has been visited, and `closed` of them were open. */
  ghost predicate Visited(before: Sessions, values: Sessions, rest: set<SessionId>, agent: Uuid, closed: nat) {
    && rest <= before.Keys == values.Keys
    && (forall id :: id in rest ==> values[id] == before[id])
    && (forall id :: id in before.Keys - rest ==> values[id] == Closing(before[id], agent))
    && closed == |ActiveIds(before, agent) - rest|
  }

  lemma VisitOne(before: Sessions, values: Sessions, rest: set<SessionId>, agent: Uuid, closed: nat, id: SessionId)
    requires Visited(before, values, rest, agent, closed) && id in rest
    ensures Visited(before, values[id := Closing(values[id], agent)], rest - {id}, agent,
                    if id in ActiveIds(before, agent) then closed + 1 else closed)
  {
    OneLess(ActiveIds(before, agent), rest, id);
  }

  lemma VisitedAll(before: Sessions, values: Sessions, agent: Uuid, closed: nat)
    requires Visited(before, values, {}, agent, closed)
    ensures values == AfterCloseAgent(before, agent) && closed == |ActiveIds(before, agent)|
  {
    assert ActiveIds(before, agent) - {} == ActiveIds(before, agent);
  }

  /** The loop over `values_mut`. */
  method CloseAll(before: Sessions, agent: Uuid) returns (values: Sessions, closed: nat)
    ensures values == AfterCloseAgent(before, agent)
    ensures closed == |ActiveIds(before, agent)|
  {
    closed := 0;
    values := before;
    var rest := before.Keys;
    assert ActiveIds(before, agent) - rest == {};
    while rest != {}
      invariant Visited(before, values, rest, agent, closed)
      decreases rest
    {
      var id :| id in rest;
      VisitOne(before, values, rest, agent, closed, id);
      assert id in ActiveIds(before, agent) <==> values[id].agentId == agent && values[id].status == Active;
      if values[id].agentId == agent && values[id].status == Active {
        values := values[id := values[id].(status := Closed)];
        closed := closed + 1;
      } else {
        assert values == values[id := values[id]];
      }
      rest := rest - {id};
    }
    VisitedAll(before, values, agent, closed);
  }

  /** The count both stores take, also the body of `count_active_for_agent`. */
  method CountActive(sessions: Sessions, agent: Uuid) returns (count: nat)
    ensures count == |ActiveIds(sessions, agent)|
  {
    count := 0;
    var rest := sessions.Keys;
    ghost var active := ActiveIds(sessions, agent);
    while rest != {}
      invariant rest <= sessions.Keys
      invariant count == |active - rest|
      decreases rest
    {
      var id :| id in rest;
      OneLess(active, rest, id);
      if sessions[id].agentId == agent && sessions[id].status == Active {
        count := count + 1;
      }
      rest := rest - {id};
    }
    assert active - rest == active;
  }

  class Store {
    var sessions: Sessions

    constructor ()
      ensures sessions == map[]
    {
      sessions := map[];
    }

    method Create(id: SessionId, req: CreateRequest, tWindow: int, tCreated: int) returns (s: TaskSession)
      modifies this
      ensures s == NewSession(id, req, ClampedLimit(req.timeLimit), tWindow, tCreated)
      ensures sessions == old(sessions)[id := s]
    {
      var timeLimit := req.timeLimit;
      if timeLimit < SECOND {
        timeLimit := SECOND;
      }
      s := NewSession(id, req, timeLimit, tWindow, tCreated);
      sessions := sessions[id := s];
    }

    /** Count and insertion happen under one write lock. */
    method CreateIfUnderCap(id: SessionId, req: CreateRequest, max: nat, tWindow: int, tCreated: int)
      returns (r: Result<TaskSession, SessionError>)
      modifies this
      ensures r.Ok? <==> |ActiveIds(old(sessions), req.agentId)| < max
      ensures r.Ok? ==>
                && r.value == NewSession(id, req, req.timeLimit, tWindow, tCreated)
                && sessions == old(sessions)[id := r.value]
      ensures r.Err? ==>
                && r.error == TooManySessions(req.agentId, max, |ActiveIds(old(sessions), req.agentId)|)
                && sessions == old(sessions)
    {
      var active := CountActive(sessions, req.agentId);
      if active >= max {
        return Err(TooManySessions(req.agentId, max, active));
      }
      var s := NewSession(id, req, req.timeLimit, tWindow, tCreated);
      sessions := sessions[id := s];
      return Ok(s);
    }

    method UseSession(id: SessionId, tool: string, agent: Option<Uuid>, tExpiry: int, tRate: int)
      returns (r: Result<TaskSession, SessionError>)
      requires WellKeyed(sessions)
      modifies this
      ensures WellKeyed(sessions)
      ensures sessions == AfterUse(old(sessions), id, tool, agent, tExpiry, tRate)
      ensures Reports(r, old(sessions), id, s => UseOne(s, tool, agent, tExpiry, tRate))
    {
      if id !in sessions {
        return Err(NotFound(id));
      }
      var session := sessions[id];
      if agent.Some? && agent.value != session.agentId {
        assert sessions == sessions[id := session];
        return Err(AgentMismatch(id, session.agentId, agent.value));
      }
      if session.status == Closed {
        assert sessions == sessions[id := session];
        return Err(AlreadyClosed(id));
      }
      if session.IsExpired(tExpiry) {
        sessions := sessions[id := session.(status := Expired)];
        return Err(SessionExpired(id));
      }
      if session.IsBudgetExceeded() {
        assert sessions == sessions[id := session];
        return Err(BudgetExceeded(id, session.callBudget, session.callsMade));
      }
      if !session.IsToolAuthorized(tool) {
        assert sessions == sessions[id := session];
        return Err(ToolNotAuthorized(id, tool));
      }
      var rejected;
      session, rejected := CheckRateLimit(session, tRate);
      sessions := sessions[id := session];
      if rejected {
        return Err(RateLimited(id, session.rateLimit.value));
      }
      session := session.(callsMade := session.callsMade + 1);
      sessions := sessions[id := session];
      return Ok(session);
    }

    method UseSessionBatch(id: SessionId, tools: seq<string>, agent: Option<Uuid>, tExpiry: int, tCheck: int, tCharge: int)
      returns (r: Result<TaskSession, SessionError>)
      requires WellKeyed(sessions)
      modifies this
      ensures WellKeyed(sessions)
      ensures sessions == AfterBatch(old(sessions), id, tools, agent, tExpiry, tCheck, tCharge)
      ensures Reports(r, old(sessions), id, s => UseBatch(s, tools, agent, tExpiry, tCheck, tCharge))
    {
      if id !in sessions {
        return Err(NotFound(id));
      }
      var session := sessions[id];
      assert sessions == sessions[id := session];
      if agent.Some? && agent.value != session.agentId {
        return Err(AgentMismatch(id, session.agentId, agent.value));
      }
      if session.status == Closed {
        return Err(AlreadyClosed(id));
      }
      if session.IsExpired(tExpiry) {
        sessions := sessions[id := session.(status := Expired)];
        return Err(SessionExpired(id));
      }
      if session.callsMade + |tools| > session.callBudget {
        return Err(BudgetExceeded(id, session.callBudget, session.callsMade));
      }
      var i := 0;
      while i < |tools|
        invariant 0 <= i <= |tools|
        invariant FirstUnauthorized(session, tools) == FirstUnauthorized(session, tools[i..])
        invariant sessions == old(sessions)
      {
        if !session.IsToolAuthorized(tools[i]) {
          return Err(ToolNotAuthorized(id, tools[i]));
        }
        i := i + 1;
      }
      if session.rateLimit.Some? && !session.WindowOver(tCheck)
         && session.windowCalls + |tools| > session.rateLimit.value {
        return Err(RateLimited(id, session.rateLimit.value));
      }
      if session.rateLimit.Some? {
        if session.WindowOver(tCharge) {
          session := session.(windowStart := tCharge, windowCalls := |tools|);
        } else {
          session := session.(windowCalls := session.windowCalls + |tools|);
        }
      }
      session := session.(callsMade := session.callsMade + |tools|);
      sessions := sessions[id := session];
      return Ok(session);
    }

    method Close(id: SessionId) returns (r: Result<TaskSession, SessionError>)
      requires WellKeyed(sessions)
      modifies this
      ensures WellKeyed(sessions)
      ensures sessions == AfterClose(old(sessions), id)
      ensures Reports(r, old(sessions), id, CloseOne)
    {
      if id !in sessions {
        return Err(NotFound(id));
      }
      var session := sessions[id];
      if session.status == Closed {
        assert sessions == sessions[id := session];
        return Err(AlreadyClosed(id));
      }
      session := session.(status := Closed);
      sessions := sessions[id := session];
      return Ok(session);
    }

    /** Returns the agent's former active count, leaves it at zero and touches no other agent. */
    method CloseSessionsForAgent(agent: Uuid) returns (closed: nat)
      modifies this
      ensures sessions == AfterCloseAgent(old(sessions), agent)
      ensures closed == |ActiveIds(old(sessions), agent)|
      ensures ActiveIds(sessions, agent) == {}
      ensures forall id :: id in old(sessions) && old(sessions)[id].agentId != agent ==>
                             id in sessions && sessions[id] == old(sessions)[id]
    {
      CloseAgentExactly(sessions, agent);
      sessions, closed := CloseAll(sessions, agent);
    }

    /** `retain` visits every entry once. */
    method CleanupExpired(readAt: SessionId -> int) returns (removed: nat)
      modifies this
      ensures sessions == AfterCleanup(old(sessions), readAt)
      ensures removed == |old(sessions)| - |sessions|
    {
      ghost var all := sessions;
      var before := |sessions|;
      var rest := sessions.Keys;
      while rest != {}
        invariant rest <= sessions.Keys <= all.Keys
        invariant forall id :: id in sessions ==> sessions[id] == all[id]
        invariant forall id :: id in all ==> (id in sessions <==> id in rest || Kept(all[id], readAt(id)))
        invariant |sessions| <= before
        decreases rest
      {
        var id :| id in rest;
        if !Kept(sessions[id], readAt(id)) {
          assert sessions.Keys == (sessions - {id}).Keys + {id};
          sessions := sessions - {id};
        }
        rest := rest - {id};
      }
      removed := before - |sessions|;
    }
  }

  method CheckRateLimit(s: TaskSession, now: int) returns (after: TaskSession, rejected: bool)
    ensures (after, rejected) == RateCheck(s, now)
    ensures rejected <==> && s.rateLimit != None && s.windowCalls >= s.rateLimit.value
                          && now < s.windowStart + s.windowSecs * 1_000_000_000
    ensures rejected || s.rateLimit == None ==> after == s
    ensures !rejected && s.rateLimit != None ==>
              after == if s.windowStart + s.windowSecs * 1_000_000_000 <= now then s.(windowStart := now, windowCalls := 1)
                       else s.(windowCalls := s.windowCalls + 1)
  {
    after := s;
    if s.rateLimit.None? {
      return after, false;
    }
    if now - s.windowStart >= s.windowSecs * SECOND {
      after := after.(windowStart := now, windowCalls := 1);
      return after, false;
    } else if s.windowCalls >= s.rateLimit.value {
      return after, true;
    } else {
      after := after.(windowCalls := after.windowCalls + 1);
      return after, false;
    }
  }
}
