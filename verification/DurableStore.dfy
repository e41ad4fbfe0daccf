/**
 * The storage-backed session store (arbiter-session/src/storage_store.rs): a write-through cache
 * over rows that may fail to be written, with restarts and closures persisted after the lock
 * has been released.
 */
module DurableStore {
  import opened Common
  import opened SessionModel
  import opened SessionStore

  datatype StoredStatus = StoredActive | StoredClosed | StoredExpired

  datatype StoredSensitivity = StoredPublic | StoredInternal | StoredConfidential | StoredRestricted

  datatype StoredSession = StoredSession(
    sessionId: SessionId,
    agentId: Uuid,
    chainSnapshot: seq<string>,
    intent: string,
    tools: seq<string>,
    timeLimitSecs: int,
    callBudget: nat,
    callsMade: nat,
    rateLimit: Option<nat>,
    windowStart: int,
    windowCalls: nat,
    windowSecs: nat,
    ceiling: StoredSensitivity,
    createdAt: int,
    status: StoredStatus)

  type Rows = map<SessionId, StoredSession>

  /** On reload no session may run longer than a day. */
  const MAX_SESSION_TIME_LIMIT_SECS := 86400

  // ---------------------------------------------------------------------------
  // Conversions
  // ---------------------------------------------------------------------------

  function StatusToStored(s: Status): StoredStatus {
    match s
    case Active => StoredActive
    case Closed => StoredClosed
    case Expired => StoredExpired
  }

  function StoredToStatus(s: StoredStatus): Status {
    match s
    case StoredActive => Active
    case StoredClosed => Closed
    case StoredExpired => Expired
  }

  function SensitivityToStored(s: Sensitivity): StoredSensitivity {
    match s
    case Public => StoredPublic
    case Internal => StoredInternal
    case Confidential => StoredConfidential
    case Restricted => StoredRestricted
  }

  function StoredToSensitivity(s: StoredSensitivity): Sensitivity {
    match s
    case StoredPublic => Public
    case StoredInternal => Internal
    case StoredConfidential => Confidential
    case StoredRestricted => Restricted
  }

  /** Whole seconds of a duration, truncating toward zero. */
  function NumSeconds(d: int): int {
    if d >= 0 then d / SECOND else -((-d) / SECOND)
  }

  function DomainToStored(s: TaskSession): StoredSession {
    StoredSession(s.sessionId, s.agentId, s.chainSnapshot, s.intent, s.tools, NumSeconds(s.timeLimit), s.callBudget,
                  s.callsMade, s.rateLimit, s.windowStart, s.windowCalls, s.windowSecs,
                  SensitivityToStored(s.ceiling), s.createdAt, StatusToStored(s.status))
  }

  function ClampedSecs(secs: int): int {
    if secs < MAX_SESSION_TIME_LIMIT_SECS then secs else MAX_SESSION_TIME_LIMIT_SECS
  }

  function StoredToDomain(r: StoredSession): TaskSession {
    TaskSession(r.sessionId, r.agentId, r.chainSnapshot, r.intent, r.tools, [], ClampedSecs(r.timeLimitSecs) * SECOND,
                r.callBudget, r.callsMade, r.rateLimit, r.windowStart, r.windowCalls, r.windowSecs,
                StoredToSensitivity(r.ceiling), r.createdAt, StoredToStatus(r.status))
  }

  /** The row that a reloaded session would be saved as. */
  function ClampRow(r: StoredSession): StoredSession {
    r.(timeLimitSecs := ClampedSecs(r.timeLimitSecs))
  }

  /**
   * Saving and reloading loses the credential list, fractions of a second and anything past a
   * day of the time limit, and nothing else; a row survives being loaded and saved again exactly
   * when its limit was within a day.
   */
  lemma ConversionRoundTrip(s: TaskSession, r: StoredSession)
    ensures StoredToDomain(DomainToStored(s)) ==
            s.(credentials := [], timeLimit := ClampedSecs(NumSeconds(s.timeLimit)) * SECOND)
    ensures DomainToStored(StoredToDomain(r)) == ClampRow(r)
    ensures DomainToStored(StoredToDomain(r)) == r <==> r.timeLimitSecs <= MAX_SESSION_TIME_LIMIT_SECS
  {
  }

  ghost function Longest(names: seq<string>): nat {
    if names == [] then 0 else var rest := Longest(names[1..]); if |names[0]| > rest then |names[0]| else rest
  }

  lemma {:induction false} LongerIsFresh(names: seq<string>, name: string)
    requires |name| > Longest(names)
    ensures name !in names
  {
    if names != [] {
      LongerIsFresh(names[1..], name);
    }
  }

  /**
   * The credential list is not saved, and a reloaded empty list authorizes everything: a reload
   * keeps what a session may refer to exactly when it was never restricted.
   */
  lemma ReloadKeepsCredentialsIff(s: TaskSession)
    ensures var reloaded := StoredToDomain(DomainToStored(s));
            (forall c :: reloaded.IsCredentialAuthorized(c) ==> s.IsCredentialAuthorized(c)) <==> s.credentials == []
  {
    var reloaded := StoredToDomain(DomainToStored(s));
    if s.credentials != [] {
      var name := seq(Longest(s.credentials) + 1, _ => 'x');
      LongerIsFresh(s.credentials, name);
      assert reloaded.IsCredentialAuthorized(name) && !s.IsCredentialAuthorized(name);
    }
  }

  // ---------------------------------------------------------------------------
  // Storage
  // ---------------------------------------------------------------------------

  /** A write is committed and reported so, committed without the report arriving, or not made. */
  datatype Write = Committed | ReplyLost | Failed {
    predicate Landed() {
      !Failed?
    }
  }

  function InsertRow(rows: Rows, r: StoredSession, write: Write): Rows {
    if write.Landed() && r.sessionId !in rows then rows[r.sessionId := r] else rows
  }

  /** An update of a row that is not there changes nothing and is reported as an error. */
  function UpdateRow(rows: Rows, r: StoredSession, write: Write): Rows {
    if write.Landed() && r.sessionId in rows then rows[r.sessionId := r] else rows
  }

  predicate UpdateReported(rows: Rows, r: StoredSession, write: Write) {
    write.Committed? && r.sessionId in rows
  }

  /** A time as the storage reads it back: rounded to milliseconds, then cut to whole seconds. */
  function SqlSecond(t: int): int {
    (t + MILLISECOND / 2) / MILLISECOND / 1000
  }

  /**
   * The condition of `delete_expired_sessions`, which compares whole seconds; closed rows are never
   * deleted.
   */
  predicate RowExpired(r: StoredSession, now: int) {
    || r.status == StoredExpired
    || (r.status == StoredActive && SqlSecond(r.createdAt) + r.timeLimitSecs < now / SECOND)
  }

  function DeleteExpired(rows: Rows, now: int): Rows {
    map id | id in rows && !RowExpired(rows[id], now) :: rows[id]
  }

  // ---------------------------------------------------------------------------
  // The store as a class; each method runs under the write lock
  // ---------------------------------------------------------------------------

  /** An operation on a cached session writes through when it was accepted or found the session expired. */
  predicate WritesThrough(o: Outcome) {
    o.Accepted() || o.error.value.SessionExpired?
  }

  /** The result of a use: a refusal, a failed write-through, or the new session. */
  ghost predicate ReportsUse(r: Result<TaskSession, SessionError>, rows: Rows, o: Outcome, write: Write) {
    if !o.Accepted() then r == Err(o.error.value)
    else if UpdateReported(rows, DomainToStored(o.session), write) then r == Ok(o.session)
    else r == Err(StorageWriteThrough(o.session.sessionId))
  }

  class Store {
    var cache: Sessions
    var rows: Rows

    /** `new`, hence also what a restart finds: the cache is filled from the rows. */
    constructor (rows: Rows)
      requires forall id :: id in rows ==> rows[id].sessionId == id
      ensures this.rows == rows
      ensures cache == Reloaded(rows)
    {
      this.rows := rows;
      this.cache := map[];
      new;
      var rest := rows.Keys;
      while rest != {}
        invariant rest <= rows.Keys && this.rows == rows
        invariant cache.Keys == rows.Keys - rest
        invariant forall id :: id in cache ==> cache[id] == StoredToDomain(rows[id])
        decreases rest
      {
        var id :| id in rest;
        var session := StoredToDomain(rows[id]);
        cache := cache[session.sessionId := session];
        rest := rest - {id};
      }
    }

    /** A failed insertion is only logged. */
    method InsertSession(r: StoredSession, write: Write)
      modifies this`rows
      ensures rows == InsertRow(old(rows), r, write)
    {
      if r.sessionId !in rows && write.Landed() {
        rows := rows[r.sessionId := r];
      }
    }

    /** Without interleaving; the row is written before the lock is taken. */
    method Create(id: SessionId, req: CreateRequest, tWindow: int, tCreated: int, write: Write) returns (s: TaskSession)
      modifies this
      ensures s == NewSession(id, req, req.timeLimit, tWindow, tCreated)
      ensures cache == old(cache)[id := s] && rows == InsertRow(old(rows), DomainToStored(s), write)
    {
      s := NewSession(id, req, req.timeLimit, tWindow, tCreated);
      InsertSession(DomainToStored(s), write);
      cache := cache[id := s];
    }

    method CreateIfUnderCap(id: SessionId, req: CreateRequest, max: nat, tWindow: int, tCreated: int, write: Write)
      returns (r: Result<TaskSession, SessionError>)
      modifies this
      ensures r.Ok? <==> |ActiveIds(old(cache), req.agentId)| < max
      ensures r.Ok? ==>
                && r.value == NewSession(id, req, req.timeLimit, tWindow, tCreated)
                && cache == old(cache)[id := r.value]
                && rows == InsertRow(old(rows), DomainToStored(r.value), write)
      ensures r.Err? ==>
                && r.error == TooManySessions(req.agentId, max, |ActiveIds(old(cache), req.agentId)|)
                && cache == old(cache) && rows == old(rows)
    {
      var active := CountActive(cache, req.agentId);
      if active >= max {
        return Err(TooManySessions(req.agentId, max, active));
      }
      var s := NewSession(id, req, req.timeLimit, tWindow, tCreated);
      InsertSession(DomainToStored(s), write);
      cache := cache[id := s];
      return Ok(s);
    }

    method UpdateSession(r: StoredSession, write: Write) returns (ok: bool)
      modifies this`rows
      ensures rows == UpdateRow(old(rows), r, write)
      ensures ok == UpdateReported(old(rows), r, write)
    {
      ok := false;
      if r.sessionId in rows {
        if write.Landed() {
          rows := rows[r.sessionId := r];
        }
        ok := write.Committed?;
      }
    }

    method UseSession(id: SessionId, tool: string, agent: Option<Uuid>, tExpiry: int, tRate: int, write: Write)
      returns (r: Result<TaskSession, SessionError>)
      requires WellKeyed(cache)
      modifies this
      ensures WellKeyed(cache)
      ensures id !in old(cache) ==> r == Err(NotFound(id)) && cache == old(cache) && rows == old(rows)
      ensures id in old(cache) ==>
                var o := UseOne(old(cache)[id], tool, agent, tExpiry, tRate);
                && cache == Put(old(cache), id, o)
                && rows == RowsAfter(old(rows), o, write)
                && ReportsUse(r, old(rows), o, write)
    {
      if id !in cache {
        return Err(NotFound(id));
      }
      var session := cache[id];
      assert cache == cache[id := session];
      if agent.Some? && agent.value != session.agentId {
        return Err(AgentMismatch(id, session.agentId, agent.value));
      }
      if session.status == Closed {
        return Err(AlreadyClosed(id));
      }
      if session.IsExpired(tExpiry) {
        session := session.(status := Expired);
        cache := cache[id := session];
        var _ := UpdateSession(DomainToStored(session), write);
        return Err(SessionExpired(id));
      }
      if session.IsBudgetExceeded() {
        return Err(BudgetExceeded(id, session.callBudget, session.callsMade));
      }
      if !session.IsToolAuthorized(tool) {
        return Err(ToolNotAuthorized(id, tool));
      }
      var rejected;
      session, rejected := CheckRateLimit(session, tRate);
      if rejected {
        return Err(RateLimited(id, session.rateLimit.value));
      }
      session := session.(callsMade := session.callsMade + 1);
      cache := cache[id := session];
      var ok := UpdateSession(DomainToStored(session), write);
      if !ok {
        return Err(StorageWriteThrough(id));
      }
      return Ok(session);
    }

    method UseSessionBatch(id: SessionId, tools: seq<string>, agent: Option<Uuid>, tExpiry: int, tCheck: int, tCharge: int, write: Write)
      returns (r: Result<TaskSession, SessionError>)
      requires WellKeyed(cache)
      modifies this
      ensures WellKeyed(cache)
      ensures id !in old(cache) ==> r == Err(NotFound(id)) && cache == old(cache) && rows == old(rows)
      ensures id in old(cache) ==>
                var o := UseBatch(old(cache)[id], tools, agent, tExpiry, tCheck, tCharge);
                && cache == Put(old(cache), id, o)
                && rows == RowsAfter(old(rows), o, write)
                && ReportsUse(r, old(rows), o, write)
    {
      if id !in cache {
        return Err(NotFound(id));
      }
      var session := cache[id];
      assert cache == cache[id := session];
      if agent.Some? && agent.value != session.agentId {
        return Err(AgentMismatch(id, session.agentId, agent.value));
      }
      if session.status == Closed {
        return Err(AlreadyClosed(id));
      }
      if session.IsExpired(tExpiry) {
        session := session.(status := Expired);
        cache := cache[id := session];
        var _ := UpdateSession(DomainToStored(session), write);
        return Err(SessionExpired(id));
      }
      if session.callsMade + |tools| > session.callBudget {
        return Err(BudgetExceeded(id, session.callBudget, session.callsMade));
      }
      for i := 0 to |tools|
        invariant FirstUnauthorized(session, tools) == FirstUnauthorized(session, tools[i..])
        invariant cache == old(cache) && rows == old(rows)
      {
        if !session.IsToolAuthorized(tools[i]) {
          return Err(ToolNotAuthorized(id, tools[i]));
        }
      }
      if session.rateLimit.Some? && !session.WindowOver(tCheck)
         && session.windowCalls + |tools| > session.rateLimit.value {
        return Err(RateLimited(id, session.rateLimit.value));
      }
      session := ChargeWindow(session, |tools|, tCharge);
      session := session.(callsMade := session.callsMade + |tools|);
      cache := cache[id := session];
      var ok := UpdateSession(DomainToStored(session), write);
      if !ok {
        return Err(StorageWriteThrough(id));
      }
      return Ok(session);
    }

    /** A failed write is logged and forgotten: closing is not durable. */
    method Close(id: SessionId, write: Write) returns (r: Result<TaskSession, SessionError>)
      requires WellKeyed(cache)
      modifies this
      ensures WellKeyed(cache)
      ensures id !in old(cache) ==> r == Err(NotFound(id)) && cache == old(cache) && rows == old(rows)
      ensures id in old(cache) ==>
                var o := CloseOne(old(cache)[id]);
                && cache == Put(old(cache), id, o)
                && rows == RowsAfter(old(rows), o, write)
                && r == if o.Accepted() then Ok(o.session) else Err(o.error.value)
    {
      if id !in cache {
        return Err(NotFound(id));
      }
      var session := cache[id];
      assert cache == cache[id := session];
      if session.status == Closed {
        return Err(AlreadyClosed(id));
      }
      session := session.(status := Closed);
      cache := cache[id := session];
      var _ := UpdateSession(DomainToStored(session), write);
      return Ok(session);
    }

    /** The part of `close_sessions_for_agent` under the lock; the closures are still to be persisted. */
    method MarkClosed(agent: Uuid) returns (toPersist: Rows, closed: nat)
      modifies this`cache
      ensures cache == AfterCloseAgent(old(cache), agent)
      ensures toPersist == Closures(old(cache), agent)
      ensures closed == |toPersist|
    {
      var before := cache;
      cache, closed := CloseAll(cache, agent);
      toPersist := map id | id in before && before[id].agentId == agent && before[id].status == Active ::
                     DomainToStored(before[id].(status := Closed));
      assert toPersist.Keys == ActiveIds(before, agent);
    }

    /** `retain` reads the clock anew for each session. */
    method CleanupExpired(readAt: SessionId -> int, tDelete: int, deleted: bool) returns (removed: nat)
      modifies this
      ensures cache == Unexpired(old(cache), readAt)
      ensures rows == if deleted then DeleteExpired(old(rows), tDelete) else old(rows)
      ensures removed == |old(cache)| - |cache|
    {
      var before := |cache|;
      var kept := map id | id in cache && !cache[id].IsExpired(readAt(id)) :: cache[id];
      assert cache.Keys == kept.Keys + (cache.Keys - kept.Keys);
      cache := kept;
      removed := before - |cache|;
      if deleted {
        rows := DeleteExpired(rows, tDelete);
      }
    }
  }

  function Reloaded(rows: Rows): Sessions {
    map id | id in rows :: StoredToDomain(rows[id])
  }

  function RowsAfter(rows: Rows, o: Outcome, write: Write): Rows {
    if WritesThrough(o) then UpdateRow(rows, DomainToStored(o.session), write) else rows
  }

  /** The rows that closing an agent's sessions leaves to be written. */
  function Closures(m: Sessions, agent: Uuid): Rows {
    map id | id in m && m[id].agentId == agent && m[id].status == Active :: DomainToStored(m[id].(status := Closed))
  }

  /** Unlike the in-memory store, closed sessions stay until their time is up. */
  function Unexpired(m: Sessions, readAt: SessionId -> int): Sessions {
    map id | id in m && !m[id].IsExpired(readAt(id)) :: m[id]
  }
}
