/**
 * Which calls the storage-backed store acknowledges, over all write failures and restarts: calls on
 * the terms the session was created with, each of them in storage when it is acknowledged.
 */
module DurableAdmission {
  import opened Common
  import opened SessionModel
  import opened SessionStore
  import opened DurableStore
  import opened DurableRuns
  import Admission
  import SessionRuns

  // ---------------------------------------------------------------------------
  // What is saved, in fields
  // ---------------------------------------------------------------------------

  /** The row of a session has its fields, the limit in whole seconds and no credentials. */
  lemma SavedFields(s: TaskSession)
    ensures var r := DomainToStored(s);
            && r.sessionId == s.sessionId && r.agentId == s.agentId && r.chainSnapshot == s.chainSnapshot
            && r.intent == s.intent && r.tools == s.tools && r.callBudget == s.callBudget && r.callsMade == s.callsMade
            && r.rateLimit == s.rateLimit && r.windowStart == s.windowStart && r.windowCalls == s.windowCalls
            && r.windowSecs == s.windowSecs && r.createdAt == s.createdAt
            && (r.status == StoredActive <==> s.status == Active) && (r.status == StoredClosed <==> s.status == Closed)
            && (r.status == StoredExpired <==> s.status == Expired)
            && (r.ceiling == StoredPublic <==> s.ceiling == Public) && (r.ceiling == StoredInternal <==> s.ceiling == Internal)
            && (r.ceiling == StoredConfidential <==> s.ceiling == Confidential)
            && (r.ceiling == StoredRestricted <==> s.ceiling == Restricted)
    ensures var secs := DomainToStored(s).timeLimitSecs;
            if s.timeLimit >= 0 then secs * 1_000_000_000 <= s.timeLimit < (secs + 1) * 1_000_000_000
            else (secs - 1) * 1_000_000_000 < s.timeLimit <= secs * 1_000_000_000
  {
  }

  /** A reloaded session runs for its saved limit, but never longer than a day. */
  lemma ReloadedLimit(r: StoredSession)
    ensures StoredToDomain(r).timeLimit == if r.timeLimitSecs < 86400 then r.timeLimitSecs * 1_000_000_000 else 86_400_000_000_000
  {
  }

  /** Clean-up evicts exactly the sessions that are marked expired or late; closed ones in time stay. */
  lemma EvictionIff(m: Sessions, readAt: SessionId -> int, id: SessionId)
    ensures id in Unexpired(m, readAt) <==>
            id in m && m[id].status != Expired && readAt(id) <= m[id].createdAt + m[id].timeLimit
    ensures id in Unexpired(m, readAt) ==> Unexpired(m, readAt)[id] == m[id]
  {
  }

  /** Storage deletes exactly the rows marked expired and the active ones whose last second is over. */
  lemma DeletionIff(rows: Rows, now: int, id: SessionId)
    ensures id in DeleteExpired(rows, now) <==>
            && id in rows && rows[id].status != StoredExpired
            && (rows[id].status == StoredActive ==> now / 1_000_000_000 <= SqlSecond(rows[id].createdAt) + rows[id].timeLimitSecs)
    ensures id in DeleteExpired(rows, now) ==> DeleteExpired(rows, now)[id] == rows[id]
  {
  }

  // ---------------------------------------------------------------------------
  // Storage writes over runs
  // ---------------------------------------------------------------------------

  /** Only creating a session creates a row; an update of a missing row does not bring it back. */
  lemma RowsComeFromCreation(ds: seq<State>, steps: seq<Step>, i: nat, id: SessionId)
    requires IsRun(ds, steps) && i < |steps| && id in ds[i + 1].rows && id !in ds[i].rows
    ensures (steps[i].BeginCreate? || steps[i].CreateCapped?) && steps[i].id == id && id !in ds[i].born
  {
    var d, step := ds[i], steps[i];
    RunKeepsInv(ds, steps, i);
    assert ds[i + 1] == Next(d, step);
    Projection(d, step, id);
    assert ViewOf(d, id).row == None && ViewOf(ds[i + 1], id).row != None;
  }

  /** The write of the step, if it has one. */
  predicate WriteReported(step: Step) {
    (step.Use? || step.Batch?) && step.write == Committed
  }

  /**
   * A call is acknowledged only if its write was reported, and then the row is exactly the session
   * with the call charged, and so is the cache.
   */
  lemma AcknowledgedIsStored(ds: seq<State>, steps: seq<Step>, i: nat)
    requires IsRun(ds, steps) && i < |steps| && ds[i + 1].log != ds[i].log
    ensures WriteReported(steps[i])
    ensures var id := steps[i].id;
            && id in ds[i].rows && id in ds[i].cache && id in ds[i + 1].rows && id in ds[i + 1].cache
            && ds[i + 1].rows[id] == DomainToStored(ds[i + 1].cache[id])
            && ds[i + 1].cache[id].callsMade ==
               ds[i].cache[id].callsMade + (if steps[i].Use? then 1 else |steps[i].tools|)
  {
    var d, step := ds[i], steps[i];
    RunKeepsInv(ds, steps, i);
    assert ds[i + 1] == Next(d, step);
    LogGrows(d, step);
  }

  /** The calls a step gets let through, and when. */
  ghost function Granted(d: State, step: Step): Outcome
    requires (step.Use? || step.Batch?) && step.id in d.cache
  {
    match step
    case Use(id, tool, agent, tExpiry, tRate, _) => UseOne(d.cache[id], tool, agent, tExpiry, tRate)
    case Batch(id, tools, agent, tExpiry, tCheck, tCharge, _) => UseBatch(d.cache[id], tools, agent, tExpiry, tCheck, tCharge)
  }

  ghost function Entry(step: Step): SessionRuns.Accept
    requires step.Use? || step.Batch?
  {
    match step
    case Use(id, _, _, _, tRate, _) => SessionRuns.Accept(id, tRate, 1)
    case Batch(id, tools, _, _, _, tCharge, _) => SessionRuns.Accept(id, tCharge, |tools|)
  }

  /** The log grows exactly by a call that was let through and whose row took the write. */
  lemma LogGrows(d: State, step: Step)
    requires Keyed(d)
    ensures Next(d, step).log != d.log <==>
            && (step.Use? || step.Batch?) && step.id in d.cache && Granted(d, step).error == None
            && step.write == Committed && step.id in d.rows
    ensures Next(d, step).log != d.log ==>
              && Next(d, step).log == d.log + [Entry(step)]
              && Next(d, step).cache == d.cache[step.id := Granted(d, step).session]
              && Next(d, step).rows == d.rows[step.id := DomainToStored(Granted(d, step).session)]
              && Granted(d, step).session.sessionId == step.id
  {
    if (step.Use? || step.Batch?) && step.id in d.cache {
      ThroughLog(d, step.id, Granted(d, step), Entry(step), step.write);
    }
  }

  lemma ThroughLog(d: State, id: SessionId, o: Outcome, e: SessionRuns.Accept, write: Write)
    requires o.session.sessionId == id == e.id && id in d.cache
    ensures var d' := Through(d, id, o, e.n, e.at, write);
            && (d'.log != d.log <==> o.error == None && write == Committed && id in d.rows)
            && (d'.log != d.log ==>
                  && d'.log == d.log + [e] && d'.cache == d.cache[id := o.session]
                  && d'.rows == d.rows[id := DomainToStored(o.session)])
  {
  }

  // ---------------------------------------------------------------------------
  // The terms a session was created with, over runs
  // ---------------------------------------------------------------------------

  /** The latest that a session created as `b` may be used; saving cuts a negative limit to at most none. */
  function Deadline(b: TaskSession): int {
    b.createdAt + if b.timeLimit >= 0 then b.timeLimit else 0
  }

  predicate OnTerms(b: TaskSession, s: TaskSession) {
    && s.sessionId == b.sessionId && s.agentId == b.agentId && s.tools == b.tools
    && s.createdAt == b.createdAt && s.createdAt + s.timeLimit <= Deadline(b)
  }

  predicate RowOnTerms(b: TaskSession, r: StoredSession) {
    && r.sessionId == b.sessionId && r.agentId == b.agentId && r.tools == b.tools
    && r.createdAt == b.createdAt && r.createdAt + r.timeLimitSecs * SECOND <= Deadline(b)
  }

  lemma SavedOnTerms(b: TaskSession, s: TaskSession)
    requires OnTerms(b, s)
    ensures RowOnTerms(b, DomainToStored(s))
  {
    SavedFields(s);
  }

  lemma LoadedOnTerms(b: TaskSession, r: StoredSession)
    requires RowOnTerms(b, r)
    ensures OnTerms(b, StoredToDomain(r))
  {
  }

  predicate AllOnTerms(v: View) {
    if v.born.None? then v.cached.None? && v.row.None? && v.pending.None? && v.creating.None?
    else
      var b := v.born.value;
      && (v.cached.Some? ==> OnTerms(b, v.cached.value))
      && (v.creating.Some? ==> OnTerms(b, v.creating.value))
      && (v.row.Some? ==> RowOnTerms(b, v.row.value))
      && (v.pending.Some? ==> RowOnTerms(b, v.pending.value))
  }

  lemma ThroughOnTerms(v: View, o: Outcome, n: nat, at: int, write: Write)
    requires AllOnTerms(v) && v.cached.Some? && SameTerms(o.session, v.cached.value)
    ensures AllOnTerms(ThroughView(v, o, n, at, write))
  {
    SavedOnTerms(v.born.value, o.session);
  }

  lemma UseKeepsTerms(s: TaskSession, tool: string, agent: Option<Uuid>, tExpiry: int, tRate: int)
    ensures SameTerms(UseOne(s, tool, agent, tExpiry, tRate).session, s)
  {
  }

  lemma BatchKeepsTerms(s: TaskSession, tools: seq<string>, agent: Option<Uuid>, tExpiry: int, tCheck: int, tCharge: int)
    ensures SameTerms(UseBatch(s, tools, agent, tExpiry, tCheck, tCharge).session, s)
  {
  }

  lemma UseOnTerms(v: View, tool: string, agent: Option<Uuid>, tExpiry: int, tRate: int, write: Write)
    requires AllOnTerms(v)
    ensures AllOnTerms(UseView(v, tool, agent, tExpiry, tRate, write))
  {
    if v.cached.Some? {
      UseKeepsTerms(v.cached.value, tool, agent, tExpiry, tRate);
      ThroughOnTerms(v, UseOne(v.cached.value, tool, agent, tExpiry, tRate), 1, tRate, write);
    }
  }

  lemma BatchOnTerms(v: View, tools: seq<string>, agent: Option<Uuid>, tExpiry: int, tCheck: int, tCharge: int, write: Write)
    requires AllOnTerms(v)
    ensures AllOnTerms(BatchView(v, tools, agent, tExpiry, tCheck, tCharge, write))
  {
    if v.cached.Some? {
      BatchKeepsTerms(v.cached.value, tools, agent, tExpiry, tCheck, tCharge);
      ThroughOnTerms(v, UseBatch(v.cached.value, tools, agent, tExpiry, tCheck, tCharge), |tools|, tCharge, write);
    }
  }

  lemma CreationOnTerms(v: View, s: TaskSession, admitted: bool, write: Write)
    requires AllOnTerms(v) && v.born.None?
    ensures AllOnTerms(BeginView(v, s, write)) && AllOnTerms(CappedView(v, s, admitted, write))
  {
    SavedOnTerms(s, s);
  }

  lemma ClosingOnTerms(v: View, agentId: Uuid, write: Write)
    requires AllOnTerms(v)
    ensures AllOnTerms(CloseView(v, write)) && AllOnTerms(CloseAgentView(v, agentId))
  {
    if v.cached.Some? {
      SavedOnTerms(v.born.value, v.cached.value.(status := Closed));
    }
  }

  lemma SweepOnTerms(v: View, tEvict: int, tDelete: int, deleted: bool, write: Write)
    requires AllOnTerms(v)
    ensures AllOnTerms(CleanupView(v, tEvict, tDelete, deleted)) && AllOnTerms(RestartView(v))
    ensures AllOnTerms(PersistView(v, write)) && AllOnTerms(FinishView(v))
  {
    if v.row.Some? {
      LoadedOnTerms(v.born.value, v.row.value);
    }
  }

  lemma StepOnTerms(v: View, id: SessionId, step: Step, admitted: bool)
    requires AllOnTerms(v) && ((step.BeginCreate? || step.CreateCapped?) ==> v.born.None?)
    ensures AllOnTerms(ViewStep(v, id, step, admitted))
  {
    match step
    case Use(_, tool, agent, tExpiry, tRate, write) => UseOnTerms(v, tool, agent, tExpiry, tRate, write);
    case Batch(_, tools, agent, tExpiry, tCheck, tCharge, write) =>
      BatchOnTerms(v, tools, agent, tExpiry, tCheck, tCharge, write);
    case BeginCreate(target, req, tWindow, tCreated, write) =>
      CreationOnTerms(v, NewSession(target, req, req.timeLimit, tWindow, tCreated), true, write);
    case CreateCapped(target, req, _, tWindow, tCreated, write) =>
      CreationOnTerms(v, NewSession(target, req, req.timeLimit, tWindow, tCreated), admitted, write);
    case Close(_, write) => ClosingOnTerms(v, 0, write);
    case CloseAgent(agentId) => ClosingOnTerms(v, agentId, Failed);
    case FinishCreate(_) => SweepOnTerms(v, 0, 0, false, Failed);
    case Persist(_, write) => SweepOnTerms(v, 0, 0, false, write);
    case Cleanup(readAt, tDelete, deleted) => SweepOnTerms(v, readAt(id), tDelete, deleted, Failed);
    case Restart => SweepOnTerms(v, 0, 0, false, Failed);
  }

  lemma {:induction false} RunOnTerms(ds: seq<State>, steps: seq<Step>, i: nat, id: SessionId)
    requires IsRun(ds, steps) && i < |ds|
    ensures AllOnTerms(ViewOf(ds[i], id))
  {
    if i > 0 {
      var d, step := ds[i - 1], steps[i - 1];
      RunOnTerms(ds, steps, i - 1, id);
      RunKeepsInv(ds, steps, i - 1);
      Projection(d, step, id);
      if About(step, id) {
        StepOnTerms(ViewOf(d, id), id, step, Admitted(d, step));
      }
    }
  }

  /** The step asked for exactly these calls, on the terms that the session `b` was created with. */
  ghost predicate Asked(step: Step, e: SessionRuns.Accept, b: TaskSession) {
    match step
    case Use(id, tool, agent, tExpiry, tRate, _) =>
      && e == SessionRuns.Accept(id, tRate, 1) && id == b.sessionId
      && Admission.OwnAgent(b, agent) && Admission.Lists(b, tool) && tExpiry <= Deadline(b)
    case Batch(id, tools, agent, tExpiry, _, tCharge, _) =>
      && e == SessionRuns.Accept(id, tCharge, |tools|) && id == b.sessionId
      && Admission.OwnAgent(b, agent) && Admission.ListsAll(b, tools) && tExpiry <= Deadline(b)
    case _ => false
  }

  lemma StepAsked(d: State, step: Step, b: TaskSession)
    requires (step.Use? || step.Batch?) && step.id in d.cache && OnTerms(b, d.cache[step.id]) && b.sessionId == step.id
    requires Granted(d, step).error == None
    ensures d.cache[step.id].status == Active && Asked(step, Entry(step), b)
  {
    var s := d.cache[step.id];
    match step
    case Use(_, tool, agent, tExpiry, tRate, _) =>
      Admission.UseAdmittedIff(s, tool, agent, tExpiry, tRate);
    case Batch(_, tools, agent, tExpiry, tCheck, tCharge, _) =>
      Admission.BatchAdmittedIff(s, tools, agent, tExpiry, tCheck, tCharge);
      forall i | 0 <= i < |tools|
        ensures Admission.Lists(b, tools[i])
      {
        assert Admission.Lists(s, tools[i]);
      }
  }

  /** A session is born once. */
  lemma BornStays(d: State, step: Step, id: SessionId)
    requires Enabled(d, step) && id in d.born
    ensures id in Next(d, step).born && Next(d, step).born[id] == d.born[id]
  {
  }

  /**
   * Over every run, whatever writes fail and whenever the process restarts, every acknowledged call
   * was asked for by the agent the session was created for (or by a caller that named none), for
   * tools it was created with, while it was active and before its deadline.
   */
  lemma {:induction false} EveryAckWasAdmitted(ds: seq<State>, steps: seq<Step>, i: nat, j: nat) returns (k: nat)
    requires IsRun(ds, steps) && i < |ds| && j < |ds[i].log|
    ensures k < i && ds[i].log[j].id in ds[k].cache && ds[k].cache[ds[i].log[j].id].status == Active
    ensures ds[i].log[j].id in ds[i].born && Asked(steps[k], ds[i].log[j], ds[i].born[ds[i].log[j].id])
  {
    var d, step := ds[i - 1], steps[i - 1];
    assert ds[i] == Next(d, step);
    RunKeepsInv(ds, steps, i - 1);
    LogGrows(d, step);
    if j < |d.log| {
      assert ds[i].log[j] == d.log[j];
      k := EveryAckWasAdmitted(ds, steps, i - 1, j);
      BornStays(d, step, d.log[j].id);
    } else {
      k := i - 1;
      var id := step.id;
      RunOnTerms(ds, steps, i - 1, id);
      assert Sound(ViewOf(d, id), d.clock) && Filed(ViewOf(d, id), id);
      StepAsked(d, step, d.born[id]);
      BornStays(d, step, id);
      assert ds[i].log[j] == Entry(step);
    }
  }
}
