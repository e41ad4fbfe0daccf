/**
 * The rate limit of the storage-backed store over restarts: every acknowledgement was written to
 * the row together with the window it fell into, so a restart forgets no acknowledged call.
 */
module DurableRate {
  import opened Common
  import opened SessionModel
  import opened SessionStore
  import opened DurableStore
  import opened DurableRuns
  import SessionRuns

  type Log = seq<SessionRuns.Accept>

  /** A value of the session `b`, in the cache or read back from a row, against the acknowledged calls. */
  ghost predicate Keeps(b: TaskSession, s: TaskSession, calls: Log, cap: nat) {
    && s.sessionId == b.sessionId && s.rateLimit == b.rateLimit && s.windowSecs == b.windowSecs
    && SessionRuns.RateInv(s, calls, cap)
  }

  ghost predicate Bounded(b: TaskSession, calls: Log, cap: nat) {
    forall lo, hi :: hi - lo <= SessionRuns.WindowLength(b) ==> SessionRuns.Within(calls, b.sessionId, lo, hi) <= 2 * cap
  }

  /** Whatever is held about the session keeps the rate invariant. */
  ghost predicate Rated(v: View, cap: nat) {
    if v.born.None? then v.calls == []
    else
      var b := v.born.value;
      SessionRuns.Limited(b, cap) ==>
        && Bounded(b, v.calls, cap)
        && (v.cached.Some? ==> Keeps(b, v.cached.value, v.calls, cap))
        && (v.row.Some? ==> Keeps(b, StoredToDomain(v.row.value), v.calls, cap))
        && (v.pending.Some? ==> Keeps(b, StoredToDomain(v.pending.value), v.calls, cap))
        && (v.creating.Some? ==> Keeps(b, v.creating.value, v.calls, cap))
  }

  /** Only the window counts. */
  lemma KeepsSame(b: TaskSession, s: TaskSession, t: TaskSession, calls: Log, cap: nat)
    requires Keeps(b, s, calls, cap)
    requires t.sessionId == s.sessionId && t.rateLimit == s.rateLimit && t.windowSecs == s.windowSecs
    requires t.windowStart == s.windowStart && t.windowCalls == s.windowCalls
    ensures Keeps(b, t, calls, cap)
  {
    SessionRuns.Recount(s, t, calls, cap);
  }

  lemma KeepsSaved(b: TaskSession, s: TaskSession, calls: Log, cap: nat)
    requires Keeps(b, s, calls, cap)
    ensures Keeps(b, StoredToDomain(DomainToStored(s)), calls, cap)
  {
    KeepsSame(b, s, StoredToDomain(DomainToStored(s)), calls, cap);
  }

  lemma KeepsBounded(b: TaskSession, s: TaskSession, calls: Log, cap: nat)
    requires Keeps(b, s, calls, cap)
    ensures Bounded(b, calls, cap)
  {
  }

  /** A charge that is not acknowledged leaves the invariant as if it had been. */
  lemma ForgetLast(b: TaskSession, s: TaskSession, calls: Log, e: SessionRuns.Accept, cap: nat)
    requires Keeps(b, s, calls + [e], cap)
    ensures Keeps(b, s, calls, cap)
  {
    var id, longer := s.sessionId, calls + [e];
    SessionRuns.AppendCounts(calls, e, id, s.windowStart, s.windowStart);
    forall k | 0 <= k < |calls| && calls[k].id == id
      ensures calls[k].at < s.windowStart + SessionRuns.WindowLength(s)
    {
      assert longer[k] == calls[k];
    }
    forall lo, hi
      ensures SessionRuns.Within(calls, id, lo, hi) <= SessionRuns.Within(longer, id, lo, hi)
    {
      SessionRuns.AppendCounts(calls, e, id, lo, hi);
    }
  }

  /** A use or batch of `n` calls, accepted at `at`, charged the window within the cap. */
  predicate Charges(s: TaskSession, o: Outcome, n: nat, at: int, cap: nat) {
    && s.windowStart <= at && n <= cap
    && o.session == ChargeWindow(s, n, at).(callsMade := o.session.callsMade)
    && (!s.WindowOver(at) ==> s.windowCalls + n <= cap)
  }

  lemma UseCharges(s: TaskSession, tool: string, agent: Option<Uuid>, tExpiry: int, tRate: int, cap: nat)
    requires SessionRuns.Limited(s, cap) && s.windowStart <= tRate
    ensures var o := UseOne(s, tool, agent, tExpiry, tRate); o.Accepted() ==> Charges(s, o, 1, tRate, cap)
  {
  }

  lemma BatchCharges(s: TaskSession, tools: seq<string>, agent: Option<Uuid>, tExpiry: int, tCheck: int, tCharge: int, cap: nat)
    requires SessionRuns.Limited(s, cap) && s.windowStart <= tCharge && tCheck <= tCharge && |tools| <= cap
    ensures var o := UseBatch(s, tools, agent, tExpiry, tCheck, tCharge); o.Accepted() ==> Charges(s, o, |tools|, tCharge, cap)
  {
  }

  /** The session's values after an accepted use, whether or not it was acknowledged. */
  lemma ChargeKeeps(b: TaskSession, s: TaskSession, o: Outcome, n: nat, at: int, calls: Log, cap: nat)
    requires SessionRuns.Limited(b, cap) && Keeps(b, s, calls, cap) && Charges(s, o, n, at, cap)
    ensures Keeps(b, o.session, calls + [SessionRuns.Accept(o.session.sessionId, at, n)], cap)
    ensures Keeps(b, o.session, calls, cap)
  {
    var e := SessionRuns.Accept(s.sessionId, at, n);
    SessionRuns.RateCharge(s, o.session, calls, n, at, cap);
    ForgetLast(b, o.session, calls, e, cap);
  }

  // ---------------------------------------------------------------------------
  // Steps of one session
  // ---------------------------------------------------------------------------

  /** An accepted use or batch: only an active session is charged, so no closure is under way. */
  lemma AcceptedRated(v: View, o: Outcome, n: nat, at: int, write: Write, clock: int, cap: nat)
    requires Sound(v, clock) && Rated(v, cap) && v.cached.Some? && o.Accepted()
    requires v.born.Some? && SessionRuns.Limited(v.born.value, cap)
    requires v.cached.value.status == Active && Charges(v.cached.value, o, n, at, cap)
    ensures Rated(ThroughView(v, o, n, at, write), cap)
  {
    var b, s, v' := v.born.value, v.cached.value, ThroughView(v, o, n, at, write);
    ChargeKeeps(b, s, o, n, at, v.calls, cap);
    KeepsSaved(b, o.session, v'.calls, cap);
    KeepsBounded(b, o.session, v'.calls, cap);
  }

  lemma RefusedRated(v: View, o: Outcome, n: nat, at: int, write: Write, cap: nat)
    requires Rated(v, cap) && v.cached.Some? && !o.Accepted()
    requires o.session == v.cached.value.(status := o.session.status)
    ensures Rated(ThroughView(v, o, n, at, write), cap)
  {
    if v.born.Some? && SessionRuns.Limited(v.born.value, cap) {
      KeepsSame(v.born.value, v.cached.value, o.session, v.calls, cap);
      KeepsSaved(v.born.value, o.session, v.calls, cap);
    }
  }

  lemma UseRated(v: View, tool: string, agent: Option<Uuid>, tExpiry: int, tRate: int, write: Write, cap: nat)
    requires Sound(v, tRate) && Rated(v, cap) && v.born.Some? && SessionRuns.Limited(v.born.value, cap)
    ensures Rated(UseView(v, tool, agent, tExpiry, tRate, write), cap)
  {
    if v.cached.Some? {
      var s := v.cached.value;
      var o := UseOne(s, tool, agent, tExpiry, tRate);
      UseSpends(s, tool, agent, tExpiry, tRate);
      UseCharges(s, tool, agent, tExpiry, tRate, cap);
      if o.Accepted() {
        AcceptedRated(v, o, 1, tRate, write, tRate, cap);
      } else {
        RefusedRated(v, o, 1, tRate, write, cap);
      }
    }
  }

  lemma BatchRated(v: View, tools: seq<string>, agent: Option<Uuid>, tExpiry: int, tCheck: int, tCharge: int, write: Write, cap: nat)
    requires Sound(v, tCharge) && Rated(v, cap) && v.born.Some? && SessionRuns.Limited(v.born.value, cap)
    requires tCheck <= tCharge && |tools| <= cap
    ensures Rated(BatchView(v, tools, agent, tExpiry, tCheck, tCharge, write), cap)
  {
    if v.cached.Some? {
      var s := v.cached.value;
      var o := UseBatch(s, tools, agent, tExpiry, tCheck, tCharge);
      BatchSpends(s, tools, agent, tExpiry, tCheck, tCharge);
      BatchCharges(s, tools, agent, tExpiry, tCheck, tCharge, cap);
      if o.Accepted() {
        AcceptedRated(v, o, |tools|, tCharge, write, tCharge, cap);
      } else {
        RefusedRated(v, o, |tools|, tCharge, write, cap);
      }
    }
  }

  lemma NewbornRated(v: View, s: TaskSession, admitted: bool, write: Write, clock: int, cap: nat)
    requires Sound(v, clock) && Rated(v, cap) && v.born.None? && s.windowCalls == 0
    ensures Rated(BeginView(v, s, write), cap) && Rated(CappedView(v, s, admitted, write), cap)
  {
    SessionRuns.FreshSession(s, [], cap);
    assert Keeps(s, s, [], cap);
    KeepsSaved(s, s, [], cap);
    KeepsBounded(s, s, [], cap);
  }

  /** Closing changes the status alone, and loading and saving keep the window. */
  lemma ClosingRated(v: View, write: Write, agentId: Uuid, cap: nat)
    requires Rated(v, cap)
    ensures Rated(CloseView(v, write), cap) && Rated(CloseAgentView(v, agentId), cap)
  {
    if v.born.Some? && SessionRuns.Limited(v.born.value, cap) && v.cached.Some? {
      var b, s := v.born.value, v.cached.value.(status := Closed);
      KeepsSame(b, v.cached.value, s, v.calls, cap);
      KeepsSaved(b, s, v.calls, cap);
    }
  }

  lemma SweepRated(v: View, tEvict: int, tDelete: int, deleted: bool, write: Write, cap: nat)
    requires Rated(v, cap)
    ensures Rated(CleanupView(v, tEvict, tDelete, deleted), cap) && Rated(RestartView(v), cap)
    ensures Rated(PersistView(v, write), cap) && Rated(FinishView(v), cap)
  {
  }

  lemma StepRated(v: View, id: SessionId, step: Step, admitted: bool, clock: int, cap: nat)
    requires Sound(v, clock) && Rated(v, cap) && clock == LastReading(clock, step)
    requires (step.BeginCreate? || step.CreateCapped?) ==> v.born.None?
    requires step.Batch? ==> |step.tools| <= cap && step.tCheck <= step.tCharge
    ensures Rated(ViewStep(v, id, step, admitted), cap)
  {
    match step
    case Use(_, tool, agent, tExpiry, tRate, write) =>
      if v.born.Some? && SessionRuns.Limited(v.born.value, cap) {
        UseRated(v, tool, agent, tExpiry, tRate, write, cap);
      }
    case Batch(_, tools, agent, tExpiry, tCheck, tCharge, write) =>
      if v.born.Some? && SessionRuns.Limited(v.born.value, cap) {
        BatchRated(v, tools, agent, tExpiry, tCheck, tCharge, write, cap);
      }
    case BeginCreate(target, req, tWindow, tCreated, write) =>
      NewbornRated(v, NewSession(target, req, req.timeLimit, tWindow, tCreated), true, write, clock, cap);
    case CreateCapped(target, req, _, tWindow, tCreated, write) =>
      NewbornRated(v, NewSession(target, req, req.timeLimit, tWindow, tCreated), admitted, write, clock, cap);
    case FinishCreate(_) => SweepRated(v, 0, 0, false, Failed, cap);
    case Close(_, write) => ClosingRated(v, write, 0, cap);
    case CloseAgent(agentId) => ClosingRated(v, Failed, agentId, cap);
    case Persist(_, write) => SweepRated(v, 0, 0, false, write, cap);
    case Cleanup(readAt, tDelete, deleted) => SweepRated(v, readAt(id), tDelete, deleted, Failed, cap);
    case Restart => SweepRated(v, 0, 0, false, Failed, cap);
  }

  // ---------------------------------------------------------------------------
  // Runs
  // ---------------------------------------------------------------------------

  /** No batch on the session is larger than `cap`. */
  predicate BatchUpTo(step: Step, id: SessionId, cap: nat) {
    step.Batch? && step.id == id ==> |step.tools| <= cap
  }

  lemma ViewStepRated(d: State, id: SessionId, step: Step, cap: nat)
    requires Inv(d) && Enabled(d, step) && Rated(ViewOf(d, id), cap) && BatchUpTo(step, id, cap)
    ensures Rated(ViewOf(Next(d, step), id), cap)
  {
    var v, now := ViewOf(d, id), LastReading(d.clock, step);
    assert Sound(v, d.clock);
    ClockMoves(d, step);
    SoundLater(v, d.clock, now);
    Projection(d, step, id);
    if About(step, id) {
      if step.Batch? {
        assert Readings(step)[1] <= Readings(step)[2];
      }
      StepRated(v, id, step, Admitted(d, step), now, cap);
    }
  }

  lemma {:induction false} RunKeepsRated(ds: seq<State>, steps: seq<Step>, i: nat, id: SessionId, cap: nat)
    requires IsRun(ds, steps) && i < |ds|
    requires forall k :: 0 <= k < i ==> BatchUpTo(steps[k], id, cap)
    ensures Rated(ViewOf(ds[i], id), cap)
  {
    if i > 0 {
      RunKeepsRated(ds, steps, i - 1, id, cap);
      RunKeepsInv(ds, steps, i - 1);
      ViewStepRated(ds[i - 1], id, steps[i - 1], cap);
    }
  }

  /** Counting in the whole log or in the session's part of it is the same. */
  lemma {:induction false} WithinCalls(log: Log, id: SessionId, lo: int, hi: int)
    ensures SessionRuns.Within(log, id, lo, hi) == SessionRuns.Within(CallsOf(log, id), id, lo, hi)
  {
    if log != [] {
      var before, e := log[..|log| - 1], log[|log| - 1];
      WithinCalls(before, id, lo, hi);
      SessionRuns.AppendCounts(CallsOf(before, id), e, id, lo, hi);
    }
  }

  /**
   * Over all write failures, lost replies and restarts, any half-open span of one window length
   * holds at most twice as many acknowledged calls of a session as the larger of its rate limit and
   * its largest batch, even after the session is gone.
   */
  lemma DurableRateBound(ds: seq<State>, steps: seq<Step>, i: nat, id: SessionId, cap: nat, lo: int)
    requires IsRun(ds, steps) && i < |ds| && id in ds[i].born && SessionRuns.Limited(ds[i].born[id], cap)
    requires forall k :: 0 <= k < i ==> BatchUpTo(steps[k], id, cap)
    ensures SessionRuns.Within(ds[i].log, id, lo, lo + SessionRuns.WindowLength(ds[i].born[id])) <= 2 * cap
  {
    RunKeepsRated(ds, steps, i, id, cap);
    RunKeepsInv(ds, steps, i);
    assert Filed(ViewOf(ds[i], id), id);
    WithinCalls(ds[i].log, id, lo, lo + SessionRuns.WindowLength(ds[i].born[id]));
  }
}
