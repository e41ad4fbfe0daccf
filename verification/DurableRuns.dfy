/**
 * Runs of the storage-backed session store as a step system: every storage write may fail or lose
 * its reply, the process may stop and restart at any time, `create` writes its row before it takes
 * the lock, and closures of an agent's sessions are written after the lock is released.
 */
module DurableRuns {
  import opened Common
  import opened SessionModel
  import opened SessionStore
  import opened DurableStore
  import SessionRuns

  datatype Step =
    | BeginCreate(id: SessionId, req: CreateRequest, tWindow: int, tCreated: int, write: Write)
    | FinishCreate(id: SessionId)
    | CreateCapped(id: SessionId, req: CreateRequest, max: nat, tWindow: int, tCreated: int, write: Write)
    | Use(id: SessionId, tool: string, agent: Option<Uuid>, tExpiry: int, tRate: int, write: Write)
    | Batch(id: SessionId, tools: seq<string>, agent: Option<Uuid>, tExpiry: int, tCheck: int, tCharge: int, write: Write)
    | Close(id: SessionId, write: Write)
    | CloseAgent(agentId: Uuid)
    | Persist(id: SessionId, write: Write)
    | Cleanup(readAt: SessionId -> int, tDelete: int, deleted: bool)
    | Restart

  /**
   * `pending` holds closures marked in the cache and not yet written, `creating` sessions whose
   * row was written before they enter the cache. `log` holds the calls reported as accepted and
   * `born` every session ever created as it was created.
   */
  datatype State = State(
    cache: Sessions,
    rows: Rows,
    pending: Rows,
    creating: Sessions,
    log: seq<SessionRuns.Accept>,
    born: Sessions,
    clock: int)

  const EMPTY := State(map[], map[], map[], map[], [], map[], 0)

  /** The acknowledged calls of a session. */
  ghost function Acked(d: State, id: SessionId): nat {
    SessionRuns.Total(d.log, id)
  }

  function Readings(step: Step): seq<int> {
    match step
    case BeginCreate(_, _, tWindow, tCreated, _) => [tWindow, tCreated]
    case CreateCapped(_, _, _, tWindow, tCreated, _) => [tWindow, tCreated]
    case Use(_, _, _, tExpiry, tRate, _) => [tExpiry, tRate]
    case Batch(_, _, _, tExpiry, tCheck, tCharge, _) => [tExpiry, tCheck, tCharge]
    case Cleanup(_, tDelete, _) => [tDelete]
    case _ => []
  }

  function LastReading(clock: int, step: Step): int {
    var ts := Readings(step);
    if ts == [] then clock else ts[|ts| - 1]
  }

  ghost predicate Enabled(d: State, step: Step) {
    && (forall i, j :: 0 <= i < j < |Readings(step)| ==> Readings(step)[i] <= Readings(step)[j])
    && (forall i :: 0 <= i < |Readings(step)| ==> d.clock <= Readings(step)[i])
    && ((step.BeginCreate? || step.CreateCapped?) ==> step.id !in d.born)
    && (step.FinishCreate? ==> step.id in d.creating)
    && (step.Persist? ==> step.id in d.pending)
    && (step.Cleanup? ==> forall id :: d.clock <= step.readAt(id) <= step.tDelete)
  }

  /** A use of a cached session that was let through or not, and its write-through. */
  ghost function Through(d: State, id: SessionId, o: Outcome, n: nat, at: int, write: Write): State {
    var row := DomainToStored(o.session);
    d.(cache := Put(d.cache, id, o),
       rows := RowsAfter(d.rows, o, write),
       log := if o.Accepted() && UpdateReported(d.rows, row, write) then d.log + [SessionRuns.Accept(id, at, n)] else d.log)
  }

  ghost function DoUse(d: State, id: SessionId, tool: string, agent: Option<Uuid>, tExpiry: int, tRate: int, write: Write): State {
    if id in d.cache then Through(d, id, UseOne(d.cache[id], tool, agent, tExpiry, tRate), 1, tRate, write) else d
  }

  ghost function DoBatch(d: State, id: SessionId, tools: seq<string>, agent: Option<Uuid>, tExpiry: int, tCheck: int, tCharge: int,
                         write: Write): State
  {
    if id in d.cache
    then Through(d, id, UseBatch(d.cache[id], tools, agent, tExpiry, tCheck, tCharge), |tools|, tCharge, write) else d
  }

  /** The row of a new session is written before the lock is taken. */
  ghost function DoBegin(d: State, s: TaskSession, write: Write): State {
    d.(rows := InsertRow(d.rows, DomainToStored(s), write), creating := d.creating[s.sessionId := s],
       born := d.born[s.sessionId := s])
  }

  ghost function DoFinish(d: State, id: SessionId): State {
    if id in d.creating then d.(cache := d.cache[id := d.creating[id]], creating := d.creating - {id}) else d
  }

  ghost function DoCapped(d: State, s: TaskSession, max: nat, write: Write): State {
    if |ActiveIds(d.cache, s.agentId)| < max
    then d.(rows := InsertRow(d.rows, DomainToStored(s), write), cache := d.cache[s.sessionId := s],
            born := d.born[s.sessionId := s])
    else d
  }

  ghost function DoClose(d: State, id: SessionId, write: Write): State {
    if id in d.cache then
      var o := CloseOne(d.cache[id]);
      d.(cache := Put(d.cache, id, o), rows := RowsAfter(d.rows, o, write))
    else d
  }

  ghost function DoCloseAgent(d: State, agentId: Uuid): State {
    d.(cache := AfterCloseAgent(d.cache, agentId), pending := d.pending + Closures(d.cache, agentId))
  }

  ghost function DoPersist(d: State, id: SessionId, write: Write): State {
    if id in d.pending then d.(rows := UpdateRow(d.rows, d.pending[id], write), pending := d.pending - {id}) else d
  }

  ghost function DoCleanup(d: State, readAt: SessionId -> int, tDelete: int, deleted: bool): State {
    d.(cache := Unexpired(d.cache, readAt), rows := if deleted then DeleteExpired(d.rows, tDelete) else d.rows)
  }

  ghost function DoRestart(d: State): State {
    d.(cache := Reloaded(d.rows), pending := map[], creating := map[])
  }

  ghost function Act(d: State, step: Step): State {
    match step
    case BeginCreate(id, req, tWindow, tCreated, write) =>
      DoBegin(d, NewSession(id, req, req.timeLimit, tWindow, tCreated), write)
    case FinishCreate(id) => DoFinish(d, id)
    case CreateCapped(id, req, max, tWindow, tCreated, write) =>
      DoCapped(d, NewSession(id, req, req.timeLimit, tWindow, tCreated), max, write)
    case Use(id, tool, agent, tExpiry, tRate, write) => DoUse(d, id, tool, agent, tExpiry, tRate, write)
    case Batch(id, tools, agent, tExpiry, tCheck, tCharge, write) =>
      DoBatch(d, id, tools, agent, tExpiry, tCheck, tCharge, write)
    case Close(id, write) => DoClose(d, id, write)
    case CloseAgent(agentId) => DoCloseAgent(d, agentId)
    case Persist(id, write) => DoPersist(d, id, write)
    case Cleanup(readAt, tDelete, deleted) => DoCleanup(d, readAt, tDelete, deleted)
    case Restart => DoRestart(d)
  }

  ghost function Next(d: State, step: Step): State {
    Act(d, step).(clock := LastReading(d.clock, step))
  }

  ghost predicate IsRun(ds: seq<State>, steps: seq<Step>) {
    && |ds| == |steps| + 1
    && ds[0] == EMPTY
    && forall i {:trigger steps[i]} :: 0 <= i < |steps| ==> Enabled(ds[i], steps[i]) && ds[i + 1] == Next(ds[i], steps[i])
  }

  // ---------------------------------------------------------------------------
  // One session at a time
  // ---------------------------------------------------------------------------

  function Lookup<T>(m: map<SessionId, T>, id: SessionId): Option<T> {
    if id in m then Some(m[id]) else None
  }

  /** Everything the state holds about one session. */
  datatype View = View(
    cached: Option<TaskSession>,
    row: Option<StoredSession>,
    pending: Option<StoredSession>,
    creating: Option<TaskSession>,
    calls: seq<SessionRuns.Accept>,
    acked: nat,
    born: Option<TaskSession>)

  /** The acknowledgements of one session. */
  ghost function CallsOf(log: seq<SessionRuns.Accept>, id: SessionId): seq<SessionRuns.Accept> {
    if log == [] then []
    else
      var before, last := CallsOf(log[..|log| - 1], id), log[|log| - 1];
      if last.id == id then before + [last] else before
  }

  lemma CallsAppend(log: seq<SessionRuns.Accept>, e: SessionRuns.Accept, id: SessionId)
    ensures CallsOf(log + [e], id) == if e.id == id then CallsOf(log, id) + [e] else CallsOf(log, id)
  {
    assert (log + [e])[..|log|] == log;
  }

  ghost function ViewOf(d: State, id: SessionId): View {
    View(Lookup(d.cache, id), Lookup(d.rows, id), Lookup(d.pending, id), Lookup(d.creating, id), CallsOf(d.log, id), Acked(d, id),
         Lookup(d.born, id))
  }

  function Written(row: Option<StoredSession>, r: StoredSession, write: Write): Option<StoredSession> {
    if write.Landed() && row.Some? then Some(r) else row
  }

  function Inserted(row: Option<StoredSession>, r: StoredSession, write: Write): Option<StoredSession> {
    if write.Landed() && row.None? then Some(r) else row
  }

  /** The operation was let through, and its write was reported as made. */
  predicate Acknowledged(v: View, o: Outcome, write: Write) {
    o.Accepted() && write.Committed? && v.row.Some?
  }

  function ThroughView(v: View, o: Outcome, n: nat, at: int, write: Write): View {
    v.(cached := Some(o.session),
       row := if WritesThrough(o) then Written(v.row, DomainToStored(o.session), write) else v.row,
       calls := if Acknowledged(v, o, write) then v.calls + [SessionRuns.Accept(o.session.sessionId, at, n)] else v.calls,
       acked := if Acknowledged(v, o, write) then v.acked + n else v.acked)
  }

  function UseView(v: View, tool: string, agent: Option<Uuid>, tExpiry: int, tRate: int, write: Write): View {
    if v.cached.None? then v else ThroughView(v, UseOne(v.cached.value, tool, agent, tExpiry, tRate), 1, tRate, write)
  }

  function BatchView(v: View, tools: seq<string>, agent: Option<Uuid>, tExpiry: int, tCheck: int, tCharge: int, write: Write): View {
    if v.cached.None? then v
    else ThroughView(v, UseBatch(v.cached.value, tools, agent, tExpiry, tCheck, tCharge), |tools|, tCharge, write)
  }

  function BeginView(v: View, s: TaskSession, write: Write): View {
    v.(row := Inserted(v.row, DomainToStored(s), write), creating := Some(s), born := Some(s))
  }

  function FinishView(v: View): View {
    if v.creating.None? then v else v.(cached := v.creating, creating := None)
  }

  function CappedView(v: View, s: TaskSession, admitted: bool, write: Write): View {
    if !admitted then v
    else v.(row := Inserted(v.row, DomainToStored(s), write), cached := Some(s), born := Some(s))
  }

  function CloseView(v: View, write: Write): View {
    if v.cached.None? || v.cached.value.status == Closed then v
    else
      var s := v.cached.value.(status := Closed);
      v.(cached := Some(s), row := Written(v.row, DomainToStored(s), write))
  }

  function CloseAgentView(v: View, agentId: Uuid): View {
    if v.cached.None? || v.cached.value.agentId != agentId || v.cached.value.status != Active then v
    else
      var s := v.cached.value.(status := Closed);
      v.(cached := Some(s), pending := Some(DomainToStored(s)))
  }

  function PersistView(v: View, write: Write): View {
    if v.pending.None? then v else v.(row := Written(v.row, v.pending.value, write), pending := None)
  }

  function CleanupView(v: View, tEvict: int, tDelete: int, deleted: bool): View {
    v.(cached := if v.cached.Some? && v.cached.value.IsExpired(tEvict) then None else v.cached,
       row := if deleted && v.row.Some? && RowExpired(v.row.value, tDelete) then None else v.row)
  }

  function RestartView(v: View): View {
    v.(cached := if v.row.Some? then Some(StoredToDomain(v.row.value)) else None, pending := None, creating := None)
  }

  /** The session a step is about; steps without one are about every session. */
  predicate About(step: Step, id: SessionId) {
    step.CloseAgent? || step.Cleanup? || step.Restart? || step.id == id
  }

  /** A step as the session it is about sees it; `admitted` says whether a capped creation found room. */
  function ViewStep(v: View, id: SessionId, step: Step, admitted: bool): View {
    match step
    case BeginCreate(target, req, tWindow, tCreated, write) =>
      BeginView(v, NewSession(target, req, req.timeLimit, tWindow, tCreated), write)
    case FinishCreate(_) => FinishView(v)
    case CreateCapped(target, req, _, tWindow, tCreated, write) =>
      CappedView(v, NewSession(target, req, req.timeLimit, tWindow, tCreated), admitted, write)
    case Use(_, tool, agent, tExpiry, tRate, write) => UseView(v, tool, agent, tExpiry, tRate, write)
    case Batch(_, tools, agent, tExpiry, tCheck, tCharge, write) =>
      BatchView(v, tools, agent, tExpiry, tCheck, tCharge, write)
    case Close(_, write) => CloseView(v, write)
    case CloseAgent(agentId) => CloseAgentView(v, agentId)
    case Persist(_, write) => PersistView(v, write)
    case Cleanup(readAt, tDelete, deleted) => CleanupView(v, readAt(id), tDelete, deleted)
    case Restart => RestartView(v)
  }

  ghost predicate Keyed(d: State) {
    && WellKeyed(d.cache)
    && WellKeyed(d.creating)
    && (forall id :: id in d.rows ==> d.rows[id].sessionId == id)
    && (forall id :: id in d.pending ==> d.pending[id].sessionId == id)
  }

  ghost function Admitted(d: State, step: Step): bool {
    step.CreateCapped? && |ActiveIds(d.cache, step.req.agentId)| < step.max
  }

  lemma ProjectThrough(d: State, target: SessionId, o: Outcome, n: nat, at: int, write: Write, id: SessionId)
    requires o.session.sessionId == target && target in d.cache
    ensures ViewOf(Through(d, target, o, n, at, write), id) ==
            if id == target then ThroughView(ViewOf(d, id), o, n, at, write) else ViewOf(d, id)
  {
    var e := SessionRuns.Accept(target, at, n);
    if o.Accepted() && UpdateReported(d.rows, DomainToStored(o.session), write) {
      CallsAppend(d.log, e, id);
      SessionRuns.TotalAppend(d.log, e, id);
    }
  }

  lemma ProjectUse(d: State, target: SessionId, tool: string, agent: Option<Uuid>, tExpiry: int, tRate: int, write: Write, id: SessionId)
    requires Keyed(d)
    ensures ViewOf(DoUse(d, target, tool, agent, tExpiry, tRate, write), id) ==
            if id == target then UseView(ViewOf(d, id), tool, agent, tExpiry, tRate, write) else ViewOf(d, id)
  {
    if target in d.cache {
      ProjectThrough(d, target, UseOne(d.cache[target], tool, agent, tExpiry, tRate), 1, tRate, write, id);
    }
  }

  lemma ProjectBatch(d: State, target: SessionId, tools: seq<string>, agent: Option<Uuid>, tExpiry: int, tCheck: int, tCharge: int,
                     write: Write, id: SessionId)
    requires Keyed(d)
    ensures ViewOf(DoBatch(d, target, tools, agent, tExpiry, tCheck, tCharge, write), id) ==
            if id == target then BatchView(ViewOf(d, id), tools, agent, tExpiry, tCheck, tCharge, write) else ViewOf(d, id)
  {
    if target in d.cache {
      ProjectThrough(d, target, UseBatch(d.cache[target], tools, agent, tExpiry, tCheck, tCharge), |tools|, tCharge, write, id);
    }
  }

  lemma ProjectCreation(d: State, s: TaskSession, max: nat, write: Write, id: SessionId)
    requires Keyed(d)
    ensures ViewOf(DoBegin(d, s, write), id) ==
            if id == s.sessionId then BeginView(ViewOf(d, id), s, write) else ViewOf(d, id)
    ensures ViewOf(DoCapped(d, s, max, write), id) ==
            if id == s.sessionId then CappedView(ViewOf(d, id), s, |ActiveIds(d.cache, s.agentId)| < max, write)
            else ViewOf(d, id)
  {
  }

  lemma ProjectFinish(d: State, target: SessionId, id: SessionId)
    requires Keyed(d)
    ensures ViewOf(DoFinish(d, target), id) == if id == target then FinishView(ViewOf(d, id)) else ViewOf(d, id)
  {
  }

  lemma ProjectClose(d: State, target: SessionId, write: Write, id: SessionId)
    requires Keyed(d)
    ensures ViewOf(DoClose(d, target, write), id) == if id == target then CloseView(ViewOf(d, id), write) else ViewOf(d, id)
  {
  }

  lemma ProjectPersist(d: State, target: SessionId, write: Write, id: SessionId)
    requires Keyed(d)
    ensures ViewOf(DoPersist(d, target, write), id) ==
            if id == target then PersistView(ViewOf(d, id), write) else ViewOf(d, id)
  {
  }

  lemma ProjectCloseAgent(d: State, agentId: Uuid, id: SessionId)
    ensures ViewOf(DoCloseAgent(d, agentId), id) == CloseAgentView(ViewOf(d, id), agentId)
  {
  }

  lemma ProjectSweeps(d: State, readAt: SessionId -> int, tDelete: int, deleted: bool, id: SessionId)
    ensures ViewOf(DoCleanup(d, readAt, tDelete, deleted), id) == CleanupView(ViewOf(d, id), readAt(id), tDelete, deleted)
    ensures ViewOf(DoRestart(d), id) == RestartView(ViewOf(d, id))
  {
  }

  /** The whole state moves exactly as its sessions do one by one. */
  lemma Projection(d: State, step: Step, id: SessionId)
    requires Keyed(d)
    ensures ViewOf(Next(d, step), id) ==
            if About(step, id) then ViewStep(ViewOf(d, id), id, step, Admitted(d, step)) else ViewOf(d, id)
  {
    assert ViewOf(Next(d, step), id) == ViewOf(Act(d, step), id);
    match step
    case Use(target, tool, agent, tExpiry, tRate, write) => ProjectUse(d, target, tool, agent, tExpiry, tRate, write, id);
    case Batch(target, tools, agent, tExpiry, tCheck, tCharge, write) =>
      ProjectBatch(d, target, tools, agent, tExpiry, tCheck, tCharge, write, id);
    case BeginCreate(target, req, tWindow, tCreated, write) =>
      ProjectCreation(d, NewSession(target, req, req.timeLimit, tWindow, tCreated), 0, write, id);
    case CreateCapped(target, req, max, tWindow, tCreated, write) =>
      ProjectCreation(d, NewSession(target, req, req.timeLimit, tWindow, tCreated), max, write, id);
    case FinishCreate(target) => ProjectFinish(d, target, id);
    case Close(target, write) => ProjectClose(d, target, write, id);
    case Persist(target, write) => ProjectPersist(d, target, write, id);
    case CloseAgent(agentId) => ProjectCloseAgent(d, agentId, id);
    case Cleanup(readAt, tDelete, deleted) => ProjectSweeps(d, readAt, tDelete, deleted, id);
    case Restart => ProjectSweeps(d, _ => 0, 0, false, id);
  }

  // ---------------------------------------------------------------------------
  // Crash durability
  // ---------------------------------------------------------------------------

  /** The row `r` is an earlier (or the present) state of what would now be saved as `q`. */
  predicate Behind(r: StoredSession, q: StoredSession) {
    && r == q.(callsMade := r.callsMade, windowStart := r.windowStart, windowCalls := r.windowCalls, status := r.status,
               timeLimitSecs := r.timeLimitSecs)
    && q.timeLimitSecs <= r.timeLimitSecs
    && r.callsMade <= q.callsMade
    && r.windowStart <= q.windowStart
    && SessionRuns.StatusMoves(StoredToStatus(r.status), StoredToStatus(q.status))
    && (r.status != StoredActive ==>
          r.callsMade == q.callsMade && r.windowStart == q.windowStart && r.windowCalls == q.windowCalls)
  }

  /** A session value and the calls acknowledged for it stay within its budget. */
  predicate WithinBudget(v: View, callsMade: nat, callBudget: nat) {
    v.acked <= callsMade <= callBudget && v.born.Some? && v.born.value.callBudget == callBudget
  }

  /** Whatever is filed about the session carries its id. */
  predicate Filed(v: View, id: SessionId) {
    && (v.cached.Some? ==> v.cached.value.sessionId == id)
    && (v.row.Some? ==> v.row.value.sessionId == id)
    && (v.pending.Some? ==> v.pending.value.sessionId == id)
    && (v.creating.Some? ==> v.creating.value.sessionId == id)
    && (v.born.Some? ==> v.born.value.sessionId == id)
  }

  predicate Sound(v: View, clock: int) {
    && (v.born.None? ==> v.cached.None? && v.row.None? && v.pending.None? && v.creating.None? && v.acked == 0)
    && (v.born.Some? ==> v.acked <= v.born.value.callBudget)
    && (v.cached.Some? ==>
          && WithinBudget(v, v.cached.value.callsMade, v.cached.value.callBudget)
          && v.cached.value.windowStart <= clock
          && v.creating.None?)
    && (v.row.Some? ==>
          && WithinBudget(v, v.row.value.callsMade, v.row.value.callBudget)
          && v.row.value.windowStart <= clock)
    && (v.row.Some? && v.cached.Some? ==> Behind(v.row.value, DomainToStored(v.cached.value)))
    && (v.pending.Some? ==>
          && WithinBudget(v, v.pending.value.callsMade, v.pending.value.callBudget)
          && v.pending.value.windowStart <= clock
          && v.pending.value.status == StoredClosed
          && v.creating.None?
          && (v.cached.Some? ==> v.pending.value == DomainToStored(v.cached.value))
          && (v.row.Some? ==> v.row.value.status != StoredExpired && Behind(v.row.value, v.pending.value)))
    && (v.creating.Some? ==>
          && WithinBudget(v, v.creating.value.callsMade, v.creating.value.callBudget)
          && v.creating.value.callsMade == 0
          && v.creating.value.windowStart <= clock
          && (v.row.Some? ==> v.row.value == DomainToStored(v.creating.value)))
  }

  /** Readings of an enabled step lie between the clock before and after it. */
  lemma ClockMoves(d: State, step: Step)
    requires Enabled(d, step)
    ensures d.clock <= LastReading(d.clock, step)
    ensures forall k :: 0 <= k < |Readings(step)| ==> d.clock <= Readings(step)[k] <= LastReading(d.clock, step)
  {
    if Readings(step) != [] {
      assert d.clock <= Readings(step)[|Readings(step)| - 1];
    }
  }

  /** What a use or batch may do to a session, by the laws of the in-memory store. */
  predicate Spends(s: TaskSession, o: Outcome, n: nat, clock: int) {
    && SessionRuns.Progress(s, o.session)
    && o.session.callsMade == s.callsMade + (if o.Accepted() then n else 0)
    && o.session.callsMade <= s.callBudget
    && o.session.windowStart <= clock
    && (!o.Accepted() ==> o.session == s.(status := o.session.status))
    && (o.Accepted() ==> s.status == Active && o.session.status == Active)
    && (!WritesThrough(o) ==> o.session == s)
    && (s.status == Closed ==> o.session == s && !WritesThrough(o))
  }

  lemma ThroughSound(v: View, o: Outcome, n: nat, at: int, write: Write, clock: int)
    requires Sound(v, clock) && v.cached.Some? && Spends(v.cached.value, o, n, clock)
    ensures Sound(ThroughView(v, o, n, at, write), clock)
  {
  }

  /** As time passes nothing about a session changes by itself. */
  lemma SoundLater(v: View, clock: int, later: int)
    requires Sound(v, clock) && clock <= later
    ensures Sound(v, later)
  {
  }

  lemma UseSpends(s: TaskSession, tool: string, agent: Option<Uuid>, tExpiry: int, tRate: int)
    requires s.callsMade <= s.callBudget && s.windowStart <= tRate
    ensures Spends(s, UseOne(s, tool, agent, tExpiry, tRate), 1, tRate)
  {
    SessionRuns.UseProgress(s, tool, agent, tExpiry, tRate);
  }

  lemma BatchSpends(s: TaskSession, tools: seq<string>, agent: Option<Uuid>, tExpiry: int, tCheck: int, tCharge: int)
    requires s.callsMade <= s.callBudget && s.windowStart <= tCharge
    ensures Spends(s, UseBatch(s, tools, agent, tExpiry, tCheck, tCharge), |tools|, tCharge)
  {
    SessionRuns.BatchProgress(s, tools, agent, tExpiry, tCheck, tCharge);
  }

  lemma UseSound(v: View, tool: string, agent: Option<Uuid>, tExpiry: int, tRate: int, write: Write)
    requires Sound(v, tRate)
    ensures Sound(UseView(v, tool, agent, tExpiry, tRate, write), tRate)
  {
    if v.cached.Some? {
      UseSpends(v.cached.value, tool, agent, tExpiry, tRate);
      ThroughSound(v, UseOne(v.cached.value, tool, agent, tExpiry, tRate), 1, tRate, write, tRate);
    }
  }

  lemma BatchSound(v: View, tools: seq<string>, agent: Option<Uuid>, tExpiry: int, tCheck: int, tCharge: int, write: Write)
    requires Sound(v, tCharge)
    ensures Sound(BatchView(v, tools, agent, tExpiry, tCheck, tCharge, write), tCharge)
  {
    if v.cached.Some? {
      BatchSpends(v.cached.value, tools, agent, tExpiry, tCheck, tCharge);
      ThroughSound(v, UseBatch(v.cached.value, tools, agent, tExpiry, tCheck, tCharge), |tools|, tCharge, write, tCharge);
    }
  }

  lemma CreationSound(v: View, s: TaskSession, admitted: bool, write: Write, clock: int)
    requires Sound(v, clock) && v.born.None? && s.callsMade == 0 && s.windowStart <= clock
    ensures Sound(BeginView(v, s, write), clock)
    ensures Sound(CappedView(v, s, admitted, write), clock)
  {
  }

  lemma FinishSound(v: View, clock: int)
    requires Sound(v, clock)
    ensures Sound(FinishView(v), clock)
  {
  }

  lemma CloseSound(v: View, write: Write, agentId: Uuid, clock: int)
    requires Sound(v, clock)
    ensures Sound(CloseView(v, write), clock)
    ensures Sound(CloseAgentView(v, agentId), clock)
  {
  }

  lemma PersistSound(v: View, write: Write, clock: int)
    requires Sound(v, clock)
    ensures Sound(PersistView(v, write), clock)
  {
  }

  lemma SweepSound(v: View, tEvict: int, tDelete: int, deleted: bool, clock: int)
    requires Sound(v, clock)
    ensures Sound(CleanupView(v, tEvict, tDelete, deleted), clock)
    ensures Sound(RestartView(v), clock)
  {
  }

  lemma StepSound(v: View, id: SessionId, step: Step, admitted: bool, clock: int)
    requires Sound(v, clock) && clock == LastReading(clock, step)
    requires (step.BeginCreate? || step.CreateCapped?) ==> v.born.None? && step.tWindow <= clock
    ensures Sound(ViewStep(v, id, step, admitted), clock)
  {
    match step
    case Use(_, tool, agent, tExpiry, tRate, write) => UseSound(v, tool, agent, tExpiry, tRate, write);
    case Batch(_, tools, agent, tExpiry, tCheck, tCharge, write) =>
      BatchSound(v, tools, agent, tExpiry, tCheck, tCharge, write);
    case BeginCreate(target, req, tWindow, tCreated, write) =>
      CreationSound(v, NewSession(target, req, req.timeLimit, tWindow, tCreated), true, write, clock);
    case CreateCapped(target, req, _, tWindow, tCreated, write) =>
      CreationSound(v, NewSession(target, req, req.timeLimit, tWindow, tCreated), admitted, write, clock);
    case FinishCreate(_) => FinishSound(v, clock);
    case Close(_, write) => CloseSound(v, write, 0, clock);
    case CloseAgent(agentId) => CloseSound(v, Failed, agentId, clock);
    case Persist(_, write) => PersistSound(v, write, clock);
    case Cleanup(readAt, tDelete, deleted) => SweepSound(v, readAt(id), tDelete, deleted, clock);
    case Restart => SweepSound(v, 0, 0, false, clock);
  }

  lemma ThroughFiled(v: View, id: SessionId, o: Outcome, n: nat, at: int, write: Write)
    requires Filed(v, id) && v.cached.Some? && o.session.sessionId == v.cached.value.sessionId
    ensures Filed(ThroughView(v, o, n, at, write), id)
  {
  }

  lemma StepFiled(v: View, id: SessionId, step: Step, admitted: bool)
    requires Filed(v, id) && About(step, id)
    ensures Filed(ViewStep(v, id, step, admitted), id)
  {
    match step
    case Use(_, tool, agent, tExpiry, tRate, write) =>
      if v.cached.Some? {
        ThroughFiled(v, id, UseOne(v.cached.value, tool, agent, tExpiry, tRate), 1, tRate, write);
      }
    case Batch(_, tools, agent, tExpiry, tCheck, tCharge, write) =>
      if v.cached.Some? {
        ThroughFiled(v, id, UseBatch(v.cached.value, tools, agent, tExpiry, tCheck, tCharge), |tools|, tCharge, write);
      }
    case _ =>
  }

  lemma ViewStepSound(d: State, id: SessionId, step: Step)
    requires Inv(d) && Enabled(d, step)
    ensures Sound(ViewOf(Next(d, step), id), Next(d, step).clock)
    ensures Filed(ViewOf(Next(d, step), id), id)
  {
    var v, now := ViewOf(d, id), LastReading(d.clock, step);
    assert Sound(v, d.clock);
    assert Filed(v, id);
    ClockMoves(d, step);
    SoundLater(v, d.clock, now);
    Projection(d, step, id);
    if About(step, id) {
      if step.BeginCreate? || step.CreateCapped? {
        assert Readings(step)[0] == step.tWindow;
      }
      StepSound(v, id, step, Admitted(d, step), now);
      StepFiled(v, id, step, Admitted(d, step));
    }
  }

  ghost predicate Inv(d: State) {
    Keyed(d) && forall id :: Sound(ViewOf(d, id), d.clock) && Filed(ViewOf(d, id), id)
  }

  lemma FiledIsKeyed(d: State)
    requires forall id :: Filed(ViewOf(d, id), id)
    ensures Keyed(d)
  {
    forall id
      ensures id in d.cache ==> d.cache[id].sessionId == id
      ensures id in d.creating ==> d.creating[id].sessionId == id
      ensures id in d.rows ==> d.rows[id].sessionId == id
      ensures id in d.pending ==> d.pending[id].sessionId == id
    {
      assert Filed(ViewOf(d, id), id);
    }
  }

  lemma StepKeepsInv(d: State, step: Step)
    requires Inv(d) && Enabled(d, step)
    ensures Inv(Next(d, step))
  {
    forall id
      ensures Sound(ViewOf(Next(d, step), id), Next(d, step).clock) && Filed(ViewOf(Next(d, step), id), id)
    {
      ViewStepSound(d, id, step);
    }
    FiledIsKeyed(Next(d, step));
  }

  lemma {:induction false} RunKeepsInv(ds: seq<State>, steps: seq<Step>, i: nat)
    requires IsRun(ds, steps) && i < |ds|
    ensures Inv(ds[i])
  {
    if i > 0 {
      RunKeepsInv(ds, steps, i - 1);
      StepKeepsInv(ds[i - 1], steps[i - 1]);
    }
  }

  /**
   * Crash durability. In every run, whatever writes fail and whenever the process restarts: a
   * session's row holds at least the calls that were acknowledged, the cache is never behind the
   * row, and nothing exceeds the budget.
   */
  lemma CrashDurability(ds: seq<State>, steps: seq<Step>, i: nat, id: SessionId)
    requires IsRun(ds, steps) && i < |ds| && id in ds[i].rows
    ensures Acked(ds[i], id) <= ds[i].rows[id].callsMade <= ds[i].rows[id].callBudget
    ensures id in ds[i].cache ==>
              && ds[i].rows[id].callsMade <= ds[i].cache[id].callsMade <= ds[i].cache[id].callBudget
              && Behind(ds[i].rows[id], DomainToStored(ds[i].cache[id]))
  {
    RunKeepsInv(ds, steps, i);
    assert Sound(ViewOf(ds[i], id), ds[i].clock);
  }

  /** Over all restarts together, no session ever gets more calls acknowledged than its budget. */
  lemma BudgetHoldsForever(ds: seq<State>, steps: seq<Step>, i: nat, id: SessionId)
    requires IsRun(ds, steps) && i < |ds| && id in ds[i].born
    ensures Acked(ds[i], id) <= ds[i].born[id].callBudget
  {
    RunKeepsInv(ds, steps, i);
    assert Sound(ViewOf(ds[i], id), ds[i].clock);
  }

  /** A restart gives back no acknowledged call. */
  lemma RestartGivesNothingBack(ds: seq<State>, steps: seq<Step>, i: nat, id: SessionId)
    requires IsRun(ds, steps) && i < |steps| && steps[i].Restart? && id in ds[i + 1].cache
    ensures Acked(ds[i], id) <= ds[i + 1].cache[id].callsMade
    ensures id in ds[i].born
    ensures ds[i + 1].cache[id].callBudget - ds[i + 1].cache[id].callsMade <= ds[i].born[id].callBudget - Acked(ds[i], id)
  {
    RunKeepsInv(ds, steps, i);
    assert Sound(ViewOf(ds[i], id), ds[i].clock);
  }

  /**
   * A closure persisted after the lock is released only moves its row forward, and as long as the
   * session is cached it is exactly the session's present state.
   */
  lemma DeferredCloseIsNeverStale(ds: seq<State>, steps: seq<Step>, i: nat)
    requires IsRun(ds, steps) && i < |steps| && steps[i].Persist?
    ensures var d, id := ds[i], steps[i].id;
            && id in d.pending
            && (id in d.rows ==> Behind(d.rows[id], d.pending[id]))
            && (id in d.cache ==> d.pending[id] == DomainToStored(d.cache[id]))
  {
    RunKeepsInv(ds, steps, i);
    assert Sound(ViewOf(ds[i], steps[i].id), ds[i].clock);
  }

  // ---------------------------------------------------------------------------
  // Agreement of cache and storage
  // ---------------------------------------------------------------------------

  /** No write fails, and time limits are whole seconds. */
  predicate Reliable(step: Step) {
    match step
    case BeginCreate(_, req, _, _, write) => write.Committed? && req.timeLimit % SECOND == 0
    case CreateCapped(_, req, _, _, _, write) => write.Committed? && req.timeLimit % SECOND == 0
    case Use(_, _, _, _, _, write) => write.Committed?
    case Batch(_, _, _, _, _, _, write) => write.Committed?
    case Close(_, write) => write.Committed?
    case Persist(_, write) => write.Committed?
    case Cleanup(_, _, deleted) => deleted
    case _ => true
  }

  /** The row is what the session would be saved as, but for the clamp a reload puts on its limit. */
  predicate Agrees(r: StoredSession, s: TaskSession) {
    r == DomainToStored(s) || ClampRow(r) == DomainToStored(s)
  }

  /** Sessions within their limit have their row; those without a closure under way agree with it. */
  predicate Settled(v: View, clock: int) {
    && (v.cached.Some? ==>
          var s := v.cached.value;
          && s.timeLimit % SECOND == 0
          && (s.status == Expired ==> s.PastLimit(clock))
          && (s.PastLimit(clock) || v.row.Some?)
          && (v.row.Some? && v.pending.None? ==> Agrees(v.row.value, s)))
    && (v.row.Some? && v.row.value.status == StoredExpired ==>
          v.row.value.createdAt + v.row.value.timeLimitSecs * SECOND < clock)
    && (v.creating.Some? ==>
          var s := v.creating.value;
          && s.timeLimit % SECOND == 0 && s.status == Active
          && (s.PastLimit(clock) || v.row.Some?))
  }

  lemma WholeSeconds(limit: int)
    requires limit % SECOND == 0
    ensures NumSeconds(limit) * SECOND == limit
  {
  }

  /** The row of a session is deleted only when the session is past its own limit. */
  lemma DeletedRowsAreExpired(r: StoredSession, s: TaskSession, now: int)
    requires s.timeLimit % SECOND == 0 && Behind(r, DomainToStored(s))
    requires r.status == StoredExpired ==> r.createdAt + r.timeLimitSecs * SECOND < now
    requires RowExpired(r, now)
    ensures s.PastLimit(now)
  {
    WholeSeconds(s.timeLimit);
    SqlSecondBounds(r.createdAt);
  }

  /** The deletion test of the storage on a session created at `created`, saved with limit `limit`. */
  predicate SqlPast(created: int, limit: int, now: int) {
    SqlSecond(created) + NumSeconds(limit) < now / SECOND
  }

  /** The storage never reads a time as an earlier second, and as a later one only by rounding. */
  lemma SqlSecondBounds(t: int)
    ensures SqlSecond(t) == if t % SECOND < SECOND - MILLISECOND / 2 then t / SECOND else t / SECOND + 1
  {
    var q, r := t / SECOND, t % SECOND;
    assert t + MILLISECOND / 2 == q * SECOND + (r + MILLISECOND / 2);
    assert (t + MILLISECOND / 2) / MILLISECOND == q * 1000 + (r + MILLISECOND / 2) / MILLISECOND;
  }

  /**
   * Storage never deletes the row of a session that is still within its limit, if and only if
   * saving cut no more than half a millisecond off the limit.
   */
  lemma DeletionIsSafeIff(limit: int)
    ensures (forall created, now :: SqlPast(created, limit, now) ==> now - created > limit)
            <==> limit - NumSeconds(limit) * SECOND <= MILLISECOND / 2
  {
    var cut := limit - NumSeconds(limit) * SECOND;
    if cut > MILLISECOND / 2 {
      var created, now := SECOND - MILLISECOND / 2 - 1, (NumSeconds(limit) + 1) * SECOND;
      SqlSecondBounds(created);
      assert SqlPast(created, limit, now) && !(now - created > limit);
    } else {
      forall created, now | SqlPast(created, limit, now)
        ensures now - created > limit
      {
        SqlSecondBounds(created);
        assert now >= (SqlSecond(created) + NumSeconds(limit) + 1) * SECOND;
      }
    }
  }

  lemma SettledLater(v: View, clock: int, later: int)
    requires Settled(v, clock) && clock <= later
    ensures Settled(v, later)
  {
  }

  lemma ThroughSettled(v: View, o: Outcome, n: nat, at: int, clock: int, tExpiry: int)
    requires Sound(v, clock) && Settled(v, clock) && v.cached.Some? && Spends(v.cached.value, o, n, clock)
    requires tExpiry <= clock
    requires o.session.status == Expired && v.cached.value.status == Active ==> v.cached.value.PastLimit(tExpiry)
    ensures Settled(ThroughView(v, o, n, at, Committed), clock)
  {
    WholeSeconds(v.cached.value.timeLimit);
  }

  lemma CleanupSettled(v: View, tEvict: int, tDelete: int, clock: int)
    requires Sound(v, clock) && Settled(v, tDelete) && tEvict <= tDelete == clock
    ensures Settled(CleanupView(v, tEvict, tDelete, true), clock)
  {
    if v.row.Some? && RowExpired(v.row.value, tDelete) {
      if v.cached.Some? {
        DeletedRowsAreExpired(v.row.value, v.cached.value, tDelete);
      }
      if v.creating.Some? {
        WholeSeconds(v.creating.value.timeLimit);
        SqlSecondBounds(v.row.value.createdAt);
      }
    }
  }

  lemma UseSettled(v: View, tool: string, agent: Option<Uuid>, tExpiry: int, tRate: int)
    requires Sound(v, tRate) && Settled(v, tRate) && tExpiry <= tRate
    ensures Settled(UseView(v, tool, agent, tExpiry, tRate, Committed), tRate)
  {
    if v.cached.Some? {
      UseSpends(v.cached.value, tool, agent, tExpiry, tRate);
      ThroughSettled(v, UseOne(v.cached.value, tool, agent, tExpiry, tRate), 1, tRate, tRate, tExpiry);
    }
  }

  lemma BatchSettled(v: View, tools: seq<string>, agent: Option<Uuid>, tExpiry: int, tCheck: int, tCharge: int)
    requires Sound(v, tCharge) && Settled(v, tCharge) && tExpiry <= tCharge
    ensures Settled(BatchView(v, tools, agent, tExpiry, tCheck, tCharge, Committed), tCharge)
  {
    if v.cached.Some? {
      BatchSpends(v.cached.value, tools, agent, tExpiry, tCheck, tCharge);
      ThroughSettled(v, UseBatch(v.cached.value, tools, agent, tExpiry, tCheck, tCharge), |tools|, tCharge, tCharge, tExpiry);
    }
  }

  lemma CreationSettled(v: View, s: TaskSession, admitted: bool, clock: int)
    requires Sound(v, clock) && Settled(v, clock) && v.born.None?
    requires s.timeLimit % SECOND == 0 && s.status == Active
    ensures Settled(BeginView(v, s, Committed), clock)
    ensures Settled(CappedView(v, s, admitted, Committed), clock)
  {
  }

  lemma FinishSettled(v: View, clock: int)
    requires Sound(v, clock) && Settled(v, clock)
    ensures Settled(FinishView(v), clock)
  {
  }

  lemma CloseSettled(v: View, agentId: Uuid, clock: int)
    requires Sound(v, clock) && Settled(v, clock)
    ensures Settled(CloseView(v, Committed), clock)
    ensures Settled(CloseAgentView(v, agentId), clock)
    ensures Settled(PersistView(v, Committed), clock)
  {
  }

  lemma RestartSettled(v: View, clock: int)
    requires Sound(v, clock) && Settled(v, clock)
    ensures Settled(RestartView(v), clock)
  {
    if v.row.Some? {
      ConversionRoundTrip(StoredToDomain(v.row.value), v.row.value);
    }
  }

  lemma StepSettled(v: View, id: SessionId, step: Step, admitted: bool, clock: int)
    requires Sound(v, clock) && Settled(v, clock) && Reliable(step) && clock == LastReading(clock, step)
    requires (step.BeginCreate? || step.CreateCapped?) ==> v.born.None?
    requires (step.Use? || step.Batch?) ==> step.tExpiry <= clock
    requires step.Cleanup? ==> step.readAt(id) <= clock
    ensures Settled(ViewStep(v, id, step, admitted), clock)
  {
    match step
    case Use(_, tool, agent, tExpiry, tRate, _) => UseSettled(v, tool, agent, tExpiry, tRate);
    case Batch(_, tools, agent, tExpiry, tCheck, tCharge, _) => BatchSettled(v, tools, agent, tExpiry, tCheck, tCharge);
    case BeginCreate(target, req, tWindow, tCreated, _) =>
      CreationSettled(v, NewSession(target, req, req.timeLimit, tWindow, tCreated), true, clock);
    case CreateCapped(target, req, _, tWindow, tCreated, _) =>
      CreationSettled(v, NewSession(target, req, req.timeLimit, tWindow, tCreated), admitted, clock);
    case FinishCreate(_) => FinishSettled(v, clock);
    case Close(_, _) => CloseSettled(v, 0, clock);
    case CloseAgent(agentId) => CloseSettled(v, agentId, clock);
    case Persist(_, _) => CloseSettled(v, 0, clock);
    case Cleanup(readAt, tDelete, _) => CleanupSettled(v, readAt(id), tDelete, clock);
    case Restart => RestartSettled(v, clock);
  }

  lemma ViewStepSettled(d: State, id: SessionId, step: Step)
    requires Inv(d) && Enabled(d, step) && Reliable(step) && Settled(ViewOf(d, id), d.clock)
    ensures Settled(ViewOf(Next(d, step), id), Next(d, step).clock)
  {
    var v, now := ViewOf(d, id), LastReading(d.clock, step);
    assert Sound(v, d.clock);
    ClockMoves(d, step);
    SoundLater(v, d.clock, now);
    SettledLater(v, d.clock, now);
    Projection(d, step, id);
    if About(step, id) {
      assert (step.Use? || step.Batch?) ==> Readings(step)[0] == step.tExpiry;
      assert step.Cleanup? ==> Readings(step)[0] == step.tDelete;
      StepSettled(v, id, step, Admitted(d, step), now);
    }
  }

  ghost predicate AllSettled(d: State) {
    forall id :: Settled(ViewOf(d, id), d.clock)
  }

  lemma {:induction false} RunSettles(ds: seq<State>, steps: seq<Step>, i: nat)
    requires IsRun(ds, steps) && i < |ds|
    requires forall k :: 0 <= k < i ==> Reliable(steps[k])
    ensures AllSettled(ds[i])
  {
    if i > 0 {
      RunSettles(ds, steps, i - 1);
      RunKeepsInv(ds, steps, i - 1);
      forall id
        ensures Settled(ViewOf(ds[i], id), ds[i].clock)
      {
        assert Settled(ViewOf(ds[i - 1], id), ds[i - 1].clock);
        ViewStepSettled(ds[i - 1], id, steps[i - 1]);
      }
    }
  }

  /**
   * When writes succeed and limits are whole seconds, in every interleaving, every cached session
   * within its limit has a row, and unless its closure is still to be written the row is what
   * the session would be saved as, but for a limit of more than a day that a restart clamped.
   */
  lemma CacheAgreesWithStorage(ds: seq<State>, steps: seq<Step>, i: nat, id: SessionId)
    requires IsRun(ds, steps) && i < |ds| && id in ds[i].cache
    requires forall k :: 0 <= k < i ==> Reliable(steps[k])
    requires !ds[i].cache[id].PastLimit(ds[i].clock)
    ensures id in ds[i].rows
    ensures id !in ds[i].pending ==> Agrees(ds[i].rows[id], ds[i].cache[id])
    ensures id !in ds[i].pending && ds[i].rows[id].timeLimitSecs <= MAX_SESSION_TIME_LIMIT_SECS ==>
              ds[i].rows[id] == DomainToStored(ds[i].cache[id])
  {
    RunSettles(ds, steps, i);
    assert Settled(ViewOf(ds[i], id), ds[i].clock);
  }
}
