/**
 * Whole runs of the in-memory session store: conservation of the call budget, the status
 * machine, the per-agent cap and the bound that the fixed rate window gives on any time span.
 */
module SessionRuns {
  import opened Common
  import opened SessionModel
  import opened SessionStore

  datatype Op =
    | Create(id: SessionId, req: CreateRequest, tWindow: int, tCreated: int)
    | CreateCapped(id: SessionId, req: CreateRequest, max: nat, tWindow: int, tCreated: int)
    | Use(id: SessionId, tool: string, agent: Option<Uuid>, tExpiry: int, tRate: int)
    | Batch(id: SessionId, tools: seq<string>, agent: Option<Uuid>, tExpiry: int, tCheck: int, tCharge: int)
    | Close(id: SessionId)
    | CloseAgent(agentId: Uuid)
    | Cleanup(readAt: SessionId -> int, now: int)

  /** `n` calls of session `id`, accepted at time `at`. */
  datatype Accept = Accept(id: SessionId, at: int, n: nat)

  /** The store, the last value of every session ever created, all acceptances and the clock. */
  datatype World = World(store: Sessions, ever: Sessions, log: seq<Accept>, clock: int)

  const EMPTY := World(map[], map[], [], 0)

  /** What each method of the class `Store` is proved to do to its sessions. */
  ghost function NextStore(m: Sessions, op: Op): Sessions {
    match op
    case Create(id, req, tWindow, tCreated) =>
      m[id := NewSession(id, req, ClampedLimit(req.timeLimit), tWindow, tCreated)]
    case CreateCapped(id, req, max, tWindow, tCreated) =>
      if |ActiveIds(m, req.agentId)| < max then m[id := NewSession(id, req, req.timeLimit, tWindow, tCreated)] else m
    case Use(id, tool, agent, tExpiry, tRate) => AfterUse(m, id, tool, agent, tExpiry, tRate)
    case Batch(id, tools, agent, tExpiry, tCheck, tCharge) => AfterBatch(m, id, tools, agent, tExpiry, tCheck, tCharge)
    case Close(id) => AfterClose(m, id)
    case CloseAgent(agentId) => AfterCloseAgent(m, agentId)
    case Cleanup(readAt, _) => AfterCleanup(m, readAt)
  }

  /** The calls that the operation gets accepted. */
  ghost function Acceptance(m: Sessions, op: Op): seq<Accept> {
    match op
    case Use(id, tool, agent, tExpiry, tRate) =>
      if id in m && UseOne(m[id], tool, agent, tExpiry, tRate).Accepted() then [Accept(id, tRate, 1)] else []
    case Batch(id, tools, agent, tExpiry, tCheck, tCharge) =>
      if id in m && UseBatch(m[id], tools, agent, tExpiry, tCheck, tCharge).Accepted()
      then [Accept(id, tCharge, |tools|)] else []
    case _ => []
  }

  /** The clock readings of an operation, in the order the code takes them. */
  function Readings(op: Op): seq<int> {
    match op
    case Create(_, _, tWindow, tCreated) => [tWindow, tCreated]
    case CreateCapped(_, _, _, tWindow, tCreated) => [tWindow, tCreated]
    case Use(_, _, _, tExpiry, tRate) => [tExpiry, tRate]
    case Batch(_, _, _, tExpiry, tCheck, tCharge) => [tExpiry, tCheck, tCharge]
    case Cleanup(_, now) => [now]
    case _ => []
  }

  function LastReading(clock: int, op: Op): int {
    var ts := Readings(op);
    if ts == [] then clock else ts[|ts| - 1]
  }

  /** The clock never runs backwards, and a new session's id was never used before. */
  ghost predicate Enabled(w: World, op: Op) {
    && (forall i, j :: 0 <= i < j < |Readings(op)| ==> Readings(op)[i] <= Readings(op)[j])
    && (forall i :: 0 <= i < |Readings(op)| ==> w.clock <= Readings(op)[i])
    && ((op.Create? || op.CreateCapped?) ==> op.id !in w.ever)
    && (op.Cleanup? ==> forall id :: w.clock <= op.readAt(id) <= op.now)
  }

  ghost function Next(w: World, op: Op): World {
    var store := NextStore(w.store, op);
    World(store, w.ever + store, w.log + Acceptance(w.store, op), LastReading(w.clock, op))
  }

  ghost predicate IsRun(ws: seq<World>, ops: seq<Op>) {
    && |ws| == |ops| + 1
    && ws[0] == EMPTY
    && forall i {:trigger ops[i]} :: 0 <= i < |ops| ==> Enabled(ws[i], ops[i]) && ws[i + 1] == Next(ws[i], ops[i])
  }

  // ---------------------------------------------------------------------------
  // Status machine and conservation
  // ---------------------------------------------------------------------------

  predicate StatusMoves(a: Status, b: Status) {
    a == b || a == Active || (a == Expired && b == Closed)
  }

  /** From `a` to `b` a session only spends budget while active and only moves forward. */
  predicate Progress(a: TaskSession, b: TaskSession) {
    && SameTerms(b, a)
    && StatusMoves(a.status, b.status)
    && a.callsMade <= b.callsMade
    && a.windowStart <= b.windowStart
    && (a.status != Active ==>
          a.callsMade == b.callsMade && a.windowStart == b.windowStart && a.windowCalls == b.windowCalls)
  }

  /** The accepted calls of a session. */
  ghost function Total(log: seq<Accept>, id: SessionId): nat {
    if log == [] then 0
    else Total(log[..|log| - 1], id) + if log[|log| - 1].id == id then log[|log| - 1].n else 0
  }

  ghost predicate Inv(w: World) {
    && WellKeyed(w.ever)
    && (forall id :: id in w.store ==> id in w.ever && w.ever[id] == w.store[id])
    && (forall k :: 0 <= k < |w.log| ==> w.log[k].id in w.ever)
    && (forall id :: id in w.ever ==>
          && w.ever[id].callsMade == Total(w.log, id) <= w.ever[id].callBudget
          && w.ever[id].windowStart <= w.clock)
  }

  lemma {:induction false} TotalOfStranger(log: seq<Accept>, id: SessionId)
    requires forall k :: 0 <= k < |log| ==> log[k].id != id
    ensures Total(log, id) == 0
  {
    if log != [] {
      TotalOfStranger(log[..|log| - 1], id);
    }
  }

  lemma TotalAppend(log: seq<Accept>, e: Accept, id: SessionId)
    ensures Total(log + [e], id) == Total(log, id) + if e.id == id then e.n else 0
  {
    assert (log + [e])[..|log|] == log;
  }

  /** The calls an operation gets accepted for one session. */
  ghost function Gain(m: Sessions, op: Op, id: SessionId): nat {
    var a := Acceptance(m, op);
    if a != [] && a[0].id == id then a[0].n else 0
  }

  lemma UseProgress(s: TaskSession, tool: string, agent: Option<Uuid>, tExpiry: int, tRate: int)
    requires s.callsMade <= s.callBudget && s.windowStart <= tRate
    ensures var o := UseOne(s, tool, agent, tExpiry, tRate);
            && Progress(s, o.session)
            && o.session.callsMade == s.callsMade + (if o.Accepted() then 1 else 0) <= s.callBudget
            && o.session.windowStart <= tRate
            && (!o.Accepted() ==> o.session == s.(status := o.session.status))
  {
  }

  lemma BatchProgress(s: TaskSession, tools: seq<string>, agent: Option<Uuid>, tExpiry: int, tCheck: int, tCharge: int)
    requires s.callsMade <= s.callBudget && s.windowStart <= tCharge
    ensures var o := UseBatch(s, tools, agent, tExpiry, tCheck, tCharge);
            && Progress(s, o.session)
            && o.session.callsMade == s.callsMade + (if o.Accepted() then |tools| else 0) <= s.callBudget
            && o.session.windowStart <= tCharge
            && (!o.Accepted() ==> o.session == s.(status := o.session.status))
  {
  }

  /** What an operation does to a session that it leaves in the store. */
  ghost function OnSession(op: Op, s: TaskSession): TaskSession {
    match op
    case Use(id, tool, agent, tExpiry, tRate) =>
      if id == s.sessionId then UseOne(s, tool, agent, tExpiry, tRate).session else s
    case Batch(id, tools, agent, tExpiry, tCheck, tCharge) =>
      if id == s.sessionId then UseBatch(s, tools, agent, tExpiry, tCheck, tCharge).session else s
    case Close(id) => if id == s.sessionId then CloseOne(s).session else s
    case CloseAgent(agentId) => Closing(s, agentId)
    case _ => s
  }

  lemma StoreStep(w: World, op: Op, id: SessionId)
    requires Inv(w) && Enabled(w, op) && id in NextStore(w.store, op)
    ensures id in w.store ==> NextStore(w.store, op)[id] == OnSession(op, w.store[id])
    ensures id !in w.store ==>
              && (op.Create? || op.CreateCapped?) && op.id == id
              && NextStore(w.store, op)[id] == NewSession(id, op.req, NextStore(w.store, op)[id].timeLimit, op.tWindow, op.tCreated)
  {
  }

  /** The clock moves forward, and past every reading of the operation. */
  lemma ClockMoves(w: World, op: Op)
    requires Enabled(w, op)
    ensures w.clock <= LastReading(w.clock, op)
    ensures forall k :: 0 <= k < |Readings(op)| ==> w.clock <= Readings(op)[k] <= LastReading(w.clock, op)
  {
    if Readings(op) != [] {
      assert w.clock <= Readings(op)[|Readings(op)| - 1];
    }
  }

  /** One operation, seen from one session that is in the store and stays there. */
  lemma OpOnSession(w: World, op: Op, id: SessionId)
    requires Inv(w) && Enabled(w, op) && id in w.store
    ensures var s, s' := w.store[id], OnSession(op, w.store[id]);
            && Progress(s, s')
            && s'.callsMade == s.callsMade + Gain(w.store, op, id)
            && s'.callsMade <= s'.callBudget
            && s'.windowStart <= LastReading(w.clock, op)
            && ((Acceptance(w.store, op) != [] ==> Acceptance(w.store, op)[0].id != id) ==> s' == s.(status := s'.status))
  {
    ClockMoves(w, op);
    var s := w.store[id];
    assert s == w.ever[id];
    match op
    case Use(_, tool, agent, tExpiry, tRate) =>
      assert Readings(op)[1] == tRate;
      UseProgress(s, tool, agent, tExpiry, tRate);
    case Batch(_, tools, agent, tExpiry, tCheck, tCharge) =>
      assert Readings(op)[2] == tCharge;
      BatchProgress(s, tools, agent, tExpiry, tCheck, tCharge);
    case _ =>
  }

  lemma StepCreates(w: World, op: Op, id: SessionId)
    requires Inv(w) && Enabled(w, op) && id in NextStore(w.store, op) && id !in w.store
    ensures id !in w.ever && Gain(w.store, op, id) == 0 && Total(w.log, id) == 0
    ensures var s' := NextStore(w.store, op)[id];
            s'.sessionId == id && s'.callsMade == 0 && s'.windowStart <= LastReading(w.clock, op)
  {
    ClockMoves(w, op);
    StoreStep(w, op, id);
    assert Readings(op)[0] == op.tWindow;
    TotalOfStranger(w.log, id);
  }

  lemma TotalStep(w: World, op: Op, id: SessionId)
    ensures Total(Next(w, op).log, id) == Total(w.log, id) + Gain(w.store, op, id)
    ensures Gain(w.store, op, id) > 0 ==> id in w.store && id in NextStore(w.store, op)
  {
    var a := Acceptance(w.store, op);
    if a != [] {
      TotalAppend(w.log, a[0], id);
    } else {
      assert Next(w, op).log == w.log;
    }
  }

  /** What holds of a session after a step, given its value before if it had one. */
  ghost predicate Follows(w: World, w': World, id: SessionId, s': TaskSession) {
    && s'.sessionId == id
    && s'.callsMade == Total(w'.log, id) <= s'.callBudget
    && s'.windowStart <= w'.clock
    && (id in w.ever ==> Progress(w.ever[id], s'))
  }

  lemma StayFollows(w: World, op: Op, id: SessionId)
    requires Inv(w) && Enabled(w, op) && id in NextStore(w.store, op) && id in w.store
    ensures Follows(w, Next(w, op), id, NextStore(w.store, op)[id])
  {
    assert w.store[id] == w.ever[id];
    TotalStep(w, op, id);
    StoreStep(w, op, id);
    OpOnSession(w, op, id);
  }

  lemma NewFollows(w: World, op: Op, id: SessionId)
    requires Inv(w) && Enabled(w, op) && id in NextStore(w.store, op) && id !in w.store
    ensures Follows(w, Next(w, op), id, NextStore(w.store, op)[id])
  {
    TotalStep(w, op, id);
    StepCreates(w, op, id);
  }

  lemma PastFollows(w: World, op: Op, id: SessionId)
    requires Inv(w) && Enabled(w, op) && id !in NextStore(w.store, op) && id in w.ever
    ensures Follows(w, Next(w, op), id, w.ever[id])
  {
    ClockMoves(w, op);
    TotalStep(w, op, id);
  }

  /** One session, present or past, across one step. */
  lemma StepOnSession(w: World, op: Op, id: SessionId)
    requires Inv(w) && Enabled(w, op) && id in Next(w, op).ever
    ensures Follows(w, Next(w, op), id, Next(w, op).ever[id])
  {
    if id !in NextStore(w.store, op) {
      PastFollows(w, op, id);
    } else if id in w.store {
      StayFollows(w, op, id);
    } else {
      NewFollows(w, op, id);
    }
  }

  lemma StepKeepsInv(w: World, op: Op)
    requires Inv(w) && Enabled(w, op)
    ensures Inv(Next(w, op))
    ensures forall id :: id in w.ever ==> id in Next(w, op).ever && Progress(w.ever[id], Next(w, op).ever[id])
  {
    forall id | id in Next(w, op).ever {
      StepOnSession(w, op, id);
    }
  }

  lemma {:induction false} RunKeepsInv(ws: seq<World>, ops: seq<Op>, i: nat)
    requires IsRun(ws, ops) && i < |ws|
    ensures Inv(ws[i])
  {
    if i > 0 {
      RunKeepsInv(ws, ops, i - 1);
      StepKeepsInv(ws[i - 1], ops[i - 1]);
    }
  }

  /** Over every run the budget spent is exactly the calls accepted, and never exceeds the budget. */
  lemma Conservation(ws: seq<World>, ops: seq<Op>, i: nat, id: SessionId)
    requires IsRun(ws, ops) && i < |ws| && id in ws[i].store
    ensures ws[i].store[id].callsMade == Total(ws[i].log, id) <= ws[i].store[id].callBudget
  {
    RunKeepsInv(ws, ops, i);
  }

  /**
   * Between any two moments of a run a session's status only moves forward, its terms stay, and
   * its counters do not move once its status left Active.
   */
  lemma {:induction false} StatusMachine(ws: seq<World>, ops: seq<Op>, i: nat, j: nat, id: SessionId)
    requires IsRun(ws, ops) && i <= j < |ws| && id in ws[i].ever
    ensures id in ws[j].ever && Progress(ws[i].ever[id], ws[j].ever[id])
    decreases j
  {
    if i < j {
      StatusMachine(ws, ops, i, j - 1, id);
      RunKeepsInv(ws, ops, j - 1);
      StepKeepsInv(ws[j - 1], ops[j - 1]);
    }
  }

  // ---------------------------------------------------------------------------
  // Per-agent cap
  // ---------------------------------------------------------------------------

  ghost predicate OnlyCapped(ops: seq<Op>, max: nat) {
    forall i :: 0 <= i < |ops| ==> !ops[i].Create? && (ops[i].CreateCapped? ==> ops[i].max == max)
  }

  lemma SubsetSize(a: set<SessionId>, b: set<SessionId>)
    requires a <= b
    ensures |a| <= |b|
  {
    assert b == a + (b - a);
  }

  lemma CapStep(m: Sessions, op: Op, agent: Uuid, max: nat)
    requires |ActiveIds(m, agent)| <= max && !op.Create? && (op.CreateCapped? ==> op.max == max)
    ensures |ActiveIds(NextStore(m, op), agent)| <= max
  {
    var before, after := ActiveIds(m, agent), ActiveIds(NextStore(m, op), agent);
    if op.CreateCapped? && op.req.agentId == agent && |before| < max {
      assert after <= before + {op.id};
      SubsetSize(after, before + {op.id});
    } else {
      assert after <= before;
      SubsetSize(after, before);
    }
  }

  /** An agent never has more active sessions than the fixed maximum. */
  lemma {:induction false} SessionCap(ws: seq<World>, ops: seq<Op>, i: nat, agent: Uuid, max: nat)
    requires IsRun(ws, ops) && OnlyCapped(ops, max) && i < |ws|
    ensures |ActiveIds(ws[i].store, agent)| <= max
  {
    if i == 0 {
      assert ActiveIds(ws[0].store, agent) == {};
    } else {
      SessionCap(ws, ops, i - 1, agent, max);
      CapStep(ws[i - 1].store, ops[i - 1], agent, max);
    }
  }

  // ---------------------------------------------------------------------------
  // Rate bound
  // ---------------------------------------------------------------------------

  /** Calls of session `id` accepted at `lo` or later. */
  ghost function Since(log: seq<Accept>, id: SessionId, lo: int): nat {
    if log == [] then 0
    else
      var e := log[|log| - 1];
      Since(log[..|log| - 1], id, lo) + if e.id == id && lo <= e.at then e.n else 0
  }

  /** Calls of session `id` accepted in the half-open span from `lo` to `hi`. */
  ghost function Within(log: seq<Accept>, id: SessionId, lo: int, hi: int): nat {
    if log == [] then 0
    else
      var e := log[|log| - 1];
      Within(log[..|log| - 1], id, lo, hi) + if e.id == id && lo <= e.at < hi then e.n else 0
  }

  lemma {:induction false} SinceSplits(log: seq<Accept>, id: SessionId, lo: int, mid: int)
    requires lo <= mid
    ensures Since(log, id, lo) == Within(log, id, lo, mid) + Since(log, id, mid)
  {
    if log != [] {
      SinceSplits(log[..|log| - 1], id, lo, mid);
    }
  }

  lemma {:induction false} NothingSince(log: seq<Accept>, id: SessionId, lo: int)
    requires forall k :: 0 <= k < |log| && log[k].id == id ==> log[k].at < lo
    ensures Since(log, id, lo) == 0
  {
    if log != [] {
      NothingSince(log[..|log| - 1], id, lo);
    }
  }

  lemma AppendCounts(log: seq<Accept>, e: Accept, id: SessionId, lo: int, hi: int)
    ensures Since(log + [e], id, lo) == Since(log, id, lo) + if e.id == id && lo <= e.at then e.n else 0
    ensures Within(log + [e], id, lo, hi) == Within(log, id, lo, hi) + if e.id == id && lo <= e.at < hi then e.n else 0
  {
    assert (log + [e])[..|log|] == log;
  }

  function WindowLength(s: TaskSession): int {
    s.windowSecs * SECOND
  }

  /**
   * The current window holds at most `cap` calls, so did whatever part of the past lies within
   * one window length before it, and no span of one window length holds more than twice that.
   */
  ghost predicate RateInv(s: TaskSession, log: seq<Accept>, cap: nat) {
    var w := WindowLength(s);
    && Since(log, s.sessionId, s.windowStart) <= s.windowCalls <= cap
    && (forall k :: 0 <= k < |log| && log[k].id == s.sessionId ==> log[k].at < s.windowStart + w)
    && (forall lo :: s.windowStart - w < lo ==> Within(log, s.sessionId, lo, s.windowStart) <= cap)
    && (forall lo, hi :: hi - lo <= w ==> Within(log, s.sessionId, lo, hi) <= 2 * cap)
  }

  /** An acceptance that opens a new window at least one window length after the last began. */
  lemma OpensWindow(s: TaskSession, log: seq<Accept>, n: nat, at: int, cap: nat)
    requires RateInv(s, log, cap) && n <= cap && s.windowSecs > 0
    requires s.WindowOver(at)
    ensures RateInv(s.(windowStart := at, windowCalls := n), log + [Accept(s.sessionId, at, n)], cap)
  {
    var id, w, e := s.sessionId, WindowLength(s), Accept(s.sessionId, at, n);
    NothingSince(log, id, at);
    AppendCounts(log, e, id, at, at);
    forall lo | at - w < lo
      ensures Within(log + [e], id, lo, at) <= cap
    {
      AppendCounts(log, e, id, lo, at);
      CurrentOnly(s, log, cap, lo, at);
    }
    forall lo, hi | hi - lo <= w
      ensures Within(log + [e], id, lo, hi) <= 2 * cap
    {
      AppendCounts(log, e, id, lo, hi);
      if lo <= at < hi {
        CurrentOnly(s, log, cap, lo, hi);
      }
    }
  }

  /** Only the current window reaches past its own start. */
  lemma CurrentOnly(s: TaskSession, log: seq<Accept>, cap: nat, lo: int, hi: int)
    requires RateInv(s, log, cap) && s.windowStart <= lo
    ensures Within(log, s.sessionId, lo, hi) <= s.windowCalls
  {
    SinceSplits(log, s.sessionId, s.windowStart, lo);
    if lo <= hi {
      SinceSplits(log, s.sessionId, lo, hi);
    } else {
      NothingWithin(log, s.sessionId, lo, hi);
    }
  }

  lemma {:induction false} NothingWithin(log: seq<Accept>, id: SessionId, lo: int, hi: int)
    requires hi <= lo
    ensures Within(log, id, lo, hi) == 0
  {
    if log != [] {
      NothingWithin(log[..|log| - 1], id, lo, hi);
    }
  }

  /** An acceptance inside the current window. */
  lemma FillsWindow(s: TaskSession, log: seq<Accept>, n: nat, at: int, cap: nat)
    requires RateInv(s, log, cap) && s.windowCalls + n <= cap && s.windowSecs > 0
    requires s.windowStart <= at && !s.WindowOver(at)
    ensures RateInv(s.(windowCalls := s.windowCalls + n), log + [Accept(s.sessionId, at, n)], cap)
  {
    var id, w, e := s.sessionId, WindowLength(s), Accept(s.sessionId, at, n);
    AppendCounts(log, e, id, s.windowStart, s.windowStart);
    forall lo | s.windowStart - w < lo
      ensures Within(log + [e], id, lo, s.windowStart) <= cap
    {
      AppendCounts(log, e, id, lo, s.windowStart);
    }
    forall lo, hi | hi - lo <= w
      ensures Within(log + [e], id, lo, hi) <= 2 * cap
    {
      AppendCounts(log, e, id, lo, hi);
      if lo <= at < hi {
        if s.windowStart <= lo {
          CurrentOnly(s, log, cap, lo, hi);
        } else {
          SinceSplits(log, id, lo, s.windowStart);
          SinceSplits(log, id, lo, hi);
        }
      }
    }
  }

  /** Acceptances of other sessions do not matter. */
  lemma OtherSession(s: TaskSession, log: seq<Accept>, e: Accept, cap: nat)
    requires RateInv(s, log, cap) && e.id != s.sessionId
    ensures RateInv(s, log + [e], cap)
  {
    AppendCounts(log, e, s.sessionId, s.windowStart, s.windowStart);
    forall lo, hi
      ensures Within(log + [e], s.sessionId, lo, hi) == Within(log, s.sessionId, lo, hi)
    {
      AppendCounts(log, e, s.sessionId, lo, hi);
    }
  }

  lemma FreshSession(s: TaskSession, log: seq<Accept>, cap: nat)
    requires s.windowCalls == 0
    requires forall k :: 0 <= k < |log| ==> log[k].id != s.sessionId
    ensures RateInv(s, log, cap)
  {
    forall lo
      ensures Since(log, s.sessionId, lo) == 0
    {
      NothingSince(log, s.sessionId, lo);
    }
    forall lo, hi
      ensures Within(log, s.sessionId, lo, hi) == 0
    {
      NothingSince(log, s.sessionId, lo);
      if lo <= hi {
        SinceSplits(log, s.sessionId, lo, hi);
      } else {
        NothingWithin(log, s.sessionId, lo, hi);
      }
    }
  }

  /** The session has a rate limit of at most `cap`, over windows of positive length. */
  predicate Limited(s: TaskSession, cap: nat) {
    s.rateLimit.Some? && s.rateLimit.value <= cap && 1 <= cap && s.windowSecs > 0
  }

  /** No batch on the session is larger than `cap`. */
  predicate BatchUpTo(op: Op, id: SessionId, cap: nat) {
    op.Batch? && op.id == id ==> |op.tools| <= cap
  }

  /** Charging a use or batch that was accepted at `at`. */
  lemma RateCharge(s: TaskSession, s': TaskSession, log: seq<Accept>, n: nat, at: int, cap: nat)
    requires RateInv(s, log, cap) && n <= cap && s.windowSecs > 0 && s.windowStart <= at
    requires s' == ChargeWindow(s, n, at).(callsMade := s'.callsMade) && s.rateLimit.Some?
    requires !s.WindowOver(at) ==> s.windowCalls + n <= cap
    ensures RateInv(s', log + [Accept(s.sessionId, at, n)], cap)
  {
    if s.WindowOver(at) {
      OpensWindow(s, log, n, at, cap);
    } else {
      FillsWindow(s, log, n, at, cap);
    }
    Recount(ChargeWindow(s, n, at), s', log + [Accept(s.sessionId, at, n)], cap);
  }

  lemma RateAccepted(w: World, op: Op, id: SessionId, cap: nat, a: Accept)
    requires Inv(w) && Enabled(w, op) && id in w.ever && RateInv(w.ever[id], w.log, cap)
    requires Limited(w.ever[id], cap) && BatchUpTo(op, id, cap)
    requires Acceptance(w.store, op) == [a] && a.id == id
    ensures id in Next(w, op).ever && RateInv(Next(w, op).ever[id], Next(w, op).log, cap)
  {
    ClockMoves(w, op);
    StoreStep(w, op, id);
    if op.Use? {
      assert Readings(op)[1] == a.at;
    } else {
      assert Readings(op)[2] == a.at;
      assert Readings(op)[1] <= Readings(op)[2];
    }
    RateCharge(w.ever[id], Next(w, op).ever[id], w.log, a.n, a.at, cap);
  }

  lemma RateStep(w: World, op: Op, id: SessionId, cap: nat)
    requires Inv(w) && Enabled(w, op) && id in w.ever && RateInv(w.ever[id], w.log, cap)
    requires Limited(w.ever[id], cap) && BatchUpTo(op, id, cap)
    ensures id in Next(w, op).ever && RateInv(Next(w, op).ever[id], Next(w, op).log, cap)
  {
    var s, a, w' := w.ever[id], Acceptance(w.store, op), Next(w, op);
    if a != [] && a[0].id == id {
      RateAccepted(w, op, id, cap, a[0]);
    } else {
      Unaccepted(w, op, id);
      if a != [] {
        OtherSession(s, w.log, a[0], cap);
      } else {
        assert w'.log == w.log;
      }
      Recount(s, w'.ever[id], w'.log, cap);
    }
  }

  /** Without an acceptance a session's rate window stays as it is. */
  lemma Unaccepted(w: World, op: Op, id: SessionId)
    requires Inv(w) && Enabled(w, op) && id in w.ever
    requires Acceptance(w.store, op) != [] ==> Acceptance(w.store, op)[0].id != id
    ensures var s, s' := w.ever[id], Next(w, op).ever[id];
            s' == s.(status := s'.status)
  {
    if id in NextStore(w.store, op) {
      StoreStep(w, op, id);
      if id in w.store {
        OpOnSession(w, op, id);
      }
    }
  }

  /** The rate invariant reads the session's id and window only. */
  lemma Recount(a: TaskSession, b: TaskSession, log: seq<Accept>, cap: nat)
    requires RateInv(a, log, cap)
    requires a.sessionId == b.sessionId && a.windowStart == b.windowStart && a.windowCalls == b.windowCalls
    requires a.windowSecs == b.windowSecs
    ensures RateInv(b, log, cap)
  {
  }

  /** A session that a step brings into being starts with an empty window. */
  lemma NewbornRate(w: World, op: Op, id: SessionId, cap: nat)
    requires Inv(w) && Enabled(w, op) && id in Next(w, op).ever && id !in w.ever
    ensures RateInv(Next(w, op).ever[id], Next(w, op).log, cap)
  {
    StoreStep(w, op, id);
    assert Next(w, op).log == w.log;
    FreshSession(Next(w, op).ever[id], w.log, cap);
  }

  lemma RateAcross(w: World, op: Op, id: SessionId, cap: nat)
    requires Inv(w) && Enabled(w, op) && id in Next(w, op).ever && Limited(Next(w, op).ever[id], cap)
    requires BatchUpTo(op, id, cap)
    requires id in w.ever && Limited(w.ever[id], cap) ==> RateInv(w.ever[id], w.log, cap)
    ensures RateInv(Next(w, op).ever[id], Next(w, op).log, cap)
  {
    if id in w.ever {
      StepOnSession(w, op, id);
      RateStep(w, op, id, cap);
    } else {
      NewbornRate(w, op, id, cap);
    }
  }

  lemma {:induction false} RunKeepsRate(ws: seq<World>, ops: seq<Op>, i: nat, id: SessionId, cap: nat)
    requires IsRun(ws, ops) && i < |ws| && id in ws[i].ever && Limited(ws[i].ever[id], cap)
    requires forall k :: 0 <= k < i ==> BatchUpTo(ops[k], id, cap)
    ensures RateInv(ws[i].ever[id], ws[i].log, cap)
  {
    RunKeepsInv(ws, ops, i - 1);
    if id in ws[i - 1].ever && Limited(ws[i - 1].ever[id], cap) {
      RunKeepsRate(ws, ops, i - 1, id, cap);
    }
    RateAcross(ws[i - 1], ops[i - 1], id, cap);
  }

  /**
   * Any half-open time span of one window length holds at most twice as many accepted calls of a
   * session as the larger of its rate limit and its largest batch, for any mix of single and
   * batch use, and even after the session left the store.
   */
  lemma RateBound(ws: seq<World>, ops: seq<Op>, i: nat, id: SessionId, cap: nat, lo: int)
    requires IsRun(ws, ops) && i < |ws| && id in ws[i].ever
    requires Limited(ws[i].ever[id], cap)
    requires forall k :: 0 <= k < i ==> BatchUpTo(ops[k], id, cap)
    ensures Within(ws[i].log, id, lo, lo + WindowLength(ws[i].ever[id])) <= 2 * cap
  {
    RunKeepsInv(ws, ops, i);
    RunKeepsRate(ws, ops, i, id, cap);
  }

  /** The session the next run uses. */
  function Busy(limit: nat, windowSecs: nat): CreateRequest {
    CreateRequest(0, [], "", [], [], (windowSecs + 1) * SECOND, 2 * limit, Some(limit), windowSecs, Public)
  }

  /** It takes a full batch at the very end of its first window, and another right after. */
  lemma TwoFullBatches(s: TaskSession, tools: seq<string>, end: int)
    requires s.status == Active && s.createdAt == s.windowStart == 0 && s.windowCalls == s.callsMade == 0 && s.tools == []
    requires s.rateLimit == Some(|tools|) && s.callBudget == 2 * |tools|
    requires end == WindowLength(s) > 0 && end <= s.timeLimit
    ensures var first := UseBatch(s, tools, None, end - 1, end - 1, end - 1);
            var second := UseBatch(first.session, tools, None, end, end, end);
            && first.Accepted() && second.Accepted()
            && second.session.rateLimit == s.rateLimit && second.session.windowSecs == s.windowSecs
  {
    AllAuthorized(s, tools);
    AllAuthorized(UseBatch(s, tools, None, end - 1, end - 1, end - 1).session, tools);
  }

  /** A world with one session, at rest. */
  function Alone(s: TaskSession, log: seq<Accept>, clock: int): World {
    World(map[s.sessionId := s], map[s.sessionId := s], log, clock)
  }

  lemma CreateAlone(req: CreateRequest)
    ensures Next(EMPTY, Create(1, req, 0, 0)) == Alone(NewSession(1, req, ClampedLimit(req.timeLimit), 0, 0), [], 0)
    ensures Enabled(EMPTY, Create(1, req, 0, 0))
  {
  }

  lemma BatchAlone(s: TaskSession, log: seq<Accept>, clock: int, tools: seq<string>, at: int)
    requires clock <= at && UseBatch(s, tools, None, at, at, at).Accepted()
    ensures var op := Batch(s.sessionId, tools, None, at, at, at);
            && Enabled(Alone(s, log, clock), op)
            && Next(Alone(s, log, clock), op) ==
               Alone(UseBatch(s, tools, None, at, at, at).session, log + [Accept(s.sessionId, at, |tools|)], at)
  {
  }

  lemma CountTwo(id: SessionId, n: nat, at: int, hi: int)
    requires at + 1 < hi
    ensures Within([Accept(id, at, n)] + [Accept(id, at + 1, n)], id, at, hi) == 2 * n
  {
    AppendCounts([], Accept(id, at, n), id, at, hi);
    assert [] + [Accept(id, at, n)] == [Accept(id, at, n)];
    AppendCounts([Accept(id, at, n)], Accept(id, at + 1, n), id, at, hi);
  }

  /** A run goes on with any enabled operation. */
  lemma RunOn(ws: seq<World>, ops: seq<Op>, op: Op)
    requires IsRun(ws, ops) && Enabled(ws[|ops|], op)
    ensures IsRun(ws + [Next(ws[|ops|], op)], ops + [op])
  {
    var ws', ops' := ws + [Next(ws[|ops|], op)], ops + [op];
    forall i | 0 <= i < |ops'|
      ensures Enabled(ws'[i], ops'[i]) && ws'[i + 1] == Next(ws'[i], ops'[i])
    {
      if i < |ops| {
        assert ops'[i] == ops[i] && ws'[i] == ws[i] && ws'[i + 1] == ws[i + 1];
      }
    }
  }

  ghost predicate BatchesUpTo(ops: seq<Op>, id: SessionId, cap: nat) {
    forall k :: 0 <= k < |ops| ==> BatchUpTo(ops[k], id, cap)
  }

  /** A first operation, and then another. */
  lemma RunOf(a: Op, w: World)
    requires Enabled(EMPTY, a) && w == Next(EMPTY, a)
    ensures IsRun([EMPTY] + [w], [a])
  {
    RunOn([EMPTY], [], a);
    assert [] + [a] == [a];
  }

  lemma RunThen(ws: seq<World>, ops: seq<Op>, op: Op, w: World, w': World)
    requires IsRun(ws, ops) && |ws| > 0 && ws[|ws| - 1] == w && Enabled(w, op) && w' == Next(w, op)
    ensures IsRun(ws + [w'], ops + [op])
  {
    RunOn(ws, ops, op);
  }

  lemma ThreeSteps(w: World, w': World, w'': World, a: Op, b: Op, c: Op) returns (ws: seq<World>, ops: seq<Op>)
    requires Enabled(EMPTY, a) && w == Next(EMPTY, a)
    requires Enabled(w, b) && w' == Next(w, b)
    requires Enabled(w', c) && w'' == Next(w', c)
    ensures IsRun(ws, ops) && |ws| == 4 && ws[3] == w'' && ops == [a] + [b] + [c]
  {
    RunOf(a, w);
    RunThen([EMPTY] + [w], [a], b, w, w');
    RunThen([EMPTY] + [w] + [w'], [a] + [b], c, w', w'');
    ws, ops := [EMPTY] + [w] + [w'] + [w''], [a] + [b] + [c];
  }

  lemma ThreeFit(a: Op, b: Op, c: Op, id: SessionId, cap: nat)
    requires BatchUpTo(a, id, cap) && BatchUpTo(b, id, cap) && BatchUpTo(c, id, cap)
    ensures BatchesUpTo([a] + [b] + [c], id, cap)
  {
  }

  lemma ThreeFitting(w: World, w': World, w'': World, a: Op, b: Op, c: Op, id: SessionId, cap: nat)
    returns (ws: seq<World>, ops: seq<Op>)
    requires Enabled(EMPTY, a) && w == Next(EMPTY, a)
    requires Enabled(w, b) && w' == Next(w, b)
    requires Enabled(w', c) && w'' == Next(w', c)
    requires BatchUpTo(a, id, cap) && BatchUpTo(b, id, cap) && BatchUpTo(c, id, cap)
    ensures IsRun(ws, ops) && |ws| == 4 && ws[3] == w'' && BatchesUpTo(ops, id, cap)
  {
    ThreeFit(a, b, c, id, cap);
    ws, ops := ThreeSteps(w, w', w'', a, b, c);
  }

  lemma BusyRun(s: TaskSession, tools: seq<string>, end: int) returns (first: TaskSession, second: TaskSession)
    requires s.status == Active && s.createdAt == s.windowStart == 0 && s.windowCalls == s.callsMade == 0 && s.tools == []
    requires s.rateLimit == Some(|tools|) && s.callBudget == 2 * |tools|
    requires end == WindowLength(s) > 0 && end <= s.timeLimit
    ensures first.sessionId == second.sessionId == s.sessionId
    ensures second.rateLimit == s.rateLimit && second.windowSecs == s.windowSecs
    ensures var op, log := Batch(s.sessionId, tools, None, end - 1, end - 1, end - 1), [Accept(s.sessionId, end - 1, |tools|)];
            Enabled(Alone(s, [], 0), op) && Next(Alone(s, [], 0), op) == Alone(first, log, end - 1)
    ensures var op, log := Batch(s.sessionId, tools, None, end, end, end), [Accept(s.sessionId, end - 1, |tools|)];
            && Enabled(Alone(first, log, end - 1), op)
            && Next(Alone(first, log, end - 1), op) == Alone(second, log + [Accept(s.sessionId, end, |tools|)], end)
  {
    TwoFullBatches(s, tools, end);
    first := UseBatch(s, tools, None, end - 1, end - 1, end - 1).session;
    second := UseBatch(first, tools, None, end, end, end).session;
    BatchAlone(s, [], 0, tools, end - 1);
    var log := [Accept(s.sessionId, end - 1, |tools|)];
    assert [] + log == log;
    BatchAlone(first, log, end - 1, tools, end);
  }

  lemma BusyStart(limit: nat, windowSecs: nat) returns (s: TaskSession)
    requires windowSecs > 0
    ensures s.status == Active && s.createdAt == s.windowStart == 0 && s.windowCalls == s.callsMade == 0 && s.tools == []
    ensures s.sessionId == 1 && s.rateLimit == Some(limit) && s.callBudget == 2 * limit && s.windowSecs == windowSecs
    ensures WindowLength(s) <= s.timeLimit
    ensures var op := Create(1, Busy(limit, windowSecs), 0, 0); Enabled(EMPTY, op) && Next(EMPTY, op) == Alone(s, [], 0)
  {
    var req := Busy(limit, windowSecs);
    s := NewSession(1, req, ClampedLimit(req.timeLimit), 0, 0);
    CreateAlone(req);
  }

  function Repeated(n: nat): (r: seq<string>)
    ensures |r| == n
  {
    seq(n, i => "t")
  }

  lemma BusyWorlds(limit: nat, windowSecs: nat) returns (w: World, w': World, w'': World, a: Op, b: Op, c: Op)
    requires windowSecs > 0
    ensures Enabled(EMPTY, a) && w == Next(EMPTY, a)
    ensures Enabled(w, b) && w' == Next(w, b)
    ensures Enabled(w', c) && w'' == Next(w', c)
    ensures BatchUpTo(a, 1, limit) && BatchUpTo(b, 1, limit) && BatchUpTo(c, 1, limit)
    ensures 1 in w''.ever && w''.ever[1].rateLimit == Some(limit) && w''.ever[1].windowSecs == windowSecs
    ensures w''.log == [Accept(1, windowSecs * SECOND - 1, limit)] + [Accept(1, windowSecs * SECOND - 1 + 1, limit)]
  {
    var s := BusyStart(limit, windowSecs);
    a := Create(1, Busy(limit, windowSecs), 0, 0);
    w := Alone(s, [], 0);
    w', w'', b, c := BusyRest(s, limit, windowSecs * SECOND);
  }

  lemma BusyRest(s: TaskSession, limit: nat, end: int) returns (w': World, w'': World, b: Op, c: Op)
    requires s.status == Active && s.createdAt == s.windowStart == 0 && s.windowCalls == s.callsMade == 0 && s.tools == []
    requires s.sessionId == 1 && s.rateLimit == Some(limit) && s.callBudget == 2 * limit
    requires end == WindowLength(s) > 0 && end <= s.timeLimit
    ensures Enabled(Alone(s, [], 0), b) && w' == Next(Alone(s, [], 0), b)
    ensures Enabled(w', c) && w'' == Next(w', c)
    ensures BatchUpTo(b, 1, limit) && BatchUpTo(c, 1, limit)
    ensures 1 in w''.ever && w''.ever[1].rateLimit == Some(limit) && w''.ever[1].windowSecs == s.windowSecs
    ensures w''.log == [Accept(1, end - 1, limit)] + [Accept(1, end - 1 + 1, limit)]
  {
    var tools := Repeated(limit);
    var first, second := BusyRun(s, tools, end);
    var log := [Accept(1, end - 1, limit)];
    b, c := Batch(1, tools, None, end - 1, end - 1, end - 1), Batch(1, tools, None, end, end, end);
    w', w'' := Alone(first, log, end - 1), Alone(second, log + [Accept(1, end, limit)], end);
  }

  /**
   * The bound cannot be improved: for every limit and window there is a run in which a full window
   * ends just before another full one begins, so that one window length holds twice the limit.
   */
  lemma TwoWindowsMeet(limit: nat, windowSecs: nat) returns (ws: seq<World>, ops: seq<Op>, lo: int)
    requires windowSecs > 0
    ensures IsRun(ws, ops) && |ws| == 4 && 1 in ws[3].ever
    ensures ws[3].ever[1].rateLimit == Some(limit) && ws[3].ever[1].windowSecs == windowSecs
    ensures BatchesUpTo(ops, 1, limit)
    ensures Within(ws[3].log, 1, lo, lo + WindowLength(ws[3].ever[1])) == 2 * limit
  {
    var w, w', w'', a, b, c := BusyWorlds(limit, windowSecs);
    lo := windowSecs * SECOND - 1;
    CountTwo(1, limit, lo, lo + windowSecs * SECOND);
    ws, ops := ThreeFitting(w, w', w'', a, b, c, 1, limit);
    assert ws[3].log == w''.log && WindowLength(ws[3].ever[1]) == windowSecs * SECOND;
  }

  lemma {:induction false} AllAuthorized(s: TaskSession, tools: seq<string>)
    requires s.tools == []
    ensures FirstUnauthorized(s, tools).None?
  {
    if tools != [] {
      AllAuthorized(s, tools[1..]);
    }
  }
}
