/**
 * The per-agent cap of the storage-backed store. The cap is checked against the cache, and a restart
 * fills the cache from the rows, where a session may still be active that the cache had closed.
 */
module DurableCap {
  import opened Common
  import opened SessionModel
  import opened SessionStore
  import opened DurableStore
  import opened DurableRuns
  import SessionRuns

  /** Sessions are created under one maximum only. */
  ghost predicate OnlyCapped(steps: seq<Step>, max: nat) {
    forall i :: 0 <= i < |steps| ==> !steps[i].BeginCreate? && (steps[i].CreateCapped? ==> steps[i].max == max)
  }

  /** The agent's sessions that a restart would find active. */
  ghost function ActiveRows(rows: Rows, agent: Uuid): set<SessionId> {
    set id | id in rows && rows[id].agentId == agent && rows[id].status == StoredActive
  }

  lemma ReloadedActive(rows: Rows, agent: Uuid)
    ensures ActiveIds(Reloaded(rows), agent) == ActiveRows(rows, agent)
  {
  }

  // ---------------------------------------------------------------------------
  // Exactly when the cap holds
  // ---------------------------------------------------------------------------

  lemma {:induction false} NothingCreating(ds: seq<State>, steps: seq<Step>, i: nat, max: nat)
    requires IsRun(ds, steps) && OnlyCapped(steps, max) && i < |ds|
    ensures ds[i].creating == map[]
  {
    if i > 0 {
      NothingCreating(ds, steps, i - 1, max);
      assert !steps[i - 1].BeginCreate? && !steps[i - 1].FinishCreate?;
      assert ds[i] == Next(ds[i - 1], steps[i - 1]);
    }
  }

  /** One step other than a restart. */
  lemma CapStep(d: State, step: Step, agent: Uuid, max: nat)
    requires Keyed(d) && d.creating == map[] && Enabled(d, step) && |ActiveIds(d.cache, agent)| <= max
    requires !step.BeginCreate? && !step.Restart? && (step.CreateCapped? ==> step.max == max)
    ensures |ActiveIds(Next(d, step).cache, agent)| <= max
  {
    var before, after := ActiveIds(d.cache, agent), ActiveIds(Next(d, step).cache, agent);
    if step.CreateCapped? && step.req.agentId == agent && |before| < max {
      assert after <= before + {step.id};
      SessionRuns.SubsetSize(after, before + {step.id});
    } else {
      NoneActivated(d, step, agent);
      SessionRuns.SubsetSize(after, before);
    }
  }

  predicate ActiveFor(cached: Option<TaskSession>, agent: Uuid) {
    cached.Some? && cached.value.agentId == agent && cached.value.status == Active
  }

  lemma ViewNotActivated(v: View, id: SessionId, step: Step, admitted: bool, agent: Uuid)
    requires v.creating.None? && !step.BeginCreate? && !step.Restart?
    requires step.CreateCapped? ==> step.req.agentId != agent || !admitted
    ensures ActiveFor(ViewStep(v, id, step, admitted).cached, agent) ==> ActiveFor(v.cached, agent)
  {
  }

  lemma NoneActivated(d: State, step: Step, agent: Uuid)
    requires Keyed(d) && d.creating == map[] && Enabled(d, step) && !step.BeginCreate? && !step.Restart?
    requires step.CreateCapped? ==> step.req.agentId != agent || |ActiveIds(d.cache, agent)| >= step.max
    ensures ActiveIds(Next(d, step).cache, agent) <= ActiveIds(d.cache, agent)
  {
    forall id | id in ActiveIds(Next(d, step).cache, agent)
      ensures id in ActiveIds(d.cache, agent)
    {
      var v, v' := ViewOf(d, id), ViewOf(Next(d, step), id);
      assert ActiveFor(v'.cached, agent);
      Projection(d, step, id);
      if About(step, id) {
        ViewNotActivated(v, id, step, Admitted(d, step), agent);
      }
      assert ActiveFor(v.cached, agent);
    }
  }

  /** Every restart up to `n` finds no more active rows of the agent than the maximum. */
  ghost predicate RestartsFit(ds: seq<State>, steps: seq<Step>, n: nat, agent: Uuid, max: nat)
    requires n <= |steps| && n <= |ds|
  {
    forall k {:trigger steps[k]} :: 0 <= k < n && steps[k].Restart? ==> |ActiveRows(ds[k].rows, agent)| <= max
  }

  lemma {:induction false} CapFromRestarts(ds: seq<State>, steps: seq<Step>, i: nat, agent: Uuid, max: nat)
    requires IsRun(ds, steps) && OnlyCapped(steps, max) && i < |ds| && RestartsFit(ds, steps, i, agent, max)
    ensures |ActiveIds(ds[i].cache, agent)| <= max
  {
    if i == 0 {
      assert ActiveIds(ds[0].cache, agent) == {};
    } else {
      var d, step := ds[i - 1], steps[i - 1];
      if step.Restart? {
        ReloadedActive(d.rows, agent);
      } else {
        CapFromRestarts(ds, steps, i - 1, agent, max);
        RunKeepsInv(ds, steps, i - 1);
        NothingCreating(ds, steps, i - 1, max);
        CapStep(d, step, agent, max);
      }
    }
  }

  /**
   * An agent never has more active sessions than the maximum, in every interleaving and whatever
   * writes fail, if and only if every restart finds no more of its rows active than that.
   */
  lemma CapHoldsIff(ds: seq<State>, steps: seq<Step>, agent: Uuid, max: nat)
    requires IsRun(ds, steps) && OnlyCapped(steps, max)
    ensures (forall i :: 0 <= i < |ds| ==> |ActiveIds(ds[i].cache, agent)| <= max)
            <==> RestartsFit(ds, steps, |steps|, agent, max)
  {
    if RestartsFit(ds, steps, |steps|, agent, max) {
      forall i | 0 <= i < |ds|
        ensures |ActiveIds(ds[i].cache, agent)| <= max
      {
        CapFromRestarts(ds, steps, i, agent, max);
      }
    }
    if forall i :: 0 <= i < |ds| ==> |ActiveIds(ds[i].cache, agent)| <= max {
      forall k | 0 <= k < |steps| && steps[k].Restart?
        ensures |ActiveRows(ds[k].rows, agent)| <= max
      {
        ReloadedActive(ds[k].rows, agent);
        assert ds[k + 1].cache == Reloaded(ds[k].rows);
      }
    }
  }

  // ---------------------------------------------------------------------------
  // What makes a restart find too many
  // ---------------------------------------------------------------------------

  /** Active in its row, but not in the cache. */
  ghost predicate Stale(d: State, agent: Uuid, id: SessionId) {
    id in ActiveRows(d.rows, agent) && id !in ActiveIds(d.cache, agent)
  }

  /** The step's write, if it has one, is made, whatever is reported. */
  predicate Lands(step: Step) {
    (step.Use? || step.Batch? || step.Close? || step.Persist?) ==> step.write.Landed()
  }

  /** An active row of a cached session without a closure under way means an active session. */
  predicate Fresh(v: View) {
    v.row.Some? && v.row.value.status == StoredActive && v.cached.Some? && v.pending.None? ==> v.cached.value.status == Active
  }

  lemma StepFresh(v: View, id: SessionId, step: Step, admitted: bool, clock: int)
    requires Sound(v, clock) && Fresh(v) && Lands(step)
    requires (step.BeginCreate? || step.CreateCapped?) ==> v.born.None?
    requires v.creating.Some? ==> v.creating.value.status == Active
    ensures Fresh(ViewStep(v, id, step, admitted))
  {
  }

  lemma {:induction false} RunFresh(ds: seq<State>, steps: seq<Step>, i: nat, id: SessionId, max: nat)
    requires IsRun(ds, steps) && OnlyCapped(steps, max) && i < |ds|
    requires forall k :: 0 <= k < i ==> Lands(steps[k])
    ensures Fresh(ViewOf(ds[i], id))
  {
    if i > 0 {
      var d, step := ds[i - 1], steps[i - 1];
      RunFresh(ds, steps, i - 1, id, max);
      RunKeepsInv(ds, steps, i - 1);
      NothingCreating(ds, steps, i - 1, max);
      assert Sound(ViewOf(d, id), d.clock);
      Projection(d, step, id);
      if About(step, id) {
        StepFresh(ViewOf(d, id), id, step, Admitted(d, step), d.clock);
      }
    }
  }

  /**
   * When writes land, a row is active beyond the cache only while a closure is under way or after
   * the session was evicted from the cache and its row was not deleted.
   */
  lemma StaleOnlyIf(ds: seq<State>, steps: seq<Step>, i: nat, agent: Uuid, id: SessionId, max: nat)
    requires IsRun(ds, steps) && OnlyCapped(steps, max) && i < |ds|
    requires forall k :: 0 <= k < i ==> Lands(steps[k])
    requires Stale(ds[i], agent, id)
    ensures id in ds[i].pending || id !in ds[i].cache
  {
    RunFresh(ds, steps, i, id, max);
    RunKeepsInv(ds, steps, i);
    assert Sound(ViewOf(ds[i], id), ds[i].clock);
  }

  /** No closure is under way and every active row has its session in the cache. */
  ghost predicate Orderly(d: State, agent: Uuid) {
    d.pending == map[] && ActiveRows(d.rows, agent) <= d.cache.Keys
  }

  lemma OrderlyFits(ds: seq<State>, steps: seq<Step>, k: nat, agent: Uuid, max: nat)
    requires IsRun(ds, steps) && OnlyCapped(steps, max) && k < |ds| && Orderly(ds[k], agent)
    requires forall j :: 0 <= j < k ==> Lands(steps[j])
    ensures ActiveRows(ds[k].rows, agent) <= ActiveIds(ds[k].cache, agent)
  {
    forall id | id in ActiveRows(ds[k].rows, agent)
      ensures id in ActiveIds(ds[k].cache, agent)
    {
      if id !in ActiveIds(ds[k].cache, agent) {
        StaleOnlyIf(ds, steps, k, agent, id, max);
      }
    }
  }

  lemma FitsNext(ds: seq<State>, steps: seq<Step>, n: nat, agent: Uuid, max: nat)
    requires n < |steps| && n < |ds| && RestartsFit(ds, steps, n, agent, max)
    requires steps[n].Restart? ==> |ActiveRows(ds[n].rows, agent)| <= max
    ensures RestartsFit(ds, steps, n + 1, agent, max)
  {
  }

  /** So with writes that land the cap holds if the process restarts only when all is in order. */
  lemma {:induction false} OrderlyRestartsKeepCap(ds: seq<State>, steps: seq<Step>, i: nat, agent: Uuid, max: nat)
    requires IsRun(ds, steps) && OnlyCapped(steps, max) && i < |ds|
    requires forall k {:trigger steps[k]} :: 0 <= k < i ==> Lands(steps[k]) && (steps[k].Restart? ==> Orderly(ds[k], agent))
    ensures |ActiveIds(ds[i].cache, agent)| <= max && RestartsFit(ds, steps, i, agent, max)
  {
    if i == 0 {
      assert ActiveIds(ds[0].cache, agent) == {};
    } else {
      OrderlyRestartsKeepCap(ds, steps, i - 1, agent, max);
      if steps[i - 1].Restart? {
        OrderlyFits(ds, steps, i - 1, agent, max);
        SessionRuns.SubsetSize(ActiveRows(ds[i - 1].rows, agent), ActiveIds(ds[i - 1].cache, agent));
      }
      FitsNext(ds, steps, i - 1, agent, max);
      CapFromRestarts(ds, steps, i, agent, max);
    }
  }

  // ---------------------------------------------------------------------------
  // Runs that break the cap although every write is committed
  // ---------------------------------------------------------------------------

  const AGENT: Uuid := 7

  function Request(limit: int): CreateRequest {
    CreateRequest(AGENT, [], "", [], [], limit, 10, None, 60, Public)
  }

  function Session(id: SessionId, limit: int, at: int): TaskSession {
    NewSession(id, Request(limit), limit, at, at)
  }

  function Creation(id: SessionId, limit: int, at: int): Step {
    CreateCapped(id, Request(limit), 1, at, at, Committed)
  }

  lemma FirstCreated(limit: int, at: int)
    requires at >= 0
    ensures var s := Session(1, limit, at);
            && Enabled(EMPTY, Creation(1, limit, at))
            && Next(EMPTY, Creation(1, limit, at)) ==
               State(map[1 := s], map[1 := DomainToStored(s)], map[], map[], [], map[1 := s], at)
  {
    assert ActiveIds(EMPTY.cache, AGENT) == {};
  }

  /** The second session is admitted as soon as the first is not active in the cache. */
  lemma SecondCreated(d: State, limit: int, at: int)
    requires ActiveIds(d.cache, AGENT) == {} && 2 !in d.born && 2 !in d.rows && d.clock <= at
    ensures var s := Session(2, limit, at);
            && Enabled(d, Creation(2, limit, at))
            && Next(d, Creation(2, limit, at)) ==
               d.(cache := d.cache[2 := s], rows := d.rows[2 := DomainToStored(s)], born := d.born[2 := s], clock := at)
  {
  }

  lemma BothReloaded(rows: Rows, limit: int, at: int, limit': int, at': int)
    requires rows == map[1 := DomainToStored(Session(1, limit, at)), 2 := DomainToStored(Session(2, limit', at'))]
    ensures |ActiveIds(Reloaded(rows), AGENT)| == 2
  {
    ReloadedActive(rows, AGENT);
    assert ActiveRows(rows, AGENT) == {1, 2};
  }

  /** A run goes on with any enabled step. */
  lemma RunOn(ds: seq<State>, steps: seq<Step>, step: Step)
    requires IsRun(ds, steps) && Enabled(ds[|steps|], step)
    ensures IsRun(ds + [Next(ds[|steps|], step)], steps + [step])
  {
    var ds', steps' := ds + [Next(ds[|steps|], step)], steps + [step];
    forall i | 0 <= i < |steps'|
      ensures Enabled(ds'[i], steps'[i]) && ds'[i + 1] == Next(ds'[i], steps'[i])
    {
      if i < |steps| {
        assert steps'[i] == steps[i] && ds'[i] == ds[i] && ds'[i + 1] == ds[i + 1];
      }
    }
  }

  lemma FourSteps(a: Step, b: Step, c: Step, d1: State, d2: State, d3: State) returns (ds: seq<State>, steps: seq<Step>)
    requires Enabled(EMPTY, a) && d1 == Next(EMPTY, a)
    requires Enabled(d1, b) && d2 == Next(d1, b)
    requires Enabled(d2, c) && d3 == Next(d2, c)
    ensures IsRun(ds, steps) && steps == [a] + [b] + [c] + [Restart] && |ds| == 5 && ds[4] == Next(d3, Restart)
  {
    RunOn([EMPTY], [], a);
    assert [] + [a] == [a];
    RunOn([EMPTY] + [d1], [a], b);
    RunOn([EMPTY] + [d1] + [d2], [a] + [b], c);
    ds, steps := [EMPTY] + [d1] + [d2] + [d3], [a] + [b] + [c];
    RunOn(ds, steps, Restart);
    ds, steps := ds + [Next(d3, Restart)], steps + [Restart];
  }

  ghost predicate AllReliable(steps: seq<Step>) {
    forall k :: 0 <= k < |steps| ==> Reliable(steps[k])
  }

  lemma StepsFine(a: Step, b: Step, c: Step, steps: seq<Step>)
    requires steps == [a] + [b] + [c] + [Restart] && Reliable(a) && Reliable(b) && Reliable(c)
    requires a.CreateCapped? && c.CreateCapped? && a.max == c.max == 1 && !b.BeginCreate? && !b.CreateCapped?
    ensures AllReliable(steps) && OnlyCapped(steps, 1)
  {
  }

  /** Whatever takes the only session out of the cache and leaves its row lets a restart break the cap. */
  lemma FreedSlot(limit: int, at: int, step: Step, d: State, limit': int, at': int)
    returns (ds: seq<State>, steps: seq<Step>)
    requires at >= 0 && Enabled(Next(EMPTY, Creation(1, limit, at)), step) && d == Next(Next(EMPTY, Creation(1, limit, at)), step)
    requires ActiveIds(d.cache, AGENT) == {} && d.clock <= at'
    requires d.rows == map[1 := DomainToStored(Session(1, limit, at))] && d.born == map[1 := Session(1, limit, at)]
    ensures IsRun(ds, steps) && steps == [Creation(1, limit, at)] + [step] + [Creation(2, limit', at')] + [Restart]
    ensures |ds| == 5 && |ActiveIds(ds[4].cache, AGENT)| == 2
  {
    FirstCreated(limit, at);
    SecondCreated(d, limit', at');
    var d3 := Next(d, Creation(2, limit', at'));
    BothReloaded(d3.rows, limit, at, limit', at');
    ds, steps := FourSteps(Creation(1, limit, at), step, Creation(2, limit', at'), Next(EMPTY, Creation(1, limit, at)), d, d3);
  }

  lemma MarkedClosed(limit: int)
    ensures var d1, step := Next(EMPTY, Creation(1, limit, 0)), CloseAgent(AGENT);
            var d := Next(d1, step);
            && Enabled(d1, step) && ActiveIds(d.cache, AGENT) == {} && d.clock == 0
            && d.rows == map[1 := DomainToStored(Session(1, limit, 0))] && d.born == map[1 := Session(1, limit, 0)]
  {
    FirstCreated(limit, 0);
  }

  lemma SweptEarly(start: int, swept: int)
    requires 0 <= start == 500 * MILLISECOND && swept == 1600 * MILLISECOND
    ensures var d1, step := Next(EMPTY, Creation(1, SECOND, start)), Cleanup(_ => swept, swept, true);
            var d := Next(d1, step);
            && Enabled(d1, step) && ActiveIds(d.cache, AGENT) == {} && d.clock == swept
            && d.rows == map[1 := DomainToStored(Session(1, SECOND, start))] && d.born == map[1 := Session(1, SECOND, start)]
  {
    FirstCreated(SECOND, start);
    var s := Session(1, SECOND, start);
    assert !RowExpired(DomainToStored(s), swept) && s.IsExpired(swept);
  }

  /** A restart between closing the agent's sessions and writing their closures brings one back. */
  lemma PendingClosureBreaksCap() returns (ds: seq<State>, steps: seq<Step>)
    ensures IsRun(ds, steps) && OnlyCapped(steps, 1) && AllReliable(steps)
    ensures |ds| == 5 && |ActiveIds(ds[4].cache, AGENT)| == 2
  {
    var limit := 3600 * SECOND;
    MarkedClosed(limit);
    var d := Next(Next(EMPTY, Creation(1, limit, 0)), CloseAgent(AGENT));
    ds, steps := FreedSlot(limit, 0, CloseAgent(AGENT), d, limit, 0);
    StepsFine(Creation(1, limit, 0), CloseAgent(AGENT), Creation(2, limit, 0), steps);
  }

  /**
   * So does a restart between evicting an expired session and deleting its row, which storage does
   * up to a second later.
   */
  lemma EvictedRowBreaksCap() returns (ds: seq<State>, steps: seq<Step>)
    ensures IsRun(ds, steps) && OnlyCapped(steps, 1) && AllReliable(steps)
    ensures |ds| == 5 && |ActiveIds(ds[4].cache, AGENT)| == 2
  {
    var start, swept := 500 * MILLISECOND, 1600 * MILLISECOND;
    var sweep := Cleanup(_ => swept, swept, true);
    SweptEarly(start, swept);
    var d := Next(Next(EMPTY, Creation(1, SECOND, start)), sweep);
    ds, steps := FreedSlot(SECOND, start, sweep, d, SECOND, swept);
    StepsFine(Creation(1, SECOND, start), sweep, Creation(2, SECOND, swept), steps);
  }
}
