/** The audit sink (arbiter-audit/src/sink.rs): a hash-chained log and a degraded state with hysteresis. */
module AuditSink {
  import opened Common

  /** The fields of an audit entry other than the chain's. */
  type Payload = string

  type Hash = string

  datatype Record = Record(payload: Payload, sequence: Option<nat>, prevHash: Option<Hash>, recordHash: Option<Hash>)

  const GENESIS := "genesis"
  const RECOVERY_THRESHOLD := 3

  /**
   * What becomes of one line: it is in the file and synced, it is in the file but the flush or sync
   * reported an error, or it is not in the file.
   */
  datatype Outcome = Saved | Unsynced | Lost {
    predicate Landed() {
      !Lost?
    }
  }

  /** `hash` stands for serializing a record and hashing it; `hasFile` for a configured log file. */
  datatype Config = Config(hash: Record -> Hash, hashChain: bool, hasFile: bool)

  /** `recorded` are the entries that reached the in-memory statistics. */
  datatype State = State(
    sequence: nat,
    prevHash: Hash,
    writeFailures: nat,
    totalFailures: nat,
    recoverySuccesses: nat,
    file: seq<Record>,
    recorded: seq<Payload>)

  const FRESH := State(0, GENESIS, 0, 0, 0, [], [])

  /** The record of an entry, hashed over everything but its own hash. */
  function Chained(config: Config, payload: Payload, sequence: nat, prevHash: Hash): Record {
    if !config.hashChain then Record(payload, None, None, None)
    else
      var unhashed := Record(payload, Some(sequence), Some(prevHash), None);
      unhashed.(recordHash := Some(config.hash(unhashed)))
  }

  function Healthier(s: State): State {
    if s.writeFailures == 0 then s
    else if s.recoverySuccesses + 1 >= RECOVERY_THRESHOLD then s.(writeFailures := 0, recoverySuccesses := 0)
    else s.(recoverySuccesses := s.recoverySuccesses + 1)
  }

  function Sicker(s: State): State {
    s.(writeFailures := s.writeFailures + 1, totalFailures := s.totalFailures + 1, recoverySuccesses := 0)
  }

  /** One write; only a saved line counts as a success. */
  function Next(config: Config, s: State, payload: Payload, outcome: Outcome): State {
    var record := Chained(config, payload, s.sequence + 1, s.prevHash);
    var chained := if config.hashChain then s.(sequence := s.sequence + 1, prevHash := record.recordHash.value) else s;
    if !config.hasFile then chained.(recorded := s.recorded + [payload])
    else
      var filed := if outcome.Landed() then chained.(file := s.file + [record]) else chained;
      if outcome.Saved? then Healthier(filed).(recorded := s.recorded + [payload]) else Sicker(filed)
  }

  predicate Degraded(s: State) {
    s.writeFailures > 0
  }

  class Sink {
    const config: Config
    var sequence: nat
    var prevHash: Hash
    var writeFailures: nat
    var totalFailures: nat
    var recoverySuccesses: nat
    var file: seq<Record>
    var recorded: seq<Payload>

    function Current(): State
      reads this
    {
      State(sequence, prevHash, writeFailures, totalFailures, recoverySuccesses, file, recorded)
    }

    constructor (config: Config)
      ensures this.config == config && Current() == FRESH
    {
      this.config := config;
      sequence, prevHash, writeFailures, totalFailures, recoverySuccesses := 0, GENESIS, 0, 0, 0;
      file, recorded := [], [];
    }

    /** The chain lock is held from numbering the record to writing its line. */
    method Write(payload: Payload, outcome: Outcome) returns (success: bool)
      modifies this
      ensures Current() == Next(config, old(Current()), payload, outcome)
      ensures success <==> !config.hasFile || outcome.Saved?
    {
      var record := Record(payload, None, None, None);
      if config.hashChain {
        sequence := sequence + 1;
        record := record.(sequence := Some(sequence), prevHash := Some(prevHash));
        var recordHash := config.hash(record);
        record := record.(recordHash := Some(recordHash));
        prevHash := recordHash;
      }
      if config.hasFile {
        if outcome.Landed() {
          file := file + [record];
        }
        if outcome.Saved? {
          if writeFailures > 0 {
            recoverySuccesses := recoverySuccesses + 1;
            if recoverySuccesses >= RECOVERY_THRESHOLD {
              writeFailures := 0;
              recoverySuccesses := 0;
            }
          }
        } else {
          writeFailures := writeFailures + 1;
          totalFailures := totalFailures + 1;
          recoverySuccesses := 0;
          return false;
        }
      }
      recorded := recorded + [payload];
      return true;
    }

    method IsDegraded() returns (r: bool)
      ensures r == Degraded(Current())
    {
      r := writeFailures > 0;
    }
  }

  // ---------------------------------------------------------------------------
  // Runs
  // ---------------------------------------------------------------------------

  datatype Event = Event(payload: Payload, outcome: Outcome) {
    /** The write was reported as a success. */
    predicate Ok() {
      outcome.Saved?
    }
  }

  ghost function Run(config: Config, events: seq<Event>): State {
    if events == [] then FRESH
    else
      var last := events[|events| - 1];
      Next(config, Run(config, events[..|events| - 1]), last.payload, last.outcome)
  }

  predicate Chaining(config: Config) {
    config.hashChain && config.hasFile
  }

  /** The record of every event, written or not. */
  ghost function AllRecords(config: Config, events: seq<Event>): (rs: seq<Record>)
    requires config.hashChain
    ensures |rs| == |events|
    ensures forall i :: 0 <= i < |rs| ==> rs[i].recordHash.Some?
  {
    if events == [] then []
    else
      var before := AllRecords(config, events[..|events| - 1]);
      before + [Chained(config, events[|events| - 1].payload, |events|, LastHash(before))]
  }

  ghost function LastHash(rs: seq<Record>): Hash
    requires rs != [] ==> rs[|rs| - 1].recordHash.Some?
  {
    if rs == [] then GENESIS else rs[|rs| - 1].recordHash.value
  }

  /** The places of the events that satisfy `p`. */
  ghost function Where(events: seq<Event>, p: Event -> bool): (at: seq<nat>)
    ensures forall i :: 0 <= i < |at| ==> at[i] < |events| && p(events[at[i]])
  {
    if events == [] then []
    else
      var before, last := Where(events[..|events| - 1], p), |events| - 1;
      if p(events[last]) then before + [last] else before
  }

  predicate IsOk(e: Event) {
    e.Ok()
  }

  predicate HasLanded(e: Event) {
    e.outcome.Landed()
  }

  /** The places of the events whose line is in the file. */
  ghost function Written(events: seq<Event>): (at: seq<nat>) {
    Where(events, HasLanded)
  }

  /** How many writes were reported as failures. */
  ghost function Failures(events: seq<Event>): nat {
    if events == [] then 0
    else Failures(events[..|events| - 1]) + if events[|events| - 1].Ok() then 0 else 1
  }

  /** How many lines did not reach the file. */
  ghost function Missing(events: seq<Event>): nat {
    if events == [] then 0
    else Missing(events[..|events| - 1]) + if events[|events| - 1].outcome.Landed() then 0 else 1
  }

  /** The places are in order, and none is left out. */
  lemma {:induction false} WhereInOrder(events: seq<Event>, p: Event -> bool)
    ensures var at := Where(events, p);
            && (forall i, j :: 0 <= i < j < |at| ==> at[i] < at[j])
            && (forall k :: 0 <= k < |events| && p(events[k]) ==> k in at)
  {
    if events != [] {
      var before := events[..|events| - 1];
      WhereInOrder(before, p);
      var at := Where(events, p);
      forall k | 0 <= k < |events| && p(events[k])
        ensures k in at
      {
        if k < |before| {
          assert p(before[k]);
          assert k in Where(before, p);
        }
      }
    }
  }

  lemma {:induction false} ChainState(config: Config, events: seq<Event>)
    requires Chaining(config)
    ensures Run(config, events).sequence == |events|
    ensures Run(config, events).prevHash == LastHash(AllRecords(config, events))
  {
    if events != [] {
      ChainState(config, events[..|events| - 1]);
    }
  }

  /** `s` holds the elements of `all` at the places `at`. */
  ghost predicate Picks<T(!new)>(s: seq<T>, all: seq<T>, at: seq<nat>) {
    |s| == |at| && forall i :: 0 <= i < |at| ==> at[i] < |all| && s[i] == all[at[i]]
  }

  lemma PicksMore<T(!new)>(s: seq<T>, all: seq<T>, at: seq<nat>, x: T)
    requires Picks(s, all, at)
    ensures Picks(s, all + [x], at)
    ensures Picks(s + [x], all + [x], at + [|all|])
  {
  }

  ghost function Payloads(events: seq<Event>): seq<Payload> {
    seq(|events|, i requires 0 <= i < |events| => events[i].payload)
  }

  /** The file is the chain of all records with the lost ones left out; the statistics are the reported successes. */
  lemma {:induction false} FileIsChain(config: Config, events: seq<Event>)
    requires Chaining(config)
    ensures Picks(Run(config, events).file, AllRecords(config, events), Written(events))
    ensures Picks(Run(config, events).recorded, Payloads(events), Where(events, IsOk))
  {
    if events != [] {
      var before, last := events[..|events| - 1], events[|events| - 1];
      FileIsChain(config, before);
      ChainState(config, before);
      var s := Run(config, before);
      var record := Chained(config, last.payload, s.sequence + 1, s.prevHash);
      PicksMore(s.file, AllRecords(config, before), Written(before), record);
      PicksMore(s.recorded, Payloads(before), Where(before, IsOk), last.payload);
      assert AllRecords(config, events) == AllRecords(config, before) + [record];
      assert Payloads(events) == Payloads(before) + [last.payload];
    }
  }

  /** Later events do not change earlier records. */
  lemma {:induction false} RecordsPrefix(config: Config, events: seq<Event>, k: nat)
    requires config.hashChain && k <= |events|
    ensures AllRecords(config, events)[..k] == AllRecords(config, events[..k])
    decreases |events|
  {
    if k == |events| {
      assert events[..k] == events;
    } else {
      var before := events[..|events| - 1];
      RecordsPrefix(config, before, k);
      assert before[..k] == events[..k];
    }
  }

  /** A record with its number, the hash before it, and its own hash. */
  predicate Sealed(hash: Record -> Hash, r: Record, sequence: nat, prev: Option<Hash>) {
    r.sequence == Some(sequence) && r.prevHash == prev && r.recordHash == Some(hash(r.(recordHash := None)))
  }

  ghost function HashBefore(log: seq<Record>, i: nat): Option<Hash>
    requires i <= |log|
  {
    if i == 0 then Some(GENESIS) else log[i - 1].recordHash
  }

  /** The record of event `i` carries number `i + 1` and the hash of the record before it. */
  lemma RecordsLink(config: Config, events: seq<Event>, i: nat)
    requires config.hashChain && i < |events|
    ensures var all := AllRecords(config, events);
            all[i].payload == events[i].payload && Sealed(config.hash, all[i], i + 1, HashBefore(all, i))
  {
    var all := AllRecords(config, events);
    RecordsPrefix(config, events, i + 1);
    RecordsPrefix(config, events, i);
    assert events[..i + 1][..i] == events[..i];
    assert all[i] == all[..i + 1][i];
    assert i > 0 ==> all[i - 1] == all[..i][i - 1];
  }

  lemma {:induction false} AllMissing(events: seq<Event>)
    requires forall i :: 0 <= i < |events| ==> !events[i].outcome.Landed()
    ensures Missing(events) == |events|
  {
    if events != [] {
      AllMissing(events[..|events| - 1]);
    }
  }

  /** Line `i` is the record of the `i`-th written event. */
  lemma LineOf(config: Config, events: seq<Event>, i: nat)
    requires Chaining(config) && i < |Run(config, events).file|
    ensures |Written(events)| == |Run(config, events).file|
    ensures var line, k := Run(config, events).file[i], Written(events)[i];
            && k < |events| && line == AllRecords(config, events)[k]
            && line.payload == events[k].payload
            && Sealed(config.hash, line, k + 1, HashBefore(AllRecords(config, events), k))
  {
    FileIsChain(config, events);
    var k := Written(events)[i];
    assert k < |events| && Run(config, events).file[i] == AllRecords(config, events)[k];
    RecordsLink(config, events, k);
  }

  /**
   * The chain on disk, for every pattern of failures: neighbouring lines have increasing numbers,
   * the gap between the numbers is the number of lines lost between the two, and without a gap the
   * second line carries the first one's hash.
   */
  lemma LinesChain(config: Config, events: seq<Event>, i: nat, line: Record, next: Record)
    requires Chaining(config) && i + 1 < |Run(config, events).file|
    requires line == Run(config, events).file[i] && next == Run(config, events).file[i + 1]
    ensures i + 1 < |Written(events)| && Written(events)[i] < Written(events)[i + 1]
    ensures line.sequence == Some(Written(events)[i] + 1) && next.sequence == Some(Written(events)[i + 1] + 1)
    ensures next.sequence.value - line.sequence.value - 1 ==
            Missing(events[Written(events)[i] + 1..Written(events)[i + 1]])
    ensures next.sequence.value == line.sequence.value + 1 ==> next.prevHash == line.recordHash
  {
    LineOf(config, events, i);
    LineOf(config, events, i + 1);
    LostBetween(events, i);
  }

  lemma LostBetween(events: seq<Event>, i: nat)
    requires i + 1 < |Written(events)|
    ensures var at := Written(events);
            at[i] < at[i + 1] && Missing(events[at[i] + 1..at[i + 1]]) == at[i + 1] - at[i] - 1
  {
    WhereInOrder(events, HasLanded);
    var at := Written(events);
    var between := events[at[i] + 1..at[i + 1]];
    forall k | 0 <= k < |between|
      ensures !between[k].outcome.Landed()
    {
      assert at[i] + 1 + k !in at;
    }
    AllMissing(between);
  }

  /** What a top-to-bottom verifier checks of a log without gaps. */
  ghost predicate Verifies(hash: Record -> Hash, log: seq<Record>) {
    forall i :: 0 <= i < |log| ==> LineVerifies(hash, log, i)
  }

  ghost predicate LineVerifies(hash: Record -> Hash, log: seq<Record>, i: nat)
    requires i < |log|
  {
    Sealed(hash, log[i], i + 1, HashBefore(log, i))
  }

  /** A run that loses no line leaves a log that verifies, with exactly its entries, whatever was reported. */
  lemma UnbrokenRunVerifies(config: Config, events: seq<Event>)
    requires Chaining(config) && forall i :: 0 <= i < |events| ==> events[i].outcome.Landed()
    ensures Verifies(config.hash, Run(config, events).file)
    ensures |Run(config, events).file| == |events|
    ensures forall i :: 0 <= i < |events| ==> Run(config, events).file[i].payload == events[i].payload
  {
    FileIsChain(config, events);
    AllWritten(events);
    var all := AllRecords(config, events);
    assert Run(config, events).file == all;
    forall i | 0 <= i < |events|
      ensures all[i].payload == events[i].payload && LineVerifies(config.hash, all, i)
    {
      RecordsLink(config, events, i);
    }
  }

  lemma {:induction false} AllWritten(events: seq<Event>)
    requires forall i :: 0 <= i < |events| ==> events[i].outcome.Landed()
    ensures |Written(events)| == |events| && forall i :: 0 <= i < |events| ==> Written(events)[i] == i
  {
    if events != [] {
      AllWritten(events[..|events| - 1]);
    }
  }

  ghost predicate CollisionFree(hash: Record -> Hash) {
    forall a, b :: hash(a) == hash(b) ==> a == b
  }

  lemma SameRecord(hash: Record -> Hash, x: Record, y: Record, i: nat, j: nat, p: Option<Hash>, q: Option<Hash>)
    requires CollisionFree(hash) && Sealed(hash, x, i, p) && Sealed(hash, y, j, q)
    requires x.recordHash == y.recordHash
    ensures x == y && i == j && p == q
  {
    var x', y' := x.(recordHash := None), y.(recordHash := None);
    assert hash(x') == hash(y');
    assert x' == y';
    assert x == x'.(recordHash := x.recordHash) && y == y'.(recordHash := y.recordHash);
  }

  /** Two records with one hash stand at the same place, with the same records before them. */
  lemma {:induction false} SameUpTo(hash: Record -> Hash, a: seq<Record>, b: seq<Record>, i: nat, j: nat)
    requires CollisionFree(hash) && Verifies(hash, a) && Verifies(hash, b)
    requires i < |a| && j < |b| && a[i].recordHash == b[j].recordHash
    ensures i == j && forall k :: 0 <= k <= i ==> a[k] == b[k]
  {
    assert LineVerifies(hash, a, i) && LineVerifies(hash, b, j);
    SameRecord(hash, a[i], b[j], i + 1, j + 1, HashBefore(a, i), HashBefore(b, j));
    if i > 0 {
      SameUpTo(hash, a, b, i - 1, j - 1);
    }
  }

  /**
   * Under a collision-free hash two logs that verify and end in the same record hash are the same
   * log: no line can be changed, removed or inserted without changing the last hash.
   */
  lemma LastHashFixesLog(hash: Record -> Hash, a: seq<Record>, b: seq<Record>)
    requires CollisionFree(hash) && Verifies(hash, a) && Verifies(hash, b)
    requires a != [] && b != [] && a[|a| - 1].recordHash == b[|b| - 1].recordHash
    ensures a == b
  {
    SameUpTo(hash, a, b, |a| - 1, |b| - 1);
  }

  /**
   * A new sink always starts a chain of its own, so what two sinks wrote to one file verifies as a
   * whole only if one of them wrote nothing.
   */
  lemma RestartBeginsNewChain(hash: Record -> Hash, first: seq<Record>, second: seq<Record>)
    requires Verifies(hash, first) && Verifies(hash, second)
    ensures Verifies(hash, first + second) <==> first == [] || second == []
  {
    if first == [] {
      assert first + second == second;
    } else if second == [] {
      assert first + second == first;
    } else {
      var both, n := first + second, |first|;
      assert LineVerifies(hash, second, 0);
      assert both[n] == second[0] && !LineVerifies(hash, both, n);
    }
  }

  /** A line numbered 1 is linked to the word genesis. */
  lemma FirstLineFromGenesis(config: Config, events: seq<Event>, i: nat)
    requires Chaining(config) && i < |Run(config, events).file| && Run(config, events).file[i].sequence == Some(1)
    ensures Run(config, events).file[i].prevHash == Some("genesis")
  {
    LineOf(config, events, i);
  }

  ghost function PlainRecords(events: seq<Event>): seq<Record> {
    seq(|events|, i requires 0 <= i < |events| => Record(events[i].payload, None, None, None))
  }

  /** Without the hash chain the file holds the entries as they are, again with the lost ones left out. */
  lemma {:induction false} FileIsPlain(config: Config, events: seq<Event>)
    requires config.hasFile && !config.hashChain
    ensures Picks(Run(config, events).file, PlainRecords(events), Written(events))
    ensures Picks(Run(config, events).recorded, Payloads(events), Where(events, IsOk))
  {
    if events != [] {
      var before, last := events[..|events| - 1], events[|events| - 1];
      var s, record := Run(config, before), Record(last.payload, None, None, None);
      FileIsPlain(config, before);
      PicksMore(s.file, PlainRecords(before), Written(before), record);
      PicksMore(s.recorded, Payloads(before), Where(before, IsOk), last.payload);
      assert PlainRecords(events) == PlainRecords(before) + [record];
      assert Payloads(events) == Payloads(before) + [last.payload];
    }
  }

  /** Without a file every entry reaches the statistics, nothing is written and nothing fails. */
  lemma {:induction false} NoFileNoFailure(config: Config, events: seq<Event>)
    requires !config.hasFile
    ensures var s := Run(config, events);
            s.recorded == Payloads(events) && s.file == [] && s.totalFailures == s.writeFailures == 0 && !Degraded(s)
  {
    if events != [] {
      var before, last := events[..|events| - 1], events[|events| - 1];
      NoFileNoFailure(config, before);
      assert Payloads(events) == Payloads(before) + [last.payload];
    }
  }

  // ---------------------------------------------------------------------------
  // Hysteresis
  // ---------------------------------------------------------------------------

  /** The successes since the last failure. */
  ghost function TrailingSuccesses(events: seq<Event>): nat {
    if events == [] || !events[|events| - 1].Ok() then 0 else 1 + TrailingSuccesses(events[..|events| - 1])
  }

  ghost predicate FailedLately(events: seq<Event>) {
    exists i :: 0 <= i < |events| && |events| - 3 <= i && !events[i].Ok()
  }

  /** The last failure, if there is one, lies just before the trailing successes. */
  lemma {:induction false} LastFailure(events: seq<Event>)
    ensures TrailingSuccesses(events) <= |events|
    ensures forall i :: |events| - TrailingSuccesses(events) <= i < |events| ==> events[i].Ok()
    ensures TrailingSuccesses(events) < |events| ==> !events[|events| - TrailingSuccesses(events) - 1].Ok()
  {
    if events != [] && events[|events| - 1].Ok() {
      LastFailure(events[..|events| - 1]);
    }
  }

  lemma LatelyIffTrailing(events: seq<Event>)
    ensures FailedLately(events) <==> TrailingSuccesses(events) < |events| && TrailingSuccesses(events) < RECOVERY_THRESHOLD
  {
    LastFailure(events);
    if TrailingSuccesses(events) < |events| && TrailingSuccesses(events) < RECOVERY_THRESHOLD {
      assert !events[|events| - TrailingSuccesses(events) - 1].Ok();
    }
  }

  /**
   * For every sequence of file writes the sink is degraded exactly when one of the last three (or
   * of all, if fewer) failed; the recovery counter counts the successes since, and the total
   * counts all failures.
   */
  lemma {:induction false} Hysteresis(config: Config, events: seq<Event>)
    requires config.hasFile
    ensures var s := Run(config, events);
            && (Degraded(s) <==> FailedLately(events))
            && s.recoverySuccesses == (if Degraded(s) then TrailingSuccesses(events) else 0)
            && s.totalFailures == Failures(events)
  {
    LatelyIffTrailing(events);
    if events != [] {
      var before := events[..|events| - 1];
      Hysteresis(config, before);
      LatelyIffTrailing(before);
    }
  }

  ghost function TrailingFailures(events: seq<Event>): nat {
    if events == [] || events[|events| - 1].Ok() then 0 else 1 + TrailingFailures(events[..|events| - 1])
  }

  lemma {:induction false} FailureRun(config: Config, events: seq<Event>)
    requires config.hasFile
    ensures TrailingFailures(events) <= |events|
    ensures Run(config, events).writeFailures ==
            (if TrailingFailures(events) == |events| then 0
             else Run(config, events[..|events| - TrailingFailures(events)]).writeFailures) + TrailingFailures(events)
  {
    if events != [] && !events[|events| - 1].Ok() {
      var before := events[..|events| - 1];
      FailureRun(config, before);
      assert before[..|before| - TrailingFailures(before)] == events[..|events| - TrailingFailures(events)];
    } else {
      assert events[..|events|] == events;
    }
  }

  /**
   * The counter called "consecutive failures" is that only if the sink was healthy when the present
   * run of failures began: a success does not reset it.
   */
  lemma ConsecutiveIffHealthyBefore(config: Config, events: seq<Event>)
    requires config.hasFile
    ensures TrailingFailures(events) <= |events|
    ensures Run(config, events).writeFailures == TrailingFailures(events) <==>
            !FailedLately(events[..|events| - TrailingFailures(events)])
  {
    FailureRun(config, events);
    var before := events[..|events| - TrailingFailures(events)];
    Hysteresis(config, before);
  }

  /** Failure, success, failure counts two consecutive failures. */
  lemma SuccessDoesNotReset(config: Config, p: Payload)
    requires config.hasFile
    ensures Run(config, [Event(p, Lost), Event(p, Saved), Event(p, Lost)]).writeFailures == 2
  {
    var three := [Event(p, Lost), Event(p, Saved), Event(p, Lost)];
    var two := three[..2];
    var one := two[..1];
    assert one[..0] == [];
    assert Run(config, one).writeFailures == 1;
    assert Run(config, two).writeFailures == 1;
  }
}
