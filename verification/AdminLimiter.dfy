/** The admin API's sliding-window limiter (arbiter-lifecycle/src/state.rs). */
module AdminLimiter {
  /** Timestamps older than the window leave from the front. */
  function Evict(deque: seq<int>, now: int, window: nat): seq<int> {
    if deque != [] && now - deque[0] > window then Evict(deque[1..], now, window) else deque
  }

  function DequeOf(clients: map<string, seq<int>>, client: string): seq<int> {
    if client in clients then clients[client] else []
  }

  predicate Admits(deque: seq<int>, now: int, max: nat, window: nat) {
    |Evict(deque, now, window)| < max
  }

  function AfterCheck(deque: seq<int>, now: int, max: nat, window: nat): seq<int> {
    Evict(deque, now, window) + if Admits(deque, now, max, window) then [now] else []
  }

  class AdminRateLimiter {
    var clients: map<string, seq<int>>
    const maxRequests: nat
    const windowDuration: nat

    constructor (maxRequests: nat, windowDuration: nat)
      ensures clients == map[] && this.maxRequests == maxRequests && this.windowDuration == windowDuration
    {
      this.clients := map[];
      this.maxRequests, this.windowDuration := maxRequests, windowDuration;
    }

    method CheckRateLimit(client: string, now: int) returns (allowed: bool)
      modifies this
      ensures allowed == Admits(DequeOf(old(clients), client), now, maxRequests, windowDuration)
      ensures clients ==
              old(clients)[client := AfterCheck(DequeOf(old(clients), client), now, maxRequests, windowDuration)]
    {
      var window := if client in clients then clients[client] else [];
      ghost var before := window;
      while window != [] && now - window[0] > windowDuration
        invariant Evict(before, now, windowDuration) == Evict(window, now, windowDuration)
        decreases |window|
      {
        window := window[1..];
      }
      assert window + [] == window;
      allowed := |window| < maxRequests;
      if allowed {
        window := window + [now];
      }
      clients := clients[client := window];
    }
  }

  // ---------------------------------------------------------------------------
  // Agreement with a filter over the whole history
  // ---------------------------------------------------------------------------

  datatype Request = Request(client: string, at: int)

  /** The accepted times no older than the window. */
  ghost function Recent(history: seq<int>, now: int, window: nat): seq<int> {
    if history == [] then []
    else if now - history[0] > window then Recent(history[1..], now, window)
    else [history[0]] + Recent(history[1..], now, window)
  }

  /**
   * The reference: a request is accepted when fewer than `max` of the client's accepted requests
   * of the whole history lie in the window.
   */
  ghost function Accepted(rs: seq<Request>, client: string, max: nat, window: nat): seq<int> {
    if rs == [] then []
    else
      var history, r := Accepted(rs[..|rs| - 1], client, max, window), rs[|rs| - 1];
      if r.client == client && |Recent(history, r.at, window)| < max then history + [r.at] else history
  }

  /** The limiter's deques after a run of requests. */
  ghost function Run(rs: seq<Request>, max: nat, window: nat): map<string, seq<int>> {
    if rs == [] then map[]
    else
      var clients, r := Run(rs[..|rs| - 1], max, window), rs[|rs| - 1];
      clients[r.client := AfterCheck(DequeOf(clients, r.client), r.at, max, window)]
  }

  /** Requests come in the order of the clock. */
  ghost predicate InOrder(rs: seq<Request>) {
    forall i, j :: 0 <= i < j < |rs| ==> rs[i].at <= rs[j].at
  }

  ghost predicate Ascending(s: seq<int>, now: int) {
    && (forall i, j :: 0 <= i < j < |s| ==> s[i] <= s[j])
    && (forall i :: 0 <= i < |s| ==> s[i] <= now)
  }

  lemma {:induction false} EvictIsRecent(s: seq<int>, now: int, window: nat)
    requires Ascending(s, now)
    ensures Evict(s, now, window) == Recent(s, now, window)
  {
    if s != [] {
      EvictIsRecent(s[1..], now, window);
      if now - s[0] <= window {
        NothingToEvict(s[1..], now, window);
      }
    }
  }

  lemma {:induction false} NothingToEvict(s: seq<int>, now: int, window: nat)
    requires forall i :: 0 <= i < |s| ==> now - s[i] <= window
    ensures Recent(s, now, window) == s
  {
    if s != [] {
      NothingToEvict(s[1..], now, window);
    }
  }

  /** Looking again later finds what is left of the earlier look. */
  lemma {:induction false} RecentLater(s: seq<int>, now: int, later: int, window: nat)
    requires now <= later
    ensures Recent(Recent(s, now, window), later, window) == Recent(s, later, window)
  {
    if s != [] {
      RecentLater(s[1..], now, later, window);
      if now - s[0] <= window {
        assert Recent(s, now, window)[1..] == Recent(s[1..], now, window);
      }
    }
  }

  lemma {:induction false} RecentAppend(s: seq<int>, t: int, now: int, window: nat)
    ensures Recent(s + [t], now, window) == Recent(s, now, window) + if now - t > window then [] else [t]
  {
    if s == [] {
      assert s + [t] == [t];
      assert Recent([t], now, window) == if now - t > window then Recent([], now, window) else [t] + Recent([], now, window);
    } else {
      assert (s + [t])[1..] == s[1..] + [t];
      RecentAppend(s[1..], t, now, window);
    }
  }

  lemma {:induction false} RecentAscending(s: seq<int>, now: int, window: nat)
    requires Ascending(s, now)
    ensures Ascending(Recent(s, now, window), now)
    ensures forall x :: x in Recent(s, now, window) ==> x in s
  {
    if s != [] {
      var rest := Recent(s[1..], now, window);
      RecentAscending(s[1..], now, window);
      forall x | x in rest
        ensures x in s && s[0] <= x
      {
        assert x in s[1..];
      }
    }
  }

  lemma {:induction false} AcceptedAscending(rs: seq<Request>, client: string, max: nat, window: nat, now: int)
    requires InOrder(rs) && (rs != [] ==> rs[|rs| - 1].at <= now)
    ensures Ascending(Accepted(rs, client, max, window), now)
  {
    if rs != [] {
      var r := rs[|rs| - 1];
      AcceptedAscending(rs[..|rs| - 1], client, max, window, r.at);
    }
  }

  lemma AscendingMore(s: seq<int>, at: int, now: int)
    requires Ascending(s, at) && at <= now
    ensures Ascending(s, now) && Ascending(s + [at], now)
  {
  }

  /** One check keeps the deque, after eviction, equal to the recent part of the history. */
  lemma CheckKeepsRecent(deque: seq<int>, history: seq<int>, at: int, max: nat, window: nat, now: int)
    requires Ascending(history, at) && at <= now && Evict(deque, at, window) == Recent(history, at, window)
    ensures var deque' := AfterCheck(deque, at, max, window);
            var history' := if |Recent(history, at, window)| < max then history + [at] else history;
            Evict(deque', now, window) == Recent(history', now, window) && Ascending(deque', now)
  {
    var recent := Recent(history, at, window);
    RecentAscending(history, at, window);
    RecentLater(history, at, now, window);
    AscendingMore(recent, at, now);
    if |recent| < max {
      RecentAppend(recent, at, now, window);
      RecentAppend(history, at, now, window);
      EvictIsRecent(recent + [at], now, window);
    } else {
      assert recent + [] == recent;
      EvictIsRecent(recent, now, window);
    }
  }

  /**
   * Exactness: after any run and for any client, evicting at a later moment leaves exactly the
   * accepted requests of the whole history that are no older than the window.
   */
  lemma {:induction false} DequeIsRecentHistory(rs: seq<Request>, client: string, max: nat, window: nat, now: int)
    requires InOrder(rs) && (rs != [] ==> rs[|rs| - 1].at <= now)
    ensures Evict(DequeOf(Run(rs, max, window), client), now, window) == Recent(Accepted(rs, client, max, window), now, window)
    ensures Ascending(DequeOf(Run(rs, max, window), client), now)
  {
    if rs != [] {
      var before, r := rs[..|rs| - 1], rs[|rs| - 1];
      if r.client == client {
        DequeIsRecentHistory(before, client, max, window, r.at);
        AcceptedAscending(before, client, max, window, r.at);
        CheckKeepsRecent(DequeOf(Run(before, max, window), client), Accepted(before, client, max, window), r.at, max, window, now);
      } else {
        DequeIsRecentHistory(before, client, max, window, now);
      }
    }
  }

  /** The limiter's answer is the reference's answer, on every run. */
  lemma AnswersFromHistory(rs: seq<Request>, r: Request, max: nat, window: nat)
    requires InOrder(rs + [r])
    ensures InOrder(rs) && (rs != [] ==> rs[|rs| - 1].at <= r.at)
    ensures Admits(DequeOf(Run(rs, max, window), r.client), r.at, max, window) <==>
            |Recent(Accepted(rs, r.client, max, window), r.at, window)| < max
  {
    assert forall i :: 0 <= i < |rs| ==> (rs + [r])[i] == rs[i];
    assert (rs + [r])[|rs|] == r;
    DequeIsRecentHistory(rs, r.client, max, window, r.at);
  }

  /** How many of the times lie in the closed span from `lo` to `hi`. */
  ghost function Within(s: seq<int>, lo: int, hi: int): nat {
    if s == [] then 0 else Within(s[..|s| - 1], lo, hi) + if lo <= s[|s| - 1] <= hi then 1 else 0
  }

  lemma {:induction false} WithinIsRecent(s: seq<int>, lo: int, hi: int, now: int, window: nat)
    requires now - window <= lo
    ensures Within(s, lo, hi) <= |Recent(s, now, window)|
  {
    if s != [] {
      var last := |s| - 1;
      WithinIsRecent(s[..last], lo, hi, now, window);
      RecentAppend(s[..last], s[last], now, window);
      assert s == s[..last] + [s[last]];
    }
  }

  /** No closed span as long as the window holds more than `max` acceptances of a client. */
  lemma {:induction false} SpanBound(rs: seq<Request>, client: string, max: nat, window: nat, lo: int)
    requires InOrder(rs)
    ensures Within(Accepted(rs, client, max, window), lo, lo + window) <= max
  {
    if rs != [] {
      var before, r := rs[..|rs| - 1], rs[|rs| - 1];
      var history := Accepted(before, client, max, window);
      SpanBound(before, client, max, window, lo);
      if Accepted(rs, client, max, window) != history && lo <= r.at <= lo + window {
        WithinIsRecent(history, lo, lo + window, r.at, window);
        assert (history + [r.at])[..|history|] == history;
      } else if Accepted(rs, client, max, window) != history {
        assert (history + [r.at])[..|history|] == history;
      }
    }
  }

  /** A rejection means that exactly `max` acceptances already lie in the last window. */
  lemma RejectionMeansFull(rs: seq<Request>, r: Request, max: nat, window: nat)
    requires InOrder(rs + [r]) && !Admits(DequeOf(Run(rs, max, window), r.client), r.at, max, window)
    ensures Within(Accepted(rs, r.client, max, window), r.at - window, r.at) == max
  {
    var history, lo := Accepted(rs, r.client, max, window), r.at - window;
    AnswersFromHistory(rs, r, max, window);
    AcceptedAscending(rs, r.client, max, window, r.at);
    RecentIsWithin(history, r.at, window);
    SpanBound(rs, r.client, max, window, lo);
    assert lo + window == r.at;
  }

  lemma {:induction false} RecentIsWithin(s: seq<int>, now: int, window: nat)
    requires Ascending(s, now)
    ensures |Recent(s, now, window)| == Within(s, now - window, now)
  {
    if s != [] {
      var last := |s| - 1;
      RecentIsWithin(s[..last], now, window);
      RecentAppend(s[..last], s[last], now, window);
      assert s == s[..last] + [s[last]];
    }
  }
}
