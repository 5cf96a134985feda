/**
 * The per-caller sliding-window rate limiter of the chat server (server.js,
 * lines 54-77). Every request passes through it except those an earlier
 * middleware answers itself: OPTIONS preflights (the CORS middleware), static
 * assets, and bodies the JSON parser refuses.
 *
 * The process-wide table maps a caller id (the request's source address) to the
 * millisecond timestamps of that caller's admitted requests. Each request prunes
 * the caller's timestamps to the trailing window, rejects when the pruned count
 * has reached the limit, and otherwise records the current time.
 */
module RateLimit {

  /** Requests admitted per caller within one window. */
  const RATE_LIMIT: nat := 50
  /** Length of the trailing window, in milliseconds (one hour). */
  const RATE_WINDOW: int := 3600000

  /** The caller-id to timestamps table. */
  type Table = map<string, seq<int>>

  /** What one admission check decides, and the table it leaves behind. */
  datatype StepResult = StepResult(admitted: bool, table: Table)

  /** The caller's stored timestamps; a caller without an entry has none. */
  function Stored(table: Table, id: string): seq<int>
  {
    if id in table then table[id] else []
  }

  /**
   * The timestamps still inside the window at `now`: those `t` with
   * `now - t < window`, in their original order.
   */
  function Recent(ts: seq<int>, now: int, window: int): (r: seq<int>)
    ensures |r| <= |ts|
    ensures forall t :: t in r <==> t in ts && now - t < window
  {
    if ts == [] then []
    else if now - ts[0] < window then [ts[0]] + Recent(ts[1..], now, window)
    else Recent(ts[1..], now, window)
  }

  /** Positions of `ts` whose timestamp is still inside the window at `now`. */
  ghost function WithinIndices(ts: seq<int>, now: int, window: int): set<int>
  {
    set i | 0 <= i < |ts| && now - ts[i] < window
  }

  /** How many of the stored timestamps are still inside the window at `now`. */
  ghost function CountWithin(ts: seq<int>, now: int, window: int): nat
  {
    |WithinIndices(ts, now, window)|
  }

  ghost predicate Sorted(s: seq<int>)
  {
    forall i, j | 0 <= i < j < |s| :: s[i] <= s[j]
  }

  /** Every stored sequence is in non-decreasing order and none lies after `clock`. */
  ghost predicate Ordered(table: Table, clock: int)
  {
    forall k | k in table :: Sorted(table[k]) && forall t | t in table[k] :: t <= clock
  }

  /** No caller has more than `limit` stored timestamps. */
  ghost predicate WithinLimit(table: Table, limit: nat)
  {
    forall k | k in table :: |table[k]| <= limit
  }

  /** All timestamps of `s` lie pairwise closer together than `window`. */
  ghost predicate WithinOneWindow(s: seq<int>, window: int)
  {
    forall i, j | 0 <= i < |s| && 0 <= j < |s| :: s[j] - s[i] < window
  }

  /**
   * One admission check for caller `id` at time `now` (the body of the
   * middleware): admitted exactly when fewer than `limit` of the caller's
   * stored timestamps lie inside the window; a rejection leaves the table as it
   * was, an admission replaces the caller's entry by its pruned timestamps
   * followed by `now`, and no other caller's entry changes.
   */
  function Step(table: Table, id: string, now: int, limit: nat, window: int): (r: StepResult)
    ensures r.admitted <==> CountWithin(Stored(table, id), now, window) < limit
    ensures !r.admitted ==> r.table == table
    ensures r.admitted ==> id in r.table && r.table[id] == Recent(Stored(table, id), now, window) + [now]
    ensures r.admitted ==> |r.table[id]| <= limit
    ensures r.table.Keys == if r.admitted then table.Keys + {id} else table.Keys
    ensures forall k | k in table && k != id :: r.table[k] == table[k]
  {
    var kept := Recent(Stored(table, id), now, window);
    RecentLength(Stored(table, id), now, window);
    if |kept| >= limit then StepResult(false, table)
    else StepResult(true, table[id := kept + [now]])
  }

  /** The decisions of a series of checks for one caller, and the final table. */
  datatype Trace = Trace(decisions: seq<bool>, table: Table)

  /** Runs the admission check for caller `id` at each of `times`, in order. */
  function Replay(table: Table, id: string, times: seq<int>, limit: nat, window: int): (r: Trace)
    ensures |r.decisions| == |times|
    decreases |times|
  {
    if times == [] then Trace([], table)
    else
      var s := Step(table, id, times[0], limit, window);
      var rest := Replay(s.table, id, times[1..], limit, window);
      Trace([s.admitted] + rest.decisions, rest.table)
  }

  /** The pruning of a concatenation is the concatenation of the prunings. */
  lemma {:induction false} RecentAppend(a: seq<int>, b: seq<int>, now: int, window: int)
    ensures Recent(a + b, now, window) == Recent(a, now, window) + Recent(b, now, window)
  {
    if a == [] {
      assert a + b == b;
    } else {
      assert (a + b)[0] == a[0];
      assert (a + b)[1..] == a[1..] + b;
      RecentAppend(a[1..], b, now, window);
    }
  }

  /** Each timestamp is kept as often as it occurs when inside the window, and dropped otherwise. */
  lemma {:induction false} RecentMultiplicity(ts: seq<int>, now: int, window: int, t: int)
    ensures multiset(Recent(ts, now, window))[t] == if now - t < window then multiset(ts)[t] else 0
  {
    if ts != [] {
      assert ts == [ts[0]] + ts[1..];
      assert multiset(ts) == multiset([ts[0]]) + multiset(ts[1..]);
      RecentMultiplicity(ts[1..], now, window, t);
    }
  }

  /** The pruned length counts exactly the stored timestamps inside the window. */
  lemma {:induction false} RecentLength(ts: seq<int>, now: int, window: int)
    ensures |Recent(ts, now, window)| == CountWithin(ts, now, window)
    decreases |ts|
  {
    if ts == [] {
      assert WithinIndices(ts, now, window) == {};
    } else {
      var n := |ts| - 1;
      var init, last := ts[..n], ts[n];
      assert ts == init + [last];
      RecentAppend(init, [last], now, window);
      RecentLength(init, now, window);
      assert [last][1..] == [];
      var before := WithinIndices(init, now, window);
      if now - last < window {
        assert WithinIndices(ts, now, window) == before + {n};
        assert n !in before;
      } else {
        assert WithinIndices(ts, now, window) == before;
      }
    }
  }

  /** When every timestamp is inside the window, pruning keeps them all. */
  lemma {:induction false} RecentKeepsAll(ts: seq<int>, now: int, window: int)
    requires forall t | t in ts :: now - t < window
    ensures Recent(ts, now, window) == ts
  {
    if ts != [] {
      assert forall t | t in ts[1..] :: t in ts;
      RecentKeepsAll(ts[1..], now, window);
      assert ts[0] in ts;
      assert ts == [ts[0]] + ts[1..];
    }
  }

  /** A stored timestamp that has left the window makes the pruned sequence strictly shorter. */
  lemma {:induction false} RecentDropsExpired(ts: seq<int>, now: int, window: int, t: int)
    requires t in ts && now - t >= window
    ensures |Recent(ts, now, window)| < |ts|
  {
    if ts[0] != t {
      RecentDropsExpired(ts[1..], now, window, t);
    }
  }

  /**
   * Pruning lazily is harmless: what an earlier pruning removed, a later one
   * would have removed too.
   */
  lemma {:induction false} RecentLater(ts: seq<int>, now: int, later: int, window: int)
    requires now <= later
    ensures Recent(Recent(ts, now, window), later, window) == Recent(ts, later, window)
  {
    if ts != [] {
      RecentLater(ts[1..], now, later, window);
    }
  }

  /** Pruning keeps a non-decreasing sequence non-decreasing. */
  lemma {:induction false} RecentSorted(ts: seq<int>, now: int, window: int)
    requires Sorted(ts)
    ensures Sorted(Recent(ts, now, window))
  {
    if ts != [] {
      RecentSorted(ts[1..], now, window);
      var rest := Recent(ts[1..], now, window);
      forall t | t in rest ensures ts[0] <= t {
        var j :| 0 <= j < |ts[1..]| && ts[1..][j] == t;
        assert ts[j + 1] == t;
      }
      if now - ts[0] < window {
        var r := [ts[0]] + rest;
        forall i, j | 0 <= i < j < |r| ensures r[i] <= r[j] {
          if i == 0 {
            assert r[j] == rest[j - 1] && r[j] in rest;
          } else {
            assert r[i] == rest[i - 1] && r[j] == rest[j - 1];
          }
        }
      }
    }
  }

  /** A caller with no entry is admitted, and its entry becomes `[now]`. */
  lemma FirstRequestAdmitted(table: Table, id: string, now: int, limit: nat, window: int)
    requires id !in table && limit > 0
    ensures Step(table, id, now, limit, window).admitted
    ensures Step(table, id, now, limit, window).table[id] == [now]
  {
  }

  /** With the server's constants, a caller's first request is admitted. */
  lemma FirstServerRequestAdmitted(table: Table, id: string, now: int)
    requires id !in table
    ensures Step(table, id, now, RATE_LIMIT, RATE_WINDOW).admitted
  {
    FirstRequestAdmitted(table, id, now, RATE_LIMIT, RATE_WINDOW);
  }

  /**
   * After an admission the caller holds at most `limit` timestamps, all of them
   * inside the window at `now`.
   */
  lemma AdmittedWithinWindow(table: Table, id: string, now: int, limit: nat, window: int)
    requires window > 0
    requires Step(table, id, now, limit, window).admitted
    ensures var s := Step(table, id, now, limit, window).table[id];
      |s| <= limit && forall t | t in s :: now - t < window
  {
  }

  /**
   * A rejected caller holds nothing stale: within the limit, a rejection means
   * every stored timestamp is still inside the window, so the entry it leaves
   * unchanged satisfies the window invariant at `now` too.
   */
  lemma RejectedHoldsOnlyRecent(table: Table, id: string, now: int, limit: nat, window: int)
    requires WithinLimit(table, limit)
    requires !Step(table, id, now, limit, window).admitted
    ensures forall t | t in Stored(table, id) :: now - t < window
  {
    var stored := Stored(table, id);
    RecentLength(stored, now, window);
    forall t | t in stored ensures now - t < window {
      if now - t >= window {
        RecentDropsExpired(stored, now, window, t);
      }
    }
  }

  /** Every check keeps each caller's timestamps within the limit. */
  lemma StepKeepsWithinLimit(table: Table, id: string, now: int, limit: nat, window: int)
    requires WithinLimit(table, limit)
    ensures WithinLimit(Step(table, id, now, limit, window).table, limit)
  {
  }

  /** When `now` never decreases, every stored sequence stays in non-decreasing order. */
  lemma StepKeepsOrdered(table: Table, id: string, clock: int, now: int, limit: nat, window: int)
    requires Ordered(table, clock) && clock <= now
    ensures Ordered(Step(table, id, now, limit, window).table, now)
  {
    var r := Step(table, id, now, limit, window);
    if r.admitted {
      var kept := Recent(Stored(table, id), now, window);
      RecentSorted(Stored(table, id), now, window);
      var s := kept + [now];
      forall i, j | 0 <= i < j < |s| ensures s[i] <= s[j] {
        if j == |s| - 1 {
          assert s[i] in Stored(table, id);
        }
      }
    }
  }

  /** A check for one caller does not change the decision for another caller. */
  lemma StepIndependent(table: Table, a: string, b: string, na: int, nb: int, limit: nat, window: int)
    requires a != b
    ensures Step(Step(table, a, na, limit, window).table, b, nb, limit, window).admitted
         == Step(table, b, nb, limit, window).admitted
  {
    assert Stored(Step(table, a, na, limit, window).table, b) == Stored(table, b);
  }

  /** A series of checks for one caller leaves every other caller's entry as it was. */
  lemma {:induction false} ReplayOthersUnchanged(table: Table, id: string, times: seq<int>, limit: nat, window: int, other: string)
    requires other != id
    ensures var t := Replay(table, id, times, limit, window).table;
      (other in t <==> other in table) && (other in table ==> t[other] == table[other])
    decreases |times|
  {
    if times != [] {
      var s := Step(table, id, times[0], limit, window);
      ReplayOthersUnchanged(s.table, id, times[1..], limit, window, other);
    }
  }

  /**
   * Checks made within one window are all admitted while the caller's stored
   * timestamps plus the new ones do not exceed the limit, and the caller's
   * entry then holds them all, in order.
   */
  lemma {:induction false} BurstAdmitted(table: Table, id: string, times: seq<int>, limit: nat, window: int)
    requires WithinOneWindow(Stored(table, id) + times, window)
    requires |Stored(table, id)| + |times| <= limit
    ensures var r := Replay(table, id, times, limit, window);
      (forall i | 0 <= i < |times| :: r.decisions[i]) && Stored(r.table, id) == Stored(table, id) + times
    decreases |times|
  {
    var stored := Stored(table, id);
    if times == [] {
      assert stored + times == stored;
    } else {
      var now := times[0];
      var all := stored + times;
      forall t | t in stored ensures now - t < window {
        var i :| 0 <= i < |stored| && stored[i] == t;
        assert all[i] == t && all[|stored|] == now;
      }
      RecentKeepsAll(stored, now, window);
      RecentLength(stored, now, window);
      var s := Step(table, id, now, limit, window);
      assert s.admitted;
      assert Stored(s.table, id) == stored + [now];
      assert Stored(s.table, id) + times[1..] == all;
      BurstAdmitted(s.table, id, times[1..], limit, window);
      var rest := Replay(s.table, id, times[1..], limit, window);
      forall i | 0 <= i < |times| ensures Replay(table, id, times, limit, window).decisions[i] {
        if i > 0 {
          assert Replay(table, id, times, limit, window).decisions[i] == rest.decisions[i - 1];
        }
      }
    }
  }

  /**
   * Once the caller holds `limit` timestamps, a further check made before any
   * of them leaves the window is rejected.
   */
  lemma NextRejected(table: Table, id: string, now: int, limit: nat, window: int)
    requires |Stored(table, id)| >= limit
    requires forall t | t in Stored(table, id) :: now - t < window
    ensures !Step(table, id, now, limit, window).admitted
  {
    RecentKeepsAll(Stored(table, id), now, window);
    RecentLength(Stored(table, id), now, window);
  }

  /**
   * A caller that holds at most `limit` timestamps is admitted again as soon as
   * one of them has left the window, even after being rejected.
   */
  lemma AdmittedAfterExpiry(table: Table, id: string, now: int, limit: nat, window: int, t: int)
    requires |Stored(table, id)| <= limit
    requires t in Stored(table, id) && now - t >= window
    ensures Step(table, id, now, limit, window).admitted
  {
    RecentDropsExpired(Stored(table, id), now, window, t);
    RecentLength(Stored(table, id), now, window);
  }

  /**
   * With a limit of 2 and a 1000 ms window, caller "x" is admitted at 0 and 100,
   * rejected at 200, and admitted at 1001, when the timestamp 0 has expired.
   */
  lemma SmallScenario()
    ensures Replay(map[], "x", [0, 100, 200, 1001], 2, 1000)
         == Trace([true, true, false, true], map["x" := [100, 1001]])
  {
    var m1, m2, m4 := map["x" := [0]], map["x" := [0, 100]], map["x" := [100, 1001]];
    assert Recent([], 0, 1000) == [];
    assert [] + [0] == [0];
    assert Step(map[], "x", 0, 2, 1000) == StepResult(true, m1);
    assert Recent([0], 100, 1000) == [0];
    assert [0] + [100] == [0, 100];
    assert Step(m1, "x", 100, 2, 1000) == StepResult(true, m2);
    assert Recent([0, 100], 200, 1000) == [0, 100];
    assert Step(m2, "x", 200, 2, 1000) == StepResult(false, m2);
    assert Recent([0, 100], 1001, 1000) == [100];
    assert [100] + [1001] == [100, 1001];
    assert Step(m2, "x", 1001, 2, 1000) == StepResult(true, m4);
    ScenarioTail(m2, m4);
    assert [0, 100, 200, 1001][1..] == [100, 200, 1001];
    assert [100, 200, 1001][1..] == [200, 1001];
  }

  lemma ScenarioTail(m2: Table, m4: Table)
    requires Step(m2, "x", 200, 2, 1000) == StepResult(false, m2)
    requires Step(m2, "x", 1001, 2, 1000) == StepResult(true, m4)
    ensures Replay(m2, "x", [200, 1001], 2, 1000) == Trace([false, true], m4)
  {
  }

  /**
   * The process-wide request table of the server, with the limiter's
   * configuration. Each call to Admit is one pass through the middleware and is
   * atomic: the middleware does not suspend between its lookup and its update.
   */
  class Limiter {
    const limit: nat
    const window: int
    var requestCounts: Table

    /** No caller holds more than `limit` timestamps. */
    ghost predicate Valid()
      reads this
    {
      WithinLimit(requestCounts, limit)
    }

    constructor (limit: nat, window: int)
      ensures this.limit == limit && this.window == window
      ensures requestCounts == map[]
      ensures Valid()
    {
      this.limit := limit;
      this.window := window;
      requestCounts := map[];
    }

    /** The limiter the server builds at start-up. */
    constructor Server()
      ensures limit == RATE_LIMIT && window == RATE_WINDOW
      ensures requestCounts == map[]
      ensures Valid()
    {
      limit := RATE_LIMIT;
      window := RATE_WINDOW;
      requestCounts := map[];
    }

    /** One pass of the rate-limiting middleware for caller `id` at time `now`. */
    method Admit(id: string, now: int) returns (admitted: bool)
      requires Valid()
      modifies this
      ensures Valid()
      ensures StepResult(admitted, requestCounts) == Step(old(requestCounts), id, now, limit, window)
      ensures admitted <==> CountWithin(Stored(old(requestCounts), id), now, window) < limit
      ensures !admitted ==> requestCounts == old(requestCounts)
      ensures admitted ==> requestCounts == old(requestCounts)[id := Recent(Stored(old(requestCounts), id), now, window) + [now]]
    {
      var userRequests := if id in requestCounts then requestCounts[id] else [];
      var recentRequests := Recent(userRequests, now, window);
      RecentLength(userRequests, now, window);
      if |recentRequests| >= limit {
        return false;
      }
      recentRequests := recentRequests + [now];
      requestCounts := requestCounts[id := recentRequests];
      admitted := true;
    }
  }
}
