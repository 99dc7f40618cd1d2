/** The rate limiter over its in-memory counters, and the policy that chooses its numbers. */
module RateLimit {
  import opened Common

  datatype Counter = Counter(count: nat, expiresAt: real)

  type Store = map<string, Counter>

  /** What one call does to the counter of its key: count on in a live window, or open a new one. */
  function Tick(existing: Option<Counter>, now: real, ttl: nat): Counter {
    if existing.None? || existing.value.expiresAt <= now then Counter(1, now + ttl as real)
    else existing.value.(count := existing.value.count + 1)
  }

  function Lookup(store: Store, key: string): Option<Counter> {
    if key in store then Some(store[key]) else None
  }

  /** `int(x)` for a non-negative x. */
  function Truncate(x: real): nat
    requires x >= 0.0
  {
    x.Floor
  }

  function RemainingTtl(existing: Option<Counter>, now: real, ttl: nat): nat {
    if existing.None? || existing.value.expiresAt <= now then ttl
    else if Truncate(existing.value.expiresAt - now) < 1 then 1 else Truncate(existing.value.expiresAt - now)
  }

  class InMemoryCounterBackend {
    var store: Store
    var clockOffsetSeconds: real

    constructor ()
      ensures store == map[] && clockOffsetSeconds == 0.0
    {
      store := map[];
      clockOffsetSeconds := 0.0;
    }

    method AdvanceTime(seconds: real)
      modifies `clockOffsetSeconds
      ensures clockOffsetSeconds == old(clockOffsetSeconds) + seconds
    {
      clockOffsetSeconds := clockOffsetSeconds + seconds;
    }

    method Incr(key: string, ttlSeconds: nat, time: real) returns (count: nat, remaining: nat)
      modifies `store
      ensures var now := time + clockOffsetSeconds;
              && store == old(store)[key := Tick(Lookup(old(store), key), now, ttlSeconds)]
              && count == store[key].count
              && remaining == RemainingTtl(Lookup(old(store), key), now, ttlSeconds)
    {
      var now := time + clockOffsetSeconds;
      if key !in store || store[key].expiresAt <= now {
        store := store[key := Counter(1, now + ttlSeconds as real)];
        return 1, ttlSeconds;
      }
      var counter := store[key];
      count := counter.count + 1;
      store := store[key := Counter(count, counter.expiresAt)];
      remaining := Truncate(counter.expiresAt - now);
      if remaining < 1 {
        remaining := 1;
      }
    }
  }

  /** `meinchat:rate:<category>:<user_id>` */
  function KeyOf(category: string, user: string): string {
    "meinchat:rate:" + category + ":" + user
  }

  datatype Decision = Admitted | Exceeded(category: string, retryAfterSeconds: nat)

  class RateLimiter {
    const backend: InMemoryCounterBackend

    constructor (backend: InMemoryCounterBackend)
      ensures this.backend == backend
    {
      this.backend := backend;
    }

    method Check(category: string, user: string, limit: int, windowSeconds: nat, time: real) returns (d: Decision)
      modifies backend`store
      ensures var key, now := KeyOf(category, user), time + backend.clockOffsetSeconds;
              var before := Lookup(old(backend.store), key);
              && backend.store == old(backend.store)[key := Tick(before, now, windowSeconds)]
              && d == if Tick(before, now, windowSeconds).count <= limit then Admitted
                      else Exceeded(category, RemainingTtl(before, now, windowSeconds))
    {
      var count, remaining := backend.Incr(KeyOf(category, user), windowSeconds, time);
      d := if count > limit then Exceeded(category, remaining) else Admitted;
    }
  }

  // ---- Keys -----------------------------------------------------------------------------------------

  lemma ColonSplits(a: string, b: string, u: string, v: string)
    requires ':' !in a && ':' !in b && a + ":" + u == b + ":" + v
    ensures a == b && u == v
  {
    var s := a + ":" + u;
    FirstColon(a, u);
    FirstColon(b, v);
    assert a == s[..|a|] && b == s[..|b|];
    assert u == s[|a| + 1..] && v == s[|b| + 1..];
  }

  lemma FirstColon(a: string, u: string)
    requires ':' !in a
    ensures ':' in a + ":" + u && FirstIndex(a + ":" + u, ':') == |a|
  {
    var s := a + ":" + u;
    assert s[|a|] == ':';
    assert forall k | 0 <= k < |a| :: s[k] == a[k] && a[k] in a;
    FirstIndexLeast(s, ':', |a|);
  }

  /** Counters are never shared: with colon-free categories, equal keys mean equal category and equal user. */
  lemma KeysAreDistinct(c1: string, u1: string, c2: string, u2: string)
    requires ':' !in c1 && ':' !in c2 && KeyOf(c1, u1) == KeyOf(c2, u2)
    ensures c1 == c2 && u1 == u2
  {
    var p := "meinchat:rate:";
    assert KeyOf(c1, u1) == p + (c1 + ":" + u1) && KeyOf(c2, u2) == p + (c2 + ":" + u2);
    assert c1 + ":" + u1 == KeyOf(c1, u1)[|p|..] == KeyOf(c2, u2)[|p|..] == c2 + ":" + u2;
    ColonSplits(c1, c2, u1, u2);
  }

  // ---- Runs -----------------------------------------------------------------------------------------

  /** One `check`, at clock reading `at`. */
  datatype Call = Call(key: string, limit: int, window: nat, at: real)

  function After(store: Store, call: Call): Store {
    store[call.key := Tick(Lookup(store, call.key), call.at, call.window)]
  }

  predicate Admits(store: Store, call: Call) {
    After(store, call)[call.key].count <= call.limit
  }

  /** Calls as they come in, the clock never going back. */
  predicate Ordered(calls: seq<Call>) {
    forall i, j :: 0 <= i < j < |calls| ==> calls[i].at <= calls[j].at
  }

  /** The admitted calls under `key` with a ceiling of at most `limit` made from `a` up to but not at `b`. */
  function AdmittedIn(store: Store, calls: seq<Call>, key: string, limit: nat, a: real, b: real): nat
    decreases calls
  {
    if calls == [] then 0
    else
      var c := calls[0];
      (if c.key == key && c.limit <= limit && a <= c.at < b && Admits(store, c) then 1 else 0) +
      AdmittedIn(After(store, c), calls[1..], key, limit, a, b)
  }

  /** What is left of the ceiling in the current window. */
  function Left(counter: Counter, limit: nat): nat {
    if counter.count < limit then limit - counter.count else 0
  }

  /** The length of n windows. */
  ghost function Span(n: nat, window: nat): real {
    if n == 0 then 0.0 else Span(n - 1, window) + window as real
  }

  /** n ceilings. */
  ghost function Ceilings(n: nat, limit: nat): nat {
    if n == 0 then 0 else Ceilings(n - 1, limit) + limit
  }

  lemma {:induction false} Products(n: nat, window: nat, limit: nat)
    ensures Span(n, window) == n as real * window as real && Ceilings(n, limit) == n * limit
  {
    if n > 0 {
      Products(n - 1, window, limit);
      assert n as real * window as real == (n - 1) as real * window as real + window as real;
      assert n * limit == (n - 1) * limit + limit;
    }
  }

  /** The bound at any point of a run: what is left of the open window, and a full ceiling for each of the n
      windows that can still open before b. */
  lemma {:induction false} BoundFromHere(store: Store, calls: seq<Call>, key: string, limit: nat, window: nat,
                                         a: real, b: real, n: nat)
    requires Ordered(calls) && window > 0 && key in store
    requires forall i | 0 <= i < |calls| && calls[i].key == key :: calls[i].window >= window
    requires b <= store[key].expiresAt + Span(n, window)
    ensures AdmittedIn(store, calls, key, limit, a, b) <= Left(store[key], limit) + Ceilings(n, limit)
    decreases calls
  {
    if calls != [] {
      var c, rest := calls[0], calls[1..];
      var next := After(store, c);
      if c.key != key {
        BoundFromHere(next, rest, key, limit, window, a, b, n);
      } else if c.at >= b {
        NothingAfter(next, rest, key, limit, a, b, c.at);
      } else if c.at < store[key].expiresAt {
        BoundFromHere(next, rest, key, limit, window, a, b, n);
      } else {
        assert n > 0 && calls[0].window >= window;
        BoundFromHere(next, rest, key, limit, window, a, b, n - 1);
      }
    }
  }

  lemma {:induction false} NothingAfter(store: Store, calls: seq<Call>, key: string, limit: nat, a: real, b: real, t: real)
    requires Ordered(calls) && b <= t && forall i | 0 <= i < |calls| :: t <= calls[i].at
    ensures AdmittedIn(store, calls, key, limit, a, b) == 0
    decreases calls
  {
    if calls != [] {
      NothingAfter(After(store, calls[0]), calls[1..], key, limit, a, b, t);
    }
  }

  /** The ceiling itself: from the call that opens a window, at most `limit` calls made with a ceiling of at
      most `limit` are admitted before the window ends, however other ceilings interleave on the counter. */
  lemma WindowBound(store: Store, calls: seq<Call>, limit: nat, window: nat)
    requires calls != [] && Ordered(calls) && window > 0
    requires calls[0].key in store ==> store[calls[0].key].expiresAt <= calls[0].at
    requires forall i | 0 <= i < |calls| && calls[i].key == calls[0].key :: calls[i].window >= window
    ensures var c := calls[0];
            AdmittedIn(store, calls, c.key, limit, c.at, c.at + c.window as real) <= limit
  {
    var c := calls[0];
    BoundFromHere(After(store, c), calls[1..], c.key, limit, window, c.at, c.at + c.window as real, 0);
  }

  lemma {:induction false} BoundFrom(store: Store, calls: seq<Call>, key: string, limit: nat, window: nat,
                                     a: real, b: real, k: nat)
    requires Ordered(calls) && window > 0 && b <= a + Span(k, window)
    requires forall i | 0 <= i < |calls| && calls[i].key == key :: calls[i].window >= window
    ensures AdmittedIn(store, calls, key, limit, a, b) <= Ceilings(k + 1, limit)
    decreases calls
  {
    if calls != [] {
      var c, rest := calls[0], calls[1..];
      var next := After(store, c);
      if c.key != key || c.at < a {
        BoundFrom(next, rest, key, limit, window, a, b, k);
      } else if c.at >= b {
        NothingAfter(next, rest, key, limit, a, b, c.at);
      } else if key in store && c.at < store[key].expiresAt {
        BoundFromHere(store, calls, key, limit, window, a, b, k);
      } else {
        assert k > 0 && calls[0].window >= window;
        BoundFromHere(next, rest, key, limit, window, a, b, k - 1);
      }
    }
  }

  /** And over any stretch of time: a half-open interval k windows long admits at most k + 1 ceilings, from
      whatever state the counters are in and wherever the interval starts. */
  lemma IntervalBound(store: Store, calls: seq<Call>, key: string, limit: nat, window: nat, a: real, k: nat)
    requires Ordered(calls) && window > 0
    requires forall i | 0 <= i < |calls| && calls[i].key == key :: calls[i].window >= window
    ensures AdmittedIn(store, calls, key, limit, a, a + k as real * window as real) <= (k + 1) * limit
  {
    Products(k, window, limit);
    Products(k + 1, window, limit);
    BoundFrom(store, calls, key, limit, window, a, a + Span(k, window), k);
  }

  // ---- How much a stretch of time really admits ---------------------------------------------------------

  /** n equal calls at one instant. */
  function Burst(key: string, limit: nat, window: nat, at: real, n: nat): seq<Call> {
    seq(n, i => Call(key, limit, window, at))
  }

  /** A full burst at the start of each of the next k windows, the first of which opens at e. */
  function Bursts(key: string, limit: nat, window: nat, e: real, k: nat): seq<Call>
    decreases k
  {
    if k == 0 then []
    else Burst(key, limit, window, e, limit) + Bursts(key, limit, window, e + window as real, k - 1)
  }

  /** A run that starts at a, whose calls on the key open windows of at least the given length. */
  ghost predicate RunFrom(calls: seq<Call>, key: string, window: nat, a: real) {
    && Ordered(calls)
    && (forall i | 0 <= i < |calls| :: a <= calls[i].at)
    && (forall i | 0 <= i < |calls| && calls[i].key == key :: calls[i].window >= window)
  }

  lemma {:induction false} BurstsAreARun(key: string, limit: nat, window: nat, e: real, k: nat)
    ensures RunFrom(Bursts(key, limit, window, e, k), key, window, e)
    decreases k
  {
    if k > 0 {
      var next := e + window as real;
      BurstsAreARun(key, limit, window, next, k - 1);
      assert RunFrom(Bursts(key, limit, window, next, k - 1), key, window, e);
    }
  }

  lemma BurstStarts(key: string, limit: nat, window: nat, at: real, n: nat, rest: seq<Call>)
    requires n > 0
    ensures Burst(key, limit, window, at, n) + rest ==
            [Call(key, limit, window, at)] + (Burst(key, limit, window, at, n - 1) + rest)
  {
  }

  /** A burst into a live window with room for it is admitted in full. */
  lemma {:induction false} BurstIsAdmitted(store: Store, key: string, limit: nat, window: nat, at: real, n: nat,
                                           rest: seq<Call>, a: real, b: real)
    requires key in store && at < store[key].expiresAt && store[key].count + n <= limit && a <= at < b
    ensures AdmittedIn(store, Burst(key, limit, window, at, n) + rest, key, limit, a, b) ==
            n + AdmittedIn(store[key := store[key].(count := store[key].count + n)], rest, key, limit, a, b)
    decreases n
  {
    if n == 0 {
      assert Burst(key, limit, window, at, n) + rest == rest && store[key := store[key]] == store;
    } else {
      var c := Call(key, limit, window, at);
      var next := After(store, c);
      BurstStarts(key, limit, window, at, n, rest);
      BurstIsAdmitted(next, key, limit, window, at, n - 1, rest, a, b);
      assert next[key := next[key].(count := next[key].count + (n - 1))] ==
             store[key := store[key].(count := store[key].count + n)];
    }
  }

  /** So is a full burst that opens its own window. */
  lemma OpeningBurstIsAdmitted(store: Store, key: string, limit: nat, window: nat, at: real, rest: seq<Call>,
                               a: real, b: real)
    requires (key in store ==> store[key].expiresAt <= at) && limit > 0 && window > 0 && a <= at < b
    ensures AdmittedIn(store, Burst(key, limit, window, at, limit) + rest, key, limit, a, b) ==
            limit + AdmittedIn(store[key := Counter(limit, at + window as real)], rest, key, limit, a, b)
  {
    var c := Call(key, limit, window, at);
    var next := After(store, c);
    BurstStarts(key, limit, window, at, limit, rest);
    BurstIsAdmitted(next, key, limit, window, at, limit - 1, rest, a, b);
    assert next[key := Counter(limit, at + window as real)] == store[key := Counter(limit, at + window as real)];
  }

  lemma {:induction false} BurstsAreAdmitted(store: Store, key: string, limit: nat, window: nat, e: real, k: nat,
                                             a: real, b: real)
    requires (key in store ==> store[key].expiresAt <= e) && limit > 0 && window > 0 && a <= e
    requires k > 0 ==> e + Span(k - 1, window) < b
    ensures AdmittedIn(store, Bursts(key, limit, window, e, k), key, limit, a, b) == Ceilings(k, limit)
    decreases k
  {
    if k > 0 {
      var next := e + window as real;
      SpanGrows(k - 1, window);
      OpeningBurstIsAdmitted(store, key, limit, window, e, Bursts(key, limit, window, next, k - 1), a, b);
      BurstsAreAdmitted(store[key := Counter(limit, next)], key, limit, window, next, k - 1, a, b);
    }
  }

  lemma {:induction false} SpanGrows(n: nat, window: nat)
    ensures Span(n, window) >= 0.0
  {
    if n > 0 {
      SpanGrows(n - 1, window);
    }
  }

  /** At a, the key's window is under way, has room left, and ends before another window's length has passed. */
  predicate Straddles(store: Store, key: string, limit: nat, window: nat, a: real) {
    key in store && a < store[key].expiresAt < a + window as real && store[key].count < limit
  }

  lemma FillThenBursts(store: Store, key: string, limit: nat, window: nat, a: real, b: real, k: nat)
    requires key in store && a < store[key].expiresAt && limit > 0 && window > 0 && k > 0
    requires a < b && store[key].expiresAt + Span(k - 1, window) < b
    ensures var n, e := Left(store[key], limit), store[key].expiresAt;
            AdmittedIn(store, Burst(key, limit, window, a, n) + Bursts(key, limit, window, e, k), key, limit, a, b) ==
            n + Ceilings(k, limit)
  {
    var n, e := Left(store[key], limit), store[key].expiresAt;
    var later := Bursts(key, limit, window, e, k);
    if n > 0 {
      BurstIsAdmitted(store, key, limit, window, a, n, later, a, b);
      BurstsAreAdmitted(store[key := store[key].(count := store[key].count + n)], key, limit, window, e, k, a, b);
    } else {
      assert Burst(key, limit, window, a, n) + later == later;
      BurstsAreAdmitted(store, key, limit, window, e, k, a, b);
    }
  }

  lemma FillThenBurstsIsARun(key: string, limit: nat, window: nat, a: real, n: nat, e: real, k: nat)
    requires a <= e
    ensures RunFrom(Burst(key, limit, window, a, n) + Bursts(key, limit, window, e, k), key, window, a)
  {
    BurstsAreARun(key, limit, window, e, k);
    assert RunFrom(Bursts(key, limit, window, e, k), key, window, a);
  }

  /** From a window under way that ends in time, the k window lengths after a can admit what is left and k full
      ceilings. */
  lemma LiveWindowIsReached(store: Store, key: string, limit: nat, window: nat, a: real, k: nat)
    returns (calls: seq<Call>)
    requires key in store && a < store[key].expiresAt < a + window as real && limit > 0 && k > 0
    ensures RunFrom(calls, key, window, a)
    ensures AdmittedIn(store, calls, key, limit, a, a + k as real * window as real) ==
            Left(store[key], limit) + k * limit
  {
    var n, e := Left(store[key], limit), store[key].expiresAt;
    calls := Burst(key, limit, window, a, n) + Bursts(key, limit, window, e, k);
    FillThenBurstsIsARun(key, limit, window, a, n, e, k);
    SpanGrows(k - 1, window);
    FillThenBursts(store, key, limit, window, a, a + Span(k, window), k);
    Products(k, window, limit);
  }

  /** In every other state one window length after a admits at most one ceiling. */
  lemma {:induction false} OneCeilingOtherwise(store: Store, calls: seq<Call>, key: string, limit: nat, window: nat, a: real)
    requires RunFrom(calls, key, window, a) && window > 0 && !Straddles(store, key, limit, window, a)
    ensures AdmittedIn(store, calls, key, limit, a, a + window as real) <= limit
    decreases calls
  {
    var b := a + window as real;
    if key in store && a < store[key].expiresAt {
      var n := if store[key].expiresAt < b then 1 else 0;
      assert Span(0, window) == 0.0 && Span(1, window) == window as real && Ceilings(0, limit) == 0;
      assert Ceilings(1, limit) == limit;
      BoundFromHere(store, calls, key, limit, window, a, b, n);
    } else if calls != [] {
      var c, rest := calls[0], calls[1..];
      if c.key != key {
        OneCeilingOtherwise(After(store, c), rest, key, limit, window, a);
      } else {
        assert calls[0].window >= window;
        BoundFromHere(After(store, c), rest, key, limit, window, a, b, 0);
      }
    }
  }

  /** Nothing that may happen from a on gets more than the ceiling admitted within one window length. */
  ghost predicate OneCeilingFrom(store: Store, key: string, limit: nat, window: nat, a: real) {
    forall calls | RunFrom(calls, key, window, a) :: AdmittedIn(store, calls, key, limit, a, a + window as real) <= limit
  }

  /** The limiter behaves like a sliding window from a on exactly when the counter, as it stands then, does not
      straddle: no window is under way, or it has no room left, or it lasts for the whole length. */
  lemma SlidesExactlyUnlessStraddling(store: Store, key: string, limit: nat, window: nat, a: real)
    requires window > 0
    ensures OneCeilingFrom(store, key, limit, window, a) <==> !Straddles(store, key, limit, window, a)
  {
    if Straddles(store, key, limit, window, a) {
      var calls := LiveWindowIsReached(store, key, limit, window, a, 1);
      assert 1 as real * window as real == window as real && 1 * limit == limit;
    } else {
      forall calls | RunFrom(calls, key, window, a)
        ensures AdmittedIn(store, calls, key, limit, a, a + window as real) <= limit
      {
        OneCeilingOtherwise(store, calls, key, limit, window, a);
      }
    }
  }

  /** A counter read as zero gives the whole of the bound of `IntervalBound`. */
  lemma IntervalBoundIsReached(key: string, limit: nat, window: nat, a: real, k: nat)
    returns (store: Store, calls: seq<Call>)
    requires limit > 0 && window > 0 && k > 0
    ensures RunFrom(calls, key, window, a)
    ensures AdmittedIn(store, calls, key, limit, a, a + k as real * window as real) == (k + 1) * limit
  {
    store := map[key := Counter(0, a + window as real / 2.0)];
    calls := LiveWindowIsReached(store, key, limit, window, a, k);
    assert (k + 1) * limit == limit + k * limit;
  }

  ghost predicate CountersStarted(store: Store) {
    forall key | key in store :: store[key].count >= 1
  }

  /** A counter that `incr` ever wrote has counted the call that opened it, so in a real run the bound is one less. */
  lemma {:induction false} StartedBound(store: Store, calls: seq<Call>, key: string, limit: nat, window: nat,
                                        a: real, b: real, k: nat)
    requires Ordered(calls) && window > 0 && limit > 0 && k > 0 && b <= a + Span(k, window) && CountersStarted(store)
    requires forall i | 0 <= i < |calls| && calls[i].key == key :: calls[i].window >= window
    ensures AdmittedIn(store, calls, key, limit, a, b) <= Ceilings(k + 1, limit) - 1
    decreases calls
  {
    if calls != [] {
      var c, rest := calls[0], calls[1..];
      var next := After(store, c);
      if c.key != key || c.at < a {
        StartedBound(next, rest, key, limit, window, a, b, k);
      } else if c.at >= b {
        NothingAfter(next, rest, key, limit, a, b, c.at);
      } else if key in store && c.at < store[key].expiresAt {
        BoundFromHere(store, calls, key, limit, window, a, b, k);
      } else {
        assert calls[0].window >= window;
        BoundFromHere(next, rest, key, limit, window, a, b, k - 1);
      }
    }
  }

  /** From a limiter that has seen no call, k window lengths admit at most (k + 1) ceilings less one. */
  lemma RealRunBound(calls: seq<Call>, key: string, limit: nat, window: nat, a: real, k: nat)
    requires Ordered(calls) && window > 0 && limit > 0 && k > 0
    requires forall i | 0 <= i < |calls| && calls[i].key == key :: calls[i].window >= window
    ensures AdmittedIn(map[], calls, key, limit, a, a + k as real * window as real) <= (k + 1) * limit - 1
  {
    Products(k, window, limit);
    Products(k + 1, window, limit);
    StartedBound(map[], calls, key, limit, window, a, a + Span(k, window), k);
  }

  /** And that is reached: one call half a window earlier, what is left at a, and a full burst in each later window. */
  lemma RealRunBoundIsReached(key: string, limit: nat, window: nat, a: real, k: nat) returns (calls: seq<Call>)
    requires limit > 0 && window > 0 && k > 0
    ensures RunFrom(calls, key, window, a - window as real / 2.0)
    ensures AdmittedIn(map[], calls, key, limit, a, a + k as real * window as real) == (k + 1) * limit - 1
  {
    var early := Call(key, limit, window, a - window as real / 2.0);
    var rest := LiveWindowIsReached(After(map[], early), key, limit, window, a, k);
    calls := [early] + rest;
    assert calls[1..] == rest;
    assert (k + 1) * limit == limit + k * limit;
  }

  // ---- Exactly which calls are admitted ---------------------------------------------------------------

  function RunCalls(store: Store, calls: seq<Call>): Store {
    if calls == [] then store else After(RunCalls(store, calls[..|calls| - 1]), calls[|calls| - 1])
  }

  function CallsOn(calls: seq<Call>, key: string): nat {
    if calls == [] then 0
    else CallsOn(calls[..|calls| - 1], key) + if calls[|calls| - 1].key == key then 1 else 0
  }

  /** While a window lasts, the counter is the number of calls on its key, admitted or not. */
  lemma {:induction false} WindowCounts(store: Store, calls: seq<Call>, key: string)
    requires key in store && forall i | 0 <= i < |calls| :: calls[i].at < store[key].expiresAt
    ensures key in RunCalls(store, calls)
    ensures RunCalls(store, calls)[key] == store[key].(count := store[key].count + CallsOn(calls, key))
  {
    if calls != [] {
      WindowCounts(store, calls[..|calls| - 1], key);
    }
  }

  /** A call is admitted exactly when it is among the first `limit` calls of its window; in particular the call
      that opens a window is admitted whenever its ceiling is positive. */
  lemma AdmittedIffAmongFirst(store: Store, first: Call, between: seq<Call>, call: Call)
    requires first.key in store ==> store[first.key].expiresAt <= first.at
    requires call.key == first.key && call.at < first.at + first.window as real
    requires forall i | 0 <= i < |between| :: between[i].at < first.at + first.window as real
    ensures Admits(store, first) <==> first.limit >= 1
    ensures Admits(RunCalls(After(store, first), between), call) <==> CallsOn(between, call.key) + 2 <= call.limit
  {
    WindowCounts(After(store, first), between, call.key);
  }

  lemma {:induction false} OtherKeysKeepCounter(store: Store, calls: seq<Call>, key: string)
    requires key in store && forall i | 0 <= i < |calls| :: calls[i].key != key
    ensures key in RunCalls(store, calls) && RunCalls(store, calls)[key] == store[key]
  {
    if calls != [] {
      OtherKeysKeepCounter(store, calls[..|calls| - 1], key);
    }
  }

  /** What is advertised to a refused caller: the whole window when the call opened it, and otherwise the remaining
      time without its fraction, but a second at least. */
  lemma AdvertisedSeconds(store: Store, call: Call)
    ensures var r := RemainingTtl(Lookup(store, call.key), call.at, call.window);
            if call.key in store && store[call.key].expiresAt > call.at then
              var left := store[call.key].expiresAt - call.at;
              if left < 1.0 then r == 1 else r as real <= left < r as real + 1.0
            else r == call.window
  {
  }

  /** The refused call made again after exactly the advertised seconds. */
  function Retry(store: Store, refused: Call): Call {
    refused.(at := refused.at + RemainingTtl(Lookup(store, refused.key), refused.at, refused.window) as real)
  }

  /** A refused caller who waits out the advertised seconds, nobody else using the key, is admitted exactly when the
      window's remaining time was a whole number of seconds or under one second: the advertised value is truncated,
      not rounded up. Admitted or not, this is also exactly when the retry opens a new window. */
  lemma RetryAdvice(store: Store, refused: Call, others: seq<Call>)
    requires !Admits(store, refused) && refused.limit >= 1
    requires forall i | 0 <= i < |others| :: others[i].key != refused.key
    ensures refused.key in store && store[refused.key].expiresAt > refused.at
    ensures var meanwhile, retry := RunCalls(After(store, refused), others), Retry(store, refused);
            var left := store[refused.key].expiresAt - refused.at;
            && (Admits(meanwhile, retry) <==> left < 1.0 || left == Truncate(left) as real)
            && (Admits(meanwhile, retry) <==> After(meanwhile, retry)[retry.key].count == 1)
  {
    var next := After(store, refused);
    OtherKeysKeepCounter(next, others, refused.key);
  }

  /** A second and a half before the end of the window the advice is one second, and the retry is refused again. */
  lemma RetryCanBeTooEarly()
    ensures var store, refused := map["k" := Counter(1, 1.5)], Call("k", 1, 60, 0.0);
            && !Admits(store, refused) && RemainingTtl(Lookup(store, "k"), 0.0, 60) == 1
            && !Admits(After(store, refused), Retry(store, refused))
  {
    RetryAdvice(map["k" := Counter(1, 1.5)], Call("k", 1, 60, 0.0), []);
  }

  // ---- The policy -------------------------------------------------------------------------------------

  /** A configuration value; Python counts a boolean as the integer 0 or 1. */
  datatype Value = IntVal(n: int) | BoolVal(b: bool) | OtherVal

  type Config = map<string, Value>

  function AsInt(v: Value): Option<int> {
    match v
    case IntVal(n) => Some(n)
    case BoolVal(b) => Some(if b then 1 else 0)
    case OtherVal => None
  }

  /** `isinstance(value, int) and value > 0` on a configuration key. */
  function PositiveAt(config: Config, key: string): (r: Option<nat>)
    ensures r.Some? ==> r.value > 0
  {
    if key in config && AsInt(config[key]).Some? && AsInt(config[key]).value > 0
    then Some(AsInt(config[key]).value) else None
  }

  datatype Limits = Limits(perWindow: nat, windowSeconds: nat)

  const CATEGORIES: seq<string> :=
    ["new_conversation", "nickname_search", "message_send", "attachment_send", "widget_guest_start"]

  function Fallback(category: string): Limits {
    if category == "new_conversation" then Limits(10, 3600)
    else if category == "nickname_search" then Limits(30, 60)
    else if category == "message_send" then Limits(30, 60)
    else if category == "attachment_send" then Limits(6, 3600)
    else Limits(5, 3600)
  }

  function ReadPair(config: Config, prefix: string): Option<Limits> {
    match (PositiveAt(config, prefix + "_per_window"), PositiveAt(config, prefix + "_window_seconds"))
    case (Some(n), Some(w)) => Some(Limits(n, w))
    case _ => None
  }

  function Legacy(config: Config, category: string): Option<Limits> {
    if category == "message_send" && PositiveAt(config, "message_rate_per_minute").Some? then
      Some(Limits(PositiveAt(config, "message_rate_per_minute").value, 60))
    else if category == "attachment_send" && PositiveAt(config, "attachment_rate_per_hour").Some? then
      Some(Limits(PositiveAt(config, "attachment_rate_per_hour").value, 3600))
    else None
  }

  /** Override pair, baseline pair, legacy key, built-in default: the first complete and positive one. Whatever
      the configuration holds, a known category gets positive numbers, so its first call is always admitted. */
  function LimitsFor(config: Config, category: string, platform: string, lower: string -> string): (r: Result<Limits, string>)
    ensures r.Ok? <==> category in CATEGORIES
    ensures r.Ok? ==> r.value.perWindow > 0 && r.value.windowSeconds > 0
  {
    if category !in CATEGORIES then Err(category)
    else
      var platformKey := lower(if platform == "" then "web" else platform);
      match ReadPair(config, "rate_" + platformKey + "_" + category)
      case Some(override) => Ok(override)
      case None =>
        match ReadPair(config, "rate_" + category)
        case Some(baseline) => Ok(baseline)
        case None =>
          match Legacy(config, category)
          case Some(legacy) => Ok(legacy)
          case None => Ok(Fallback(category))
  }

  /** The key holds a positive integer, a true boolean counting as one. */
  ghost predicate Holds(config: Config, key: string, n: nat) {
    key in config && n > 0 && (config[key] == IntVal(n) || (config[key] == BoolVal(true) && n == 1))
  }

  ghost predicate HoldsPair(config: Config, prefix: string, n: nat, w: nat) {
    Holds(config, prefix + "_per_window", n) && Holds(config, prefix + "_window_seconds", w)
  }

  ghost predicate NoPair(config: Config, prefix: string) {
    forall n, w :: !HoldsPair(config, prefix, n, w)
  }

  lemma PositiveAtIsExact(config: Config, key: string, n: nat)
    ensures PositiveAt(config, key) == Some(n) <==> Holds(config, key, n)
  {
  }

  lemma PairIsExact(config: Config, prefix: string)
    ensures forall n, w :: ReadPair(config, prefix) == Some(Limits(n, w)) <==> HoldsPair(config, prefix, n, w)
    ensures ReadPair(config, prefix) == None <==> NoPair(config, prefix)
  {
    forall n: nat, w: nat
      ensures ReadPair(config, prefix) == Some(Limits(n, w)) <==> HoldsPair(config, prefix, n, w)
    {
      PositiveAtIsExact(config, prefix + "_per_window", n);
      PositiveAtIsExact(config, prefix + "_window_seconds", w);
    }
  }

  /** Which numbers a category gets: the platform's own pair; without a complete one the general pair; without that the
      old single key, for the two categories that had one; and else the built-in numbers. */
  lemma LimitsForIsExact(config: Config, category: string, platform: string, lower: string -> string, n: nat, w: nat)
    requires category in CATEGORIES
    ensures var limits := LimitsFor(config, category, platform, lower).value;
            var own := "rate_" + lower(if platform == "" then "web" else platform) + "_" + category;
            var general := "rate_" + category;
            && (HoldsPair(config, own, n, w) ==> limits == Limits(n, w))
            && (NoPair(config, own) && HoldsPair(config, general, n, w) ==> limits == Limits(n, w))
            && (NoPair(config, own) && NoPair(config, general) ==>
                  match category
                  case "new_conversation" => limits == Limits(10, 3600)
                  case "nickname_search" => limits == Limits(30, 60)
                  case "message_send" =>
                    && (Holds(config, "message_rate_per_minute", n) ==> limits == Limits(n, 60))
                    && ((forall m :: !Holds(config, "message_rate_per_minute", m)) ==> limits == Limits(30, 60))
                  case "attachment_send" =>
                    && (Holds(config, "attachment_rate_per_hour", n) ==> limits == Limits(n, 3600))
                    && ((forall m :: !Holds(config, "attachment_rate_per_hour", m)) ==> limits == Limits(6, 3600))
                  case _ => limits == Limits(5, 3600))
  {
    PairIsExact(config, "rate_" + lower(if platform == "" then "web" else platform) + "_" + category);
    PairIsExact(config, "rate_" + category);
    forall m: nat
      ensures PositiveAt(config, "message_rate_per_minute") == Some(m) <==> Holds(config, "message_rate_per_minute", m)
      ensures PositiveAt(config, "attachment_rate_per_hour") == Some(m) <==> Holds(config, "attachment_rate_per_hour", m)
    {
      PositiveAtIsExact(config, "message_rate_per_minute", m);
      PositiveAtIsExact(config, "attachment_rate_per_hour", m);
    }
  }

  /** Under the policy no one is locked out: in any state of the counters, the call that opens a window passes. */
  lemma FirstCallIsAdmitted(config: Config, category: string, platform: string, lower: string -> string, store: Store,
                            user: string, at: real)
    requires category in CATEGORIES
    ensures var limits := LimitsFor(config, category, platform, lower).value;
            var call := Call(KeyOf(category, user), limits.perWindow, limits.windowSeconds, at);
            call.key !in store || store[call.key].expiresAt <= at ==> Admits(store, call)
  {
    var limits := LimitsFor(config, category, platform, lower).value;
    var call := Call(KeyOf(category, user), limits.perWindow, limits.windowSeconds, at);
    if call.key !in store || store[call.key].expiresAt <= at {
      AdmittedIffAmongFirst(store, call, [], call);
    }
  }
}
