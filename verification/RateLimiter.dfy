/**
 The in-memory sliding-window rate limiter (common/rate-limit.go): a bounded
 queue of accepted times per key, and a sweep that forgets idle keys.

 The module proves that the bounded, sweepable queue makes the same decisions
 as a limiter that remembers every request it ever accepted, and says exactly
 for which expirations that is so.
 */
module RateLimiter {
  import opened Numbers

  /** The two numbers a caller passes to Request; the duration is in seconds. */
  datatype Limit = Limit(max: nat, duration: int)

  type Store = map<string, seq<int>>

  ghost predicate NonEmptyQueues(store: Store) {
    forall k :: k in store ==> store[k] != []
  }

  /** Whether Request admits a request at time now. */
  predicate Admits(store: Store, key: string, lim: Limit, now: int)
    requires key in store ==> store[key] != []
  {
    key !in store || |store[key]| < lim.max || now - store[key][0] >= lim.duration
  }

  /** The store after Request. */
  function Requested(store: Store, key: string, lim: Limit, now: int): Store
    requires key in store ==> store[key] != []
  {
    if !Admits(store, key, lim, now) then store
    else if key !in store then store[key := [now]]
    else if |store[key]| < lim.max then store[key := store[key] + [now]]
    else store[key := store[key][1..] + [now]]
  }

  predicate Expired(queue: seq<int>, age: nat, now: int) {
    |queue| == 0 || now - queue[|queue| - 1] > age
  }

  /** The store after one sweep. */
  function Swept(store: Store, age: nat, now: int): Store {
    map k | k in store && !Expired(store[k], age, now) :: store[k]
  }

  /** The sweep age in whole seconds, from an expiration in nanoseconds. */
  function Age(expiration: int): nat {
    if expiration <= 0 then 0 else expiration / NANOS_PER_SECOND
  }

  lemma AgeExact(expiration: int, seconds: int)
    requires expiration > 0
    ensures seconds <= Age(expiration) <==> seconds * 1_000_000_000 <= expiration
  {
  }

  class InMemoryRateLimiter {
    var store: Store
    const expirationDuration: int   // nanoseconds

    constructor Init(expirationDuration: int)
      ensures store == map[] && this.expirationDuration == expirationDuration
    {
      this.expirationDuration := expirationDuration;
      store := map[];
    }

    method Request(key: string, maxRequestNum: nat, duration: int, now: int) returns (ok: bool)
      requires NonEmptyQueues(store)
      modifies this
      ensures NonEmptyQueues(store)
      ensures ok == Admits(old(store), key, Limit(maxRequestNum, duration), now)
      ensures store == Requested(old(store), key, Limit(maxRequestNum, duration), now)
    {
      if key in store {
        var queue := store[key];
        if |queue| < maxRequestNum {
          store := store[key := queue + [now]];
          return true;
        } else {
          if now - queue[0] >= duration {
            queue := queue[1..];
            queue := queue + [now];
            store := store[key := queue];
            return true;
          } else {
            return false;
          }
        }
      } else {
        store := store[key := [now]];
      }
      return true;
    }

    /** One round of the background sweep, which is started for a positive
        expiration only. */
    method ClearExpiredItems(now: int)
      requires expirationDuration > 0
      modifies this
      ensures store == Swept(old(store), Age(expirationDuration), now)
      // a key survives exactly when its newest time is no more than the expiration ago
      ensures forall k :: k in store <==>
                && k in old(store) && |old(store)[k]| > 0
                && (now - old(store)[k][|old(store)[k]| - 1]) * 1_000_000_000 <= expirationDuration
      ensures forall k :: k in store ==> store[k] == old(store)[k]
    {
      forall k | k in store && |store[k]| > 0 {
        AgeExact(expirationDuration, now - store[k][|store[k]| - 1]);
      }
      var expirationSeconds := Age(expirationDuration);
      var todo := store.Keys;
      while todo != {}
        invariant todo <= store.Keys <= old(store).Keys
        invariant forall k :: k in store ==> store[k] == old(store)[k]
        invariant forall k :: k in old(store) && k !in todo ==>
                    (k in store <==> !Expired(old(store)[k], expirationSeconds, now))
        decreases |todo|
      {
        var key :| key in todo;
        todo := todo - {key};
        var queue := store[key];
        var size := |queue|;
        if size == 0 || now - queue[size - 1] > expirationSeconds {
          store := store - {key};
        }
      }
    }
  }

  // ---------------------------------------------------------------- runs

  datatype Event = Request(key: string, now: int) | Sweep(now: int)

  /** Each key is always used with the same limit. */
  type Limits = string -> Limit

  function After(limits: Limits, age: nat, store: Store, e: Event): (s: Store)
    requires NonEmptyQueues(store)
    ensures NonEmptyQueues(s)
  {
    match e
    case Request(key, now) => Requested(store, key, limits(key), now)
    case Sweep(now) => Swept(store, age, now)
  }

  /** The store after a run that starts empty. */
  function Run(limits: Limits, age: nat, events: seq<Event>): (s: Store)
    ensures NonEmptyQueues(s)
  {
    if events == [] then map[]
    else After(limits, age, Run(limits, age, events[..|events| - 1]), events[|events| - 1])
  }

  /** Every time the run admitted key, whether or not it is still remembered. */
  function Admitted(limits: Limits, age: nat, events: seq<Event>, key: string): seq<int> {
    if events == [] then []
    else
      var before := events[..|events| - 1];
      var last := events[|events| - 1];
      var h := Admitted(limits, age, before, key);
      if last.Request? && last.key == key && Admits(Run(limits, age, before), key, limits(key), last.now)
      then h + [last.now] else h
  }

  function RequestTimes(events: seq<Event>, key: string): seq<int> {
    if events == [] then []
    else
      var h := RequestTimes(events[..|events| - 1], key);
      var last := events[|events| - 1];
      if last.Request? && last.key == key then h + [last.now] else h
  }

  ghost predicate NoSweeps(events: seq<Event>) {
    forall i :: 0 <= i < |events| ==> events[i].Request?
  }

  ghost predicate Ordered(events: seq<Event>) {
    forall i, j :: 0 <= i <= j < |events| ==> events[i].now <= events[j].now
  }

  // ------------------------------------------- the limiter that forgets nothing

  /** How many times in h are less than d seconds old. */
  function Recent(h: seq<int>, now: int, d: int): nat {
    if h == [] then 0
    else Recent(h[..|h| - 1], now, d) + (if now - h[|h| - 1] < d then 1 else 0)
  }

  /** The limit that is in force: a limit of 0 still lets one request through. */
  function Cap(lim: Limit): nat {
    if lim.max == 0 then 1 else lim.max
  }

  /** The times a full-history limiter admits: those at which fewer than Cap
      admitted requests are recent. */
  function FullHistory(lim: Limit, times: seq<int>): seq<int> {
    if times == [] then []
    else
      var h := FullHistory(lim, times[..|times| - 1]);
      var now := times[|times| - 1];
      if Recent(h, now, lim.duration) < Cap(lim) then h + [now] else h
  }

  ghost predicate Sorted(h: seq<int>) {
    forall i, j :: 0 <= i <= j < |h| ==> h[i] <= h[j]
  }

  /** In a sorted history, n entries are recent exactly when the n-th youngest is. */
  lemma {:induction false} RecentAtLeast(h: seq<int>, now: int, d: int, n: nat)
    requires Sorted(h) && n > 0
    ensures Recent(h, now, d) >= n <==> |h| >= n && now - h[|h| - n] < d
  {
    if h != [] {
      var t := h[..|h| - 1];
      RecentAtLeast(t, now, d, 1);
      if n > 1 {
        RecentAtLeast(t, now, d, n - 1);
        assert |h| >= n ==> t[|t| - (n - 1)] == h[|h| - n];
      }
      if now - h[|h| - 1] >= d && t != [] {
        assert t[|t| - 1] <= h[|h| - 1];
      }
    }
  }

  /** How a store entry stands for the full history h of its key: it is the
      newest part of h, and unless it is full everything missing has expired. */
  ghost predicate Tracks(store: Store, key: string, h: seq<int>, lim: Limit, now: int) {
    && Sorted(h)
    && (forall i :: 0 <= i < |h| ==> h[i] <= now)
    && if key !in store then forall i :: 0 <= i < |h| ==> now - h[i] >= lim.duration
       else
         var q := store[key];
         && 0 < |q| <= Cap(lim)
         && |q| <= |h|
         && q == h[|h| - |q|..]
         && (|q| < Cap(lim) ==> forall i :: 0 <= i < |h| - |q| ==> now - h[i] >= lim.duration)
  }

  lemma AdmitsExactly(store: Store, key: string, h: seq<int>, lim: Limit, now: int)
    requires Tracks(store, key, h, lim, now)
    ensures Admits(store, key, lim, now) <==> Recent(h, now, lim.duration) < Cap(lim)
  {
    RecentAtLeast(h, now, lim.duration, Cap(lim));
  }

  lemma TracksRequest(store: Store, key: string, h: seq<int>, lim: Limit, now: int)
    requires Tracks(store, key, h, lim, now)
    ensures Tracks(Requested(store, key, lim, now), key,
                   if Admits(store, key, lim, now) then h + [now] else h, lim, now)
  {
  }

  lemma TracksSweep(store: Store, key: string, h: seq<int>, lim: Limit, age: nat, now: int)
    requires Tracks(store, key, h, lim, now)
    requires lim.duration <= age + 1
    ensures Tracks(Swept(store, age, now), key, h, lim, now)
  {
  }

  lemma TracksLater(store: Store, key: string, h: seq<int>, lim: Limit, now: int, later: int)
    requires Tracks(store, key, h, lim, now) && now <= later
    ensures Tracks(store, key, h, lim, later)
  {
  }

  lemma OrderedPrefix(events: seq<Event>)
    requires Ordered(events) && events != []
    ensures Ordered(events[..|events| - 1])
    ensures |events| > 1 ==> events[|events| - 2].now <= events[|events| - 1].now
  {
  }

  lemma TracksEvent(limits: Limits, age: nat, store: Store, h: seq<int>, e: Event, key: string)
    requires NonEmptyQueues(store)
    requires Tracks(store, key, h, limits(key), e.now)
    requires limits(key).duration <= age + 1 || e.Request?
    ensures var admits := e.Request? && e.key == key && Admits(store, key, limits(key), e.now);
            Tracks(After(limits, age, store, e), key, if admits then h + [e.now] else h, limits(key), e.now)
  {
    if e.Sweep? {
      TracksSweep(store, key, h, limits(key), age, e.now);
    } else if e.key == key {
      TracksRequest(store, key, h, limits(key), e.now);
    }
  }

  lemma {:induction false} RunTracks(limits: Limits, age: nat, events: seq<Event>, key: string, now: int)
    requires Ordered(events)
    requires events != [] ==> events[|events| - 1].now <= now
    requires limits(key).duration <= age + 1 || NoSweeps(events)
    ensures Tracks(Run(limits, age, events), key, Admitted(limits, age, events, key), limits(key), now)
  {
    if events != [] {
      var before := events[..|events| - 1];
      var last := events[|events| - 1];
      OrderedPrefix(events);
      RunTracks(limits, age, before, key, last.now);
      TracksEvent(limits, age, Run(limits, age, before), Admitted(limits, age, before, key), last, key);
      TracksLater(Run(limits, age, events), key, Admitted(limits, age, events, key), limits(key), last.now, now);
    }
  }

  /** Main result.  After any interleaving of requests and sweeps, what the
      limiter has admitted for a key is what the full-history limiter admits
      given the times of that key's own requests: sweeping, the bound on the
      queue and the traffic on other keys change no decision. */
  lemma {:induction false} RefinesFullHistory(limits: Limits, age: nat, events: seq<Event>, key: string)
    requires Ordered(events)
    requires limits(key).duration <= age + 1 || NoSweeps(events)
    ensures Admitted(limits, age, events, key) == FullHistory(limits(key), RequestTimes(events, key))
  {
    if events != [] {
      var before := events[..|events| - 1];
      var last := events[|events| - 1];
      RefinesFullHistory(limits, age, before, key);
      if last.Request? && last.key == key {
        RunTracks(limits, age, before, key, last.now);
        AdmitsExactly(Run(limits, age, before), key, Admitted(limits, age, before, key), limits(key), last.now);
        assert RequestTimes(events, key)[..|RequestTimes(before, key)|] == RequestTimes(before, key);
      }
    }
  }

  /** The decision itself, at any point of any run. */
  lemma {:induction false} DecisionExact(limits: Limits, age: nat, events: seq<Event>, key: string, now: int)
    requires Ordered(events + [Request(key, now)])
    requires limits(key).duration <= age + 1 || NoSweeps(events)
    ensures Admits(Run(limits, age, events), key, limits(key), now)
       <==> Recent(Admitted(limits, age, events, key), now, limits(key).duration) < Cap(limits(key))
    ensures var h, n := Admitted(limits, age, events, key), if limits(key).max == 0 then 1 else limits(key).max;
            Admits(Run(limits, age, events), key, limits(key), now)
            <==> |h| < n || now - h[|h| - n] >= limits(key).duration
  {
    var all := events + [Request(key, now)];
    assert all[..|events|] == events;
    OrderedPrefix(all);
    assert events != [] ==> all[|events| - 1].now <= all[|events|].now;
    RunTracks(limits, age, events, key, now);
    AdmitsExactly(Run(limits, age, events), key, Admitted(limits, age, events, key), limits(key), now);
    RecentAtLeast(Admitted(limits, age, events, key), now, limits(key).duration, Cap(limits(key)));
  }

  /** Any cap + 1 consecutive times span at least d seconds. */
  ghost predicate Spaced(h: seq<int>, cap: nat, d: int) {
    forall i :: 0 <= i < |h| - cap ==> h[i + cap] - h[i] >= d
  }

  lemma AdmittingKeepsSpaced(h: seq<int>, now: int, cap: nat, d: int)
    requires Sorted(h) && Spaced(h, cap, d) && cap > 0 && Recent(h, now, d) < cap
    ensures Spaced(h + [now], cap, d)
  {
    RecentAtLeast(h, now, d, cap);
  }

  lemma {:induction false} FullHistorySorted(lim: Limit, times: seq<int>)
    requires Sorted(times)
    ensures Sorted(FullHistory(lim, times))
    ensures forall i :: 0 <= i < |FullHistory(lim, times)| ==> FullHistory(lim, times)[i] <= times[|times| - 1]
  {
    if times != [] {
      hide Recent;
      FullHistorySorted(lim, times[..|times| - 1]);
    }
  }

  lemma {:induction false} FullHistorySpaced(lim: Limit, times: seq<int>)
    requires Sorted(times)
    ensures Spaced(FullHistory(lim, times), Cap(lim), lim.duration)
  {
    if times != [] {
      hide Recent, Spaced;
      var before, now := times[..|times| - 1], times[|times| - 1];
      FullHistorySpaced(lim, before);
      FullHistorySorted(lim, before);
      if Recent(FullHistory(lim, before), now, lim.duration) < Cap(lim) {
        AdmittingKeepsSpaced(FullHistory(lim, before), now, Cap(lim), lim.duration);
      }
    } else {
      NothingSpaced(Cap(lim), lim.duration);
    }
  }

  lemma NothingSpaced(cap: nat, d: int)
    ensures Spaced([], cap, d)
  {
  }

  lemma {:induction false} RequestTimesSorted(events: seq<Event>, key: string)
    requires Ordered(events)
    ensures Sorted(RequestTimes(events, key))
    ensures forall i :: 0 <= i < |RequestTimes(events, key)| ==>
              RequestTimes(events, key)[i] <= events[|events| - 1].now
  {
    if events != [] {
      RequestTimesSorted(events[..|events| - 1], key);
    }
  }

  /** No window of length duration ever holds more than Cap admitted requests,
      even when the key was swept and re-created in between. */
  lemma AdmittedSpaced(limits: Limits, age: nat, events: seq<Event>, key: string, i: nat)
    requires Ordered(events)
    requires limits(key).duration <= age + 1 || NoSweeps(events)
    requires i + Cap(limits(key)) < |Admitted(limits, age, events, key)|
    ensures Admitted(limits, age, events, key)[i + Cap(limits(key))]
            - Admitted(limits, age, events, key)[i] >= limits(key).duration
  {
    RefinesFullHistory(limits, age, events, key);
    RequestTimesSorted(events, key);
    FullHistorySpaced(limits(key), RequestTimes(events, key));
  }

  /** Every stored queue is non-empty, sorted and within the limit, for any
      sweep age. */
  lemma {:induction false} QueuesBounded(limits: Limits, age: nat, events: seq<Event>, key: string)
    requires Ordered(events)
    requires key in Run(limits, age, events)
    ensures var q := Run(limits, age, events)[key];
            0 < |q| <= Cap(limits(key)) && Sorted(q) && q[|q| - 1] <= events[|events| - 1].now
  {
    var before := events[..|events| - 1];
    if key in Run(limits, age, before) {
      QueuesBounded(limits, age, before, key);
    }
  }

  // ------------------------------------------------- the exact sweep age

  /** With this expiration, every run decides as the full-history limiter does.
      Without a positive expiration there are no sweeps. */
  ghost predicate Faithful(limits: Limits, expiration: int, key: string) {
    forall events :: Ordered(events) && (expiration <= 0 ==> NoSweeps(events)) ==>
      Admitted(limits, Age(expiration), events, key) == FullHistory(limits(key), RequestTimes(events, key))
  }

  function Zeros(n: nat): seq<int> {
    if n == 0 then [] else Zeros(n - 1) + [0]
  }

  lemma {:induction false} ZerosShape(n: nat)
    ensures |Zeros(n)| == n && forall i :: 0 <= i < n ==> Zeros(n)[i] == 0
  {
    if n > 0 {
      ZerosShape(n - 1);
    }
  }

  function Burst(key: string, n: nat): seq<Event> {
    seq(n, _ => Request(key, 0))
  }

  lemma RunSnoc(limits: Limits, age: nat, events: seq<Event>, e: Event, key: string)
    ensures Run(limits, age, events + [e]) == After(limits, age, Run(limits, age, events), e)
    ensures Admitted(limits, age, events + [e], key)
         == if e.Request? && e.key == key && Admits(Run(limits, age, events), key, limits(key), e.now)
            then Admitted(limits, age, events, key) + [e.now] else Admitted(limits, age, events, key)
    ensures RequestTimes(events + [e], key)
         == if e.Request? && e.key == key then RequestTimes(events, key) + [e.now] else RequestTimes(events, key)
  {
    assert (events + [e])[..|events|] == events;
  }

  lemma {:induction false} BurstFillsQueue(limits: Limits, age: nat, key: string, n: nat)
    requires n <= Cap(limits(key))
    ensures Admitted(limits, age, Burst(key, n), key) == Zeros(n)
    ensures RequestTimes(Burst(key, n), key) == Zeros(n)
    ensures n > 0 ==> key in Run(limits, age, Burst(key, n)) && Run(limits, age, Burst(key, n))[key] == Zeros(n)
    ensures n == 0 ==> key !in Run(limits, age, Burst(key, n))
  {
    if n > 0 {
      BurstFillsQueue(limits, age, key, n - 1);
      ZerosShape(n - 1);
      assert Burst(key, n) == Burst(key, n - 1) + [Request(key, 0)];
      RunSnoc(limits, age, Burst(key, n - 1), Request(key, 0), key);
    }
  }

  lemma {:induction false} AllRecent(n: nat, now: int, d: int)
    requires now < d
    ensures Recent(Zeros(n), now, d) == n
  {
    if n > 0 {
      AllRecent(n - 1, now, d);
      assert Zeros(n)[..|Zeros(n)| - 1] == Zeros(n - 1);
    }
  }

  /** With a longer duration a sweep can forget requests that still count. */
  lemma SweepForgets(limits: Limits, age: nat, key: string) returns (events: seq<Event>)
    requires limits(key).duration > age + 1
    ensures Ordered(events)
    ensures Admitted(limits, age, events, key) != FullHistory(limits(key), RequestTimes(events, key))
  {
    var n := Cap(limits(key));
    var swept := Burst(key, n) + [Sweep(age + 1)];
    events := swept + [Request(key, age + 1)];
    hide Run, Admitted, RequestTimes, FullHistory, Zeros;
    BurstFillsQueue(limits, age, key, n);
    ZerosShape(n);
    RunSnoc(limits, age, Burst(key, n), Sweep(age + 1), key);
    RunSnoc(limits, age, swept, Request(key, age + 1), key);
    LateRequestRejected(limits(key), n, age + 1);
  }

  lemma LateRequestRejected(lim: Limit, n: nat, now: int)
    requires n == Cap(lim) && now < lim.duration
    ensures |FullHistory(lim, Zeros(n) + [now])| <= n
  {
    var times := Zeros(n) + [now];
    ZerosShape(n);
    assert times[..|times| - 1] == Zeros(n);
    FullHistoryAtMost(lim, Zeros(n));
    if |FullHistory(lim, Zeros(n))| == n {
      FullHistoryAll(lim, Zeros(n));
      AllRecent(n, now, lim.duration);
    }
  }

  lemma {:induction false} FullHistoryAtMost(lim: Limit, times: seq<int>)
    ensures |FullHistory(lim, times)| <= |times|
  {
    if times != [] {
      FullHistoryAtMost(lim, times[..|times| - 1]);
    }
  }

  lemma {:induction false} FullHistoryAll(lim: Limit, times: seq<int>)
    requires |FullHistory(lim, times)| == |times|
    ensures FullHistory(lim, times) == times
  {
    if times != [] {
      hide Recent;
      var before, last := times[..|times| - 1], times[|times| - 1];
      FullHistoryAtMost(lim, before);
      FullHistoryAll(lim, before);
      assert FullHistory(lim, times) == before + [last];
      assert times == before + [last];
    }
  }

  /** The expiration that makes the limiter faithful, for every run: none, or at
      least the duration less one second. */
  lemma FaithfulExactly(limits: Limits, expiration: int, key: string)
    ensures Faithful(limits, expiration, key)
       <==> expiration <= 0 || (limits(key).duration - 1) * 1_000_000_000 <= expiration
  {
    var age := Age(expiration);
    if expiration > 0 {
      AgeExact(expiration, limits(key).duration - 1);
    }
    if expiration <= 0 || limits(key).duration <= age + 1 {
      forall events | Ordered(events) && (expiration <= 0 ==> NoSweeps(events))
        ensures Admitted(limits, age, events, key) == FullHistory(limits(key), RequestTimes(events, key))
      {
        RefinesFullHistory(limits, age, events, key);
      }
    } else {
      var events := SweepForgets(limits, age, key);
    }
  }
}
