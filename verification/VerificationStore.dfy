/**
 The verification-code store (common/verification.go): one expiring map for both
 purposes, purged only when it has grown past a bound.

 The module proves that purging is invisible: every answer is what a store that
 keeps the whole history of registrations and deletions would give.  Times are
 in nanoseconds.
 */
module VerificationStore {
  import opened Numbers
  import opened Wrappers

  datatype Value = Value(code: string, time: int)

  /** The two purposes: e-mail verification and password reset. */
  type Purpose = p: string | p == "v" || p == "r" witness "v"

  const MAX_SIZE := 10
  const VALID_MINUTES := 10

  /** Whole seconds, truncated towards zero. */
  function Seconds(nanos: int): int {
    if nanos >= 0 then nanos / NANOS_PER_SECOND else -(-nanos / NANOS_PER_SECOND)
  }

  /** Under the validity period, in whole seconds. */
  predicate Live(v: Value, now: int) {
    Seconds(now - v.time) < VALID_MINUTES * 60
  }

  /** ... which is ten minutes, also in nanoseconds. */
  lemma LiveExactly(v: Value, now: int)
    ensures Live(v, now) <==> now - v.time < 600_000_000_000
  {
  }

  type Codes = map<string, Value>

  function Purged(codes: Codes, now: int): Codes {
    map id | id in codes && Live(codes[id], now) :: codes[id]
  }

  /** The map after a registration at time now that purges, if it does, at
      purgeTime. */
  function Registered(codes: Codes, id: string, v: Value, purgeTime: int): Codes {
    var added := codes[id := v];
    if |added| > MAX_SIZE then Purged(added, purgeTime) else added
  }

  predicate Verifies(codes: Codes, id: string, code: string, now: int) {
    id in codes && Live(codes[id], now) && code == codes[id].code
  }

  class VerificationMap {
    var codes: Codes

    constructor ()
      ensures codes == map[]
    {
      codes := map[];
    }

    method RegisterVerificationCodeWithKey(key: string, code: string, purpose: Purpose, now: int, purgeTime: int)
      modifies this
      ensures codes == Registered(old(codes), purpose + key, Value(code, now), purgeTime)
    {
      codes := codes[purpose + key := Value(code, now)];
      if |codes| > MAX_SIZE {
        RemoveExpiredPairs(purgeTime);
      }
    }

    method VerifyCodeWithKey(key: string, code: string, purpose: Purpose, now: int) returns (ok: bool)
      ensures ok <==> Verifies(codes, purpose + key, code, now)
      ensures ok <==> && purpose + key in codes && codes[purpose + key].code == code
                      && now - codes[purpose + key].time < 600_000_000_000
    {
      if purpose + key in codes {
        LiveExactly(codes[purpose + key], now);
      }
      if purpose + key !in codes {
        return false;
      }
      var value := codes[purpose + key];
      if Seconds(now - value.time) >= VALID_MINUTES * 60 {
        return false;
      }
      return code == value.code;
    }

    method DeleteKey(key: string, purpose: Purpose)
      modifies this
      ensures codes == old(codes) - {purpose + key}
    {
      codes := codes - {purpose + key};
    }

    method RemoveExpiredPairs(now: int)
      modifies this
      ensures codes == Purged(old(codes), now)
      ensures forall id :: id in codes <==> id in old(codes) && now - old(codes)[id].time < 600_000_000_000
      ensures forall id :: id in codes ==> codes[id] == old(codes)[id]
    {
      forall id | id in codes {
        LiveExactly(codes[id], now);
      }
      var todo := codes.Keys;
      while todo != {}
        invariant todo <= codes.Keys <= old(codes).Keys
        invariant forall id :: id in codes ==> codes[id] == old(codes)[id]
        invariant forall id :: id in old(codes) && id !in todo ==> (id in codes <==> Live(old(codes)[id], now))
        decreases |todo|
      {
        var id :| id in todo;
        todo := todo - {id};
        if Seconds(now - codes[id].time) >= VALID_MINUTES * 60 {
          codes := codes - {id};
        }
      }
    }
  }

  // ---------------------------------------------------------------- runs

  datatype Event =
    | Register(key: string, code: string, purpose: Purpose, now: int, purgeTime: int)
    | Delete(key: string, purpose: Purpose, now: int)

  function EndOf(e: Event): int {
    if e.Register? then e.purgeTime else e.now
  }

  /** Time does not go backwards, within an event or between events. */
  ghost predicate Ordered(events: seq<Event>) {
    && (forall i :: 0 <= i < |events| ==> events[i].now <= EndOf(events[i]))
    && (forall i, j :: 0 <= i < j < |events| ==> EndOf(events[i]) <= events[j].now)
  }

  function After(codes: Codes, e: Event): Codes {
    match e
    case Register(key, code, purpose, now, purgeTime) =>
      Registered(codes, purpose + key, Value(code, now), purgeTime)
    case Delete(key, purpose, now) => codes - {purpose + key}
  }

  function Run(events: seq<Event>): Codes {
    if events == [] then map[] else After(Run(events[..|events| - 1]), events[|events| - 1])
  }

  /** The latest registration for a purpose and key that was not deleted since;
      nothing ever expires here. */
  function Latest(events: seq<Event>, purpose: Purpose, key: string): Option<Value> {
    if events == [] then None
    else
      var e := events[|events| - 1];
      if e.purpose == purpose && e.key == key
      then if e.Register? then Some(Value(e.code, e.now)) else None
      else Latest(events[..|events| - 1], purpose, key)
  }

  lemma IdsDistinct(p: Purpose, k: string, q: Purpose, l: string)
    ensures p + k == q + l <==> p == q && k == l
  {
    if p + k == q + l {
      assert (p + k)[0] == p[0] && (q + l)[0] == q[0];
      assert (p + k)[1..] == k && (q + l)[1..] == l;
    }
  }

  /** The map and the history agree, except that the map may have forgotten
      registrations that have expired. */
  ghost predicate Agrees(codes: Codes, latest: Option<Value>, id: string, now: int) {
    if id in codes then latest == Some(codes[id])
    else latest.Some? ==> !Live(latest.value, now)
  }

  lemma ExpiryIsFinal(v: Value, now: int, later: int)
    requires !Live(v, now) && now <= later
    ensures !Live(v, later)
  {
    var a, b := now - v.time, later - v.time;
    assert a >= 0;
    assert a / NANOS_PER_SECOND <= b / NANOS_PER_SECOND;
  }

  lemma {:induction false} RunAgrees(events: seq<Event>, purpose: Purpose, key: string, now: int)
    requires Ordered(events)
    requires events != [] ==> EndOf(events[|events| - 1]) <= now
    ensures Agrees(Run(events), Latest(events, purpose, key), purpose + key, now)
  {
    if events != [] {
      var before, e := events[..|events| - 1], events[|events| - 1];
      RunAgrees(before, purpose, key, e.now);
      IdsDistinct(purpose, key, e.purpose, e.key);
      var latest := Latest(events, purpose, key);
      if latest.Some? {
        if !Live(latest.value, e.now) {
          ExpiryIsFinal(latest.value, e.now, now);
        }
        if !Live(latest.value, EndOf(e)) {
          ExpiryIsFinal(latest.value, EndOf(e), now);
        }
      }
    }
  }

  /** Main result: after any run, a code verifies exactly when the latest
      undeleted registration for that purpose and key has that code and is under
      the validity period, as if nothing had ever been purged. */
  lemma {:induction false} PurgeInvisible(events: seq<Event>, purpose: Purpose, key: string, code: string, now: int)
    requires Ordered(events)
    requires events != [] ==> EndOf(events[|events| - 1]) <= now
    ensures var latest := Latest(events, purpose, key);
            Verifies(Run(events), purpose + key, code, now)
            <==> latest.Some? && latest.value.code == code && now - latest.value.time < 600_000_000_000
  {
    RunAgrees(events, purpose, key, now);
    var latest := Latest(events, purpose, key);
    if latest.Some? {
      LiveExactly(latest.value, now);
    }
  }

  /** A registration that leaves at most ten entries drops none; another drops exactly
      those that are ten minutes old. */
  lemma RegistrationBounds(codes: Codes, id: string, v: Value, purgeTime: int)
    ensures var added, next := codes[id := v], Registered(codes, id, v, purgeTime);
            && (|added| <= 10 ==> next == added)
            && (|added| > 10 ==>
                  forall k :: k in next <==> k in added && purgeTime - added[k].time < 600_000_000_000)
            && forall k :: k in next ==> k in added && next[k] == added[k]
  {
    var added := codes[id := v];
    forall k | k in added {
      LiveExactly(added[k], purgeTime);
    }
  }

  /** How many of the entries are live. */
  function LiveCount(codes: Codes, now: int): nat {
    |Purged(codes, now)|
  }

  lemma RegistrationSize(codes: Codes, id: string, v: Value, purgeTime: int)
    ensures var next := Registered(codes, id, v, purgeTime);
            |next| <= 10 || |next| == LiveCount(next, purgeTime)
  {
    var next := Registered(codes, id, v, purgeTime);
    if |next| > MAX_SIZE {
      assert Purged(next, purgeTime) == next;
    }
  }
}
