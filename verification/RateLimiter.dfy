/** The per-key request counter in the cache, with its sliding one-hour expiry. */
module RateLimiter {
  import opened Wrappers

  type Time = int  // seconds

  const WINDOW: Time := 3600

  datatype Entry = Entry(count: int, expires: Time)

  // ----- what the counter stands for -----

  /** The number of accepted requests at the end of a with less than an hour between neighbours. */
  ghost function Burst(a: seq<Time>): (b: nat)
    ensures b <= |a| && (a != [] ==> b >= 1)
  {
    if |a| <= 1 then |a|
    else if a[|a| - 1] - a[|a| - 2] < WINDOW then Burst(a[..|a| - 1]) + 1
    else 1
  }

  /** The burst a request at `now` would join. */
  ghost function LiveBurst(a: seq<Time>, now: Time): nat {
    if a == [] || now - a[|a| - 1] >= WINDOW then 0 else Burst(a)
  }

  ghost predicate Ascending(a: seq<Time>) { forall i, j :: 0 <= i < j < |a| ==> a[i] <= a[j] }

  /** The accepted ones among the requests `calls` of a key, oldest first. */
  ghost function Accepted(limit: int, calls: seq<Time>): seq<Time> {
    if calls == [] then []
    else
      var a := Accepted(limit, calls[..|calls| - 1]);
      var now := calls[|calls| - 1];
      if LiveBurst(a, now) >= limit then a else a + [now]
  }

  lemma {:induction false} AcceptedAscending(limit: int, calls: seq<Time>)
    requires Ascending(calls)
    ensures Ascending(Accepted(limit, calls))
    ensures forall x :: x in Accepted(limit, calls) ==> x in calls
  {
    if calls != [] {
      AcceptedAscending(limit, calls[..|calls| - 1]);
    }
  }

  /** No burst ever exceeds the limit. */
  lemma {:induction false} BurstsBounded(limit: int, calls: seq<Time>, k: nat)
    requires k <= |Accepted(limit, calls)|
    ensures Burst(Accepted(limit, calls)[..k]) <= if limit < 0 then 0 else limit
  {
    if calls != [] {
      var init, now := calls[..|calls| - 1], calls[|calls| - 1];
      var a, b := Accepted(limit, calls), Accepted(limit, init);
      assert calls == init + [now];
      AcceptedStep(limit, init, now);
      if k <= |b| {
        assert a[..k] == b[..k];
        BurstsBounded(limit, init, k);
      } else {
        assert a[..k] == b + [now];
        BurstStep(b, now);
      }
    }
  }

  /** Requests less than an hour apart from first to last belong to one burst. */
  lemma {:induction false} CloseRequestsAreOneBurst(a: seq<Time>, i: nat, j: nat)
    requires Ascending(a) && i <= j < |a| && a[j] - a[i] < WINDOW
    ensures Burst(a[..j + 1]) >= j - i + 1
    decreases j
  {
    if i < j {
      CloseRequestsAreOneBurst(a, i, j - 1);
      assert a[..j + 1][..j] == a[..j];
    }
  }

  /** At most `limit` requests are accepted in any span shorter than an hour. */
  lemma AtMostLimitInAnyHour(limit: int, calls: seq<Time>, i: nat, j: nat)
    requires Ascending(calls) && i <= j < |Accepted(limit, calls)|
    requires Accepted(limit, calls)[j] - Accepted(limit, calls)[i] < WINDOW
    ensures j - i + 1 <= limit
  {
    AcceptedAscending(limit, calls);
    CloseRequestsAreOneBurst(Accepted(limit, calls), i, j);
    BurstsBounded(limit, calls, j + 1);
  }

  /**
   A request an hour or more after the last accepted one is accepted, however many were refused
   in between, exactly when the limit is positive.
   */
  lemma QuietHourAdmits(limit: int, calls: seq<Time>, now: Time)
    requires forall x :: x in Accepted(limit, calls) ==> now - x >= WINDOW
    ensures Accepted(limit, calls + [now])
            == if limit > 0 then Accepted(limit, calls) + [now] else Accepted(limit, calls)
  {
    assert (calls + [now])[..|calls|] == calls;
    var a := Accepted(limit, calls);
    assert a == [] || a[|a| - 1] in a;
  }

  // ----- who is refused -----

  /** The last n accepted requests have gaps of less than an hour between them, and so has `now` after them. */
  ghost predicate ChainUpTo(a: seq<Time>, n: nat, now: Time) {
    && n <= |a| && (n > 0 ==> now - a[|a| - 1] < 3600)
    && (forall i :: |a| - n <= i < |a| - 1 ==> a[i + 1] - a[i] < 3600)
  }

  lemma {:induction false} BurstIsChain(a: seq<Time>, n: nat)
    requires a != []
    ensures Burst(a) >= n <==> ChainUpTo(a, n, a[|a| - 1])
  {
    if |a| > 1 && n > 1 {
      var init := a[..|a| - 1];
      BurstIsChain(init, n - 1);
      assert forall i :: 0 <= i < |init| ==> init[i] == a[i];
      if a[|a| - 1] - a[|a| - 2] < 3600 && ChainUpTo(init, n - 1, a[|a| - 2]) {
        assert ChainUpTo(a, n, a[|a| - 1]);
      }
      if ChainUpTo(a, n, a[|a| - 1]) {
        assert a[|a| - 2 + 1] - a[|a| - 2] < 3600;
      }
    }
  }

  /**
   A request is refused exactly if nothing is allowed, or if the last `limit` accepted requests and this one
   follow one another with gaps of less than an hour; an accepted one joins the history.
   */
  lemma RefusedExactly(limit: int, calls: seq<Time>, now: Time)
    ensures var a := Accepted(limit, calls);
            Accepted(limit, calls + [now]) == if Full(a, limit, now) then a else a + [now]
  {
    AcceptedStep(limit, calls, now);
    FullExactly(Accepted(limit, calls), limit, now);
  }

  ghost predicate Full(a: seq<Time>, limit: int, now: Time) { limit <= 0 || ChainUpTo(a, limit, now) }

  lemma FullExactly(a: seq<Time>, limit: int, now: Time)
    ensures LiveBurst(a, now) >= limit <==> Full(a, limit, now)
  {
    if a != [] && limit > 0 { BurstIsChain(a, limit); }
  }

  // ----- the counter -----

  /** The calls of one key, in order and none after `now`. */
  ghost predicate CallsUntil(past: seq<Time>, now: Time) {
    Ascending(past) && forall x :: x in past ==> x <= now
  }

  /** The cache entry of a key, if any, stands for the burst at the end of its accepted calls a. */
  ghost predicate Counts(entry: Option<Entry>, a: seq<Time>) {
    entry == if a == [] then None else Some(Entry(Burst(a), a[|a| - 1] + WINDOW))
  }

  function Lookup<Key>(cache: map<Key, Entry>, key: Key): Option<Entry> {
    if key in cache then Some(cache[key]) else None
  }

  /** The live count, or 0 if there is none or it has expired. */
  function LiveCount(entry: Option<Entry>, now: Time): int {
    if entry.Some? && now < entry.value.expires then entry.value.count else 0
  }

  function CheckedEntry(entry: Option<Entry>, limit: int, now: Time): Option<Entry> {
    if LiveCount(entry, now) >= limit then entry else Some(Entry(LiveCount(entry, now) + 1, now + WINDOW))
  }

  lemma AcceptedStep(limit: int, past: seq<Time>, now: Time)
    ensures Accepted(limit, past + [now])
            == if LiveBurst(Accepted(limit, past), now) >= limit then Accepted(limit, past)
               else Accepted(limit, past) + [now]
  {
    assert (past + [now])[..|past|] == past;
  }

  lemma BurstStep(a: seq<Time>, now: Time)
    ensures Burst(a + [now]) == LiveBurst(a, now) + 1
  {
    assert (a + [now])[..|a|] == a;
  }

  lemma CallsUntilStep(past: seq<Time>, clock: Time, now: Time)
    requires CallsUntil(past, clock) && clock <= now
    ensures CallsUntil(past + [now], now)
  {
    var all := past + [now];
    forall i, j | 0 <= i < j < |all| ensures all[i] <= all[j] {
      assert past == [] || past[i] in past;
    }
  }

  /** One check keeps the entry in step with the accepted calls. */
  lemma CheckStep(entry: Option<Entry>, a: seq<Time>, limit: int, now: Time)
    requires Counts(entry, a)
    ensures LiveCount(entry, now) == LiveBurst(a, now)
    ensures Counts(CheckedEntry(entry, limit, now), if LiveBurst(a, now) >= limit then a else a + [now])
  {
    BurstStep(a, now);
  }

  ghost predicate KeyOk(entry: Option<Entry>, past: seq<Time>, limit: int, clock: Time) {
    CallsUntil(past, clock) && Counts(entry, Accepted(limit, past))
  }

  lemma KeyKept(entry: Option<Entry>, past: seq<Time>, limit: int, clock: Time, now: Time)
    requires KeyOk(entry, past, limit, clock) && clock <= now
    ensures KeyOk(entry, past, limit, now)
  {
  }

  lemma KeyChecked(entry: Option<Entry>, past: seq<Time>, limit: int, clock: Time, now: Time)
    requires KeyOk(entry, past, limit, clock) && clock <= now
    ensures KeyOk(CheckedEntry(entry, limit, now), past + [now], limit, now)
    ensures Accepted(limit, past + [now])
            == if LiveCount(entry, now) >= limit then Accepted(limit, past) else Accepted(limit, past) + [now]
  {
    CheckStep(entry, Accepted(limit, past), limit, now);
    AcceptedStep(limit, past, now);
    CallsUntilStep(past, clock, now);
  }

  function CallsOf<Key>(calls: map<Key, seq<Time>>, key: Key): seq<Time> {
    if key in calls then calls[key] else []
  }

  ghost predicate AllOk<Key(!new)>(cache: map<Key, Entry>, calls: map<Key, seq<Time>>, limitOf: Key -> int,
                                   clock: Time)
  {
    forall key :: KeyOk(Lookup(cache, key), CallsOf(calls, key), limitOf(key), clock)
  }

  function CheckedCache<Key>(cache: map<Key, Entry>, key: Key, limit: int, now: Time): map<Key, Entry> {
    var count := LiveCount(Lookup(cache, key), now);
    if count >= limit then cache else cache[key := Entry(count + 1, now + WINDOW)]
  }

  /** A check touches the entry and the history of its own key only. */
  lemma Updated<Key(!new)>(cache: map<Key, Entry>, calls: map<Key, seq<Time>>, key: Key, limit: int, past: seq<Time>,
                           now: Time, k: Key)
    ensures Lookup(CheckedCache(cache, key, limit, now), k)
            == if k == key then CheckedEntry(Lookup(cache, key), limit, now) else Lookup(cache, k)
    ensures CallsOf(calls[key := past], k) == if k == key then past else CallsOf(calls, k)
  {
  }

  function CalledAgain<Key>(calls: map<Key, seq<Time>>, key: Key, now: Time): map<Key, seq<Time>> {
    calls[key := CallsOf(calls, key) + [now]]
  }

  /** The call at `now` is among the accepted ones exactly if the answer is that the limit is not exceeded. */
  ghost predicate Answered(limit: int, before: seq<Time>, after: seq<Time>, now: Time, exceeded: bool) {
    Accepted(limit, after) == if exceeded then Accepted(limit, before) else Accepted(limit, before) + [now]
  }

  lemma AllStep<Key(!new)>(cache: map<Key, Entry>, calls: map<Key, seq<Time>>, limitOf: Key -> int, clock: Time,
                           key: Key, now: Time)
    requires AllOk(cache, calls, limitOf, clock) && clock <= now
    ensures AllOk(CheckedCache(cache, key, limitOf(key), now), CalledAgain(calls, key, now), limitOf, now)
    ensures Answered(limitOf(key), CallsOf(calls, key), CallsOf(CalledAgain(calls, key, now), key), now,
                     LiveCount(Lookup(cache, key), now) >= limitOf(key))
  {
    var past := CallsOf(calls, key);
    assert KeyOk(Lookup(cache, key), past, limitOf(key), clock);
    KeyChecked(Lookup(cache, key), past, limitOf(key), clock, now);
    var cache', calls' := CheckedCache(cache, key, limitOf(key), now), calls[key := past + [now]];
    forall k ensures KeyOk(Lookup(cache', k), CallsOf(calls', k), limitOf(k), now) {
      Updated(cache, calls, key, limitOf(key), past + [now], now, k);
      if k != key {
        assert KeyOk(Lookup(cache, k), CallsOf(calls, k), limitOf(k), clock);
        KeyKept(Lookup(cache, k), CallsOf(calls, k), limitOf(k), clock, now);
      }
    }
  }

  class RateLimiter<Key(==, !new)> {
    var cache: map<Key, Entry>

    /** The times of all calls for each key so far, and of the latest call. */
    ghost var calls: map<Key, seq<Time>>
    ghost var clock: Time

    /** Each key's allowance per hour. */
    const limitOf: Key -> int

    ghost predicate Valid()
      reads this
    {
      AllOk(cache, calls, limitOf, clock)
    }

    constructor (limitOf: Key -> int)
      ensures Valid() && calls == map[] && this.limitOf == limitOf
    {
      cache, calls, clock := map[], map[], 0;
      this.limitOf := limitOf;
    }

    method CheckRateLimit(key: Key, now: Time) returns (exceeded: bool)
      requires Valid() && clock <= now
      modifies this
      ensures Valid() && clock == now
      ensures calls == old(calls)[key := CallsOf(old(calls), key) + [now]]
      ensures var before, after := CallsOf(old(calls), key), CallsOf(calls, key);
              Answered(limitOf(key), before, after, now, exceeded)
    {
      AllStep(cache, calls, limitOf, clock, key, now);
      var currentCount := LiveCount(Lookup(cache, key), now);
      calls := CalledAgain(calls, key, now);
      clock := now;
      assert Answered(limitOf(key), CallsOf(old(calls), key), CallsOf(calls, key), now, currentCount >= limitOf(key));
      if currentCount >= limitOf(key) {
        return true;
      }
      cache := cache[key := Entry(currentCount + 1, now + WINDOW)];
      return false;
    }
  }
}
