/**
 * `RateLimiter`: a sliding one-minute window per client IP over a Redis
 * sorted set, scored by Unix seconds. Each step of the Redis conversation
 * may fail; a failure is logged and never blocks the request.
 */
module RateLimiter {
  import opened Common

  const KeyPrefix: string := "rate_limit:"
  const Limit: nat := 100
  /** `int64(time.Minute.Seconds())`. */
  const WindowSeconds: int := 60

  /** A sorted set: member to score. */
  type ZSet = map<int, int>

  type Store = map<string, ZSet>

  /** The client's key; the IP reads back from behind the prefix, so clients never share a key. */
  function Key(ip: string): (r: string)
    ensures |r| == |KeyPrefix| + |ip| && r[..|KeyPrefix|] == KeyPrefix && r[|KeyPrefix|..] == ip
  {
    KeyPrefix + ip
  }

  /** `ZCARD`/`ZRANGE` on a missing key see an empty set. */
  function Get(store: Store, key: string): ZSet {
    if key in store then store[key] else map[]
  }

  /** Which Redis calls of the request fail. */
  datatype Faults = Faults(cleanup: bool, count: bool, add: bool, expire: bool)

  const NoFaults: Faults := Faults(false, false, false, false)

  datatype Decision = Allow | TooMany

  /** `ZREMRANGEBYSCORE key 0 now-60`: drops the members scored from 0 to `now - 60`. */
  function Cleanup(zs: ZSet, now: int): (r: ZSet)
    ensures forall m :: m in r <==> m in zs && !(0 <= zs[m] <= now - WindowSeconds)
    ensures forall m :: m in r ==> r[m] == zs[m]
  {
    map m | m in zs && !(0 <= zs[m] <= now - WindowSeconds) :: zs[m]
  }

  /**
   * One request against one set: clean up, count, reject at the limit,
   * otherwise record `member` with score `now`. `EXPIRE` only schedules
   * the removal of a set whose members the next clean-up would drop anyway.
   */
  function Admit(zs: ZSet, now: int, member: int, f: Faults): (r: (Decision, ZSet))
    ensures var kept := if f.cleanup then zs else Cleanup(zs, now);
      && (r.0 == TooMany <==> !f.count && |kept| >= Limit)
      && (r.0 == TooMany ==> r.1 == kept)
      && (r.0 == Allow && f.add ==> r.1 == kept)
      && (r.0 == Allow && !f.add ==> r.1 == kept[member := now])
  {
    var kept := if f.cleanup then zs else Cleanup(zs, now);
    if !f.count && |kept| >= Limit then (TooMany, kept)
    else if f.add then (Allow, kept)
    else (Allow, kept[member := now])
  }

  /** The handler as written: the member recorded is the whole-second timestamp itself. */
  function HandleAsWritten(store: Store, ip: string, now: int, f: Faults): (r: (Decision, Store))
    ensures forall k :: k != Key(ip) ==> Get(r.1, k) == Get(store, k)
    ensures (r.0, Get(r.1, Key(ip))) == Admit(Get(store, Key(ip)), now, now, f)
  {
    var (d, zs) := Admit(Get(store, Key(ip)), now, now, f);
    (d, store[Key(ip) := zs])
  }

  // ---------------------------------------------------------------------------
  // The reject branch as written
  // ---------------------------------------------------------------------------

  /** The integers in `[a, b)`. */
  function Range(a: int, b: int): (s: set<int>)
    ensures forall i :: i in s <==> a <= i < b
    ensures a <= b ==> |s| == b - a
    decreases b - a
  {
    if b <= a then {} else Range(a, b - 1) + {b - 1}
  }

  lemma SubsetSize(a: set<int>, b: set<int>)
    requires a <= b
    ensures |a| <= |b|
  {
    assert a * b == a;
    assert a + b == b;
    assert |b - a| + |a| == |b|;
  }

  /**
   * The sets the handler as written can build: every member is a past
   * whole second, scored by itself.
   */
  predicate SecondsUpTo(zs: ZSet, last: int) {
    forall m :: m in zs ==> zs[m] == m && 0 <= m <= last
  }

  /** After a clean-up at a time no earlier than every member, at most 60 members remain. */
  lemma CleanedHoldsAMinute(zs: ZSet, last: int, now: int)
    requires SecondsUpTo(zs, last) && last <= now
    ensures |Cleanup(zs, now)| <= WindowSeconds
  {
    var kept := Cleanup(zs, now);
    assert kept.Keys <= Range(now - WindowSeconds + 1, now + 1);
    SubsetSize(kept.Keys, Range(now - WindowSeconds + 1, now + 1));
  }

  /**
   * As written, a request whose clean-up succeeds is never rejected, since
   * requests of the same second share one member; the set keeps its shape.
   */
  lemma AsWrittenNeverRejects(store: Store, ip: string, last: int, now: int, f: Faults)
    requires SecondsUpTo(Get(store, Key(ip)), last) && last <= now && 0 <= now
    requires !f.cleanup
    ensures HandleAsWritten(store, ip, now, f).0 == Allow
    ensures SecondsUpTo(Get(HandleAsWritten(store, ip, now, f).1, Key(ip)), now)
  {
    CleanedHoldsAMinute(Get(store, Key(ip)), last, now);
  }

  /** A burst of requests against one set: how many were let through, and the set after. */
  function Burst(zs: ZSet, now: int, members: seq<int>): (r: (nat, ZSet))
    ensures r.0 <= |members|
    decreases |members|
  {
    if |members| == 0 then (0, zs)
    else
      var (d, zs') := Admit(zs, now, members[0], NoFaults);
      var (n, zs'') := Burst(zs', now, members[1..]);
      (if d == Allow then n + 1 else n, zs'')
  }

  /** As written, every request of a burst within one second gets through, however many. */
  lemma {:induction false} AsWrittenAdmitsWholeBurst(zs: ZSet, now: int, n: nat)
    requires SecondsUpTo(zs, now) && 0 <= now
    ensures Burst(zs, now, seq(n, _ => now)).0 == n
    decreases n
  {
    if n > 0 {
      var (d, zs') := Admit(zs, now, now, NoFaults);
      CleanedHoldsAMinute(zs, now, now);
      assert seq(n, _ => now)[1..] == seq(n - 1, _ => now);
      AsWrittenAdmitsWholeBurst(zs', now, n - 1);
    }
  }

  /** A burst of 101 requests in one second: none is turned away. */
  lemma AsWrittenAdmitsOneHundredAndOne(now: int)
    requires 0 <= now
    ensures Burst(map[], now, seq(Limit + 1, _ => now)).0 == Limit + 1
  {
    AsWrittenAdmitsWholeBurst(map[], now, Limit + 1);
  }

  // ---------------------------------------------------------------------------
  // One member per request
  // ---------------------------------------------------------------------------

  /** The handler with a member of its own for every request, such as a request ID. */
  function Handle(store: Store, ip: string, now: int, requestId: int, f: Faults): (r: (Decision, Store))
    ensures forall k :: k != Key(ip) ==> Get(r.1, k) == Get(store, k)
    ensures (r.0, Get(r.1, Key(ip))) == Admit(Get(store, Key(ip)), now, requestId, f)
  {
    var (d, zs) := Admit(Get(store, Key(ip)), now, requestId, f);
    (d, store[Key(ip) := zs])
  }

  predicate Distinct(s: seq<int>) {
    forall i, j :: 0 <= i < j < |s| ==> s[i] != s[j]
  }

  function Min(a: nat, b: nat): nat { if a <= b then a else b }

  /**
   * With its own member per request, a burst within one second against
   * a set of that second's requests lets through exactly as many as the
   * limit leaves room for.
   */
  lemma {:induction false} BurstFillsToLimit(zs: ZSet, now: int, ids: seq<int>)
    requires 0 <= now && |zs| <= Limit
    requires forall m :: m in zs ==> zs[m] == now
    requires Distinct(ids) && forall i :: 0 <= i < |ids| ==> ids[i] !in zs
    ensures Burst(zs, now, ids).0 == Min(|ids|, Limit - |zs|)
    decreases |ids|
  {
    if |ids| > 0 {
      var (d, zs') := Admit(zs, now, ids[0], NoFaults);
      assert forall m :: m in Cleanup(zs, now) <==> m in zs;
      assert Cleanup(zs, now) == zs;
      if |zs| < Limit {
        assert zs' == zs[ids[0] := now];
        assert |zs'| == |zs| + 1;
      }
      forall i | 0 <= i < |ids[1..]| ensures ids[1..][i] !in zs' {
        assert ids[1..][i] == ids[i + 1] && ids[i + 1] != ids[0];
      }
      BurstFillsToLimit(zs', now, ids[1..]);
    }
  }

  /** A burst of 101 requests in one second: the first 100 get through, the last is turned away. */
  lemma RejectsBeyondLimit(now: int)
    requires 0 <= now
    ensures Burst(map[], now, seq(Limit + 1, i => i)).0 == Limit
  {
    var ids := seq(Limit + 1, i => i);
    BurstFillsToLimit(map[], now, ids);
  }
}
