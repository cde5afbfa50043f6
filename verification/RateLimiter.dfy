/** Per-key rate limiting with background eviction
    (internal/security/ratelimit_ip.go keyed by client address and
    internal/security/ratelimit_user.go keyed by subject: the same machine twice).

    The token bucket is golang.org/x/time/rate, which is not part of this model;
    it is represented by its contract: it starts full, refills linearly, never
    holds more than its burst, and gives a token when it holds one. Levels are
    counted in units of which a token is 60 * 10^9, so a rate of perMinute tokens
    a minute is exactly perMinute units a nanosecond. Times are integer
    nanoseconds; a request is one step with one clock reading. */
module RateLimiting {
  import opened Wrappers

  const TOKEN := 60_000_000_000

  datatype Limits = Limits(perMinute: nat, burst: nat)

  datatype Bucket = Bucket(level: int, last: int)

  /** An entry of the limiter map: the limiter and when it was last looked up. */
  datatype Entry = Entry(bucket: Bucket, lastSeen: int)

  type Entries = map<string, Entry>

  function Capacity(l: Limits): int {
    l.burst * TOKEN
  }

  function FullBucket(l: Limits, now: int): Bucket {
    Bucket(Capacity(l), now)
  }

  function Refilled(l: Limits, b: Bucket, now: int): int {
    var level := b.level + l.perMinute * (now - b.last);
    if level > Capacity(l) then Capacity(l) else level
  }

  function Allowed(l: Limits, b: Bucket, now: int): (bool, Bucket) {
    var level := Refilled(l, b, now);
    if level >= TOKEN then (true, Bucket(level - TOKEN, now)) else (false, Bucket(level, now))
  }

  function LookedUp(l: Limits, m: Entries, key: string, now: int): Entries {
    if key in m then m[key := m[key].(lastSeen := now)] else m[key := Entry(FullBucket(l, now), now)]
  }

  function Served(l: Limits, m: Entries, key: string, now: int): (bool, Entries) {
    var m' := LookedUp(l, m, key, now);
    var (ok, b) := Allowed(l, m'[key].bucket, now);
    (ok, m'[key := m'[key].(bucket := b)])
  }

  /** The cleanup loop looking at one key, with the cutoff computed from `now`. */
  function Visited(m: Entries, interval: int, key: string, now: int): Entries {
    if key in m && m[key].lastSeen < now - interval then m - {key} else m
  }

  class RateLimiter {
    var limiters: Entries
    const limits: Limits
    const cleanupInterval: int

    constructor (limits: Limits, cleanupInterval: int)
      ensures this.limits == limits && this.cleanupInterval == cleanupInterval && limiters == map[]
    {
      this.limits, this.cleanupInterval := limits, cleanupInterval;
      limiters := map[];
    }

    method GetLimiter(key: string, now: int)
      modifies this
      ensures limiters == LookedUp(limits, old(limiters), key, now)
    {
      if key in limiters {
        limiters := limiters[key := limiters[key].(lastSeen := now)];
        return;
      }
      limiters := limiters[key := Entry(FullBucket(limits, now), now)];
    }

    /** A caller without a key (an unauthenticated user) is not limited. */
    method Process(caller: Option<string>, now: int) returns (ok: bool)
      modifies this
      ensures caller.None? ==> ok && limiters == old(limiters)
      ensures caller.Some? ==> (ok, limiters) == Served(limits, old(limiters), caller.value, now)
    {
      if caller.None? {
        return true;
      }
      var key := caller.value;
      GetLimiter(key, now);
      var (allowed, bucket) := Allowed(limits, limiters[key].bucket, now);
      limiters := limiters[key := limiters[key].(bucket := bucket)];
      ok := allowed;
    }

    /** One tick of the cleanup goroutine, visiting the keys in any order. */
    method CleanupTick(now: int)
      modifies this
      ensures limiters == map k | k in old(limiters) && old(limiters)[k].lastSeen >= now - cleanupInterval
        :: old(limiters)[k]
    {
      var todo := limiters.Keys;
      while todo != {}
        invariant todo <= limiters.Keys <= old(limiters).Keys
        invariant forall k :: k in limiters ==> limiters[k] == old(limiters)[k]
        invariant forall k :: k in old(limiters) && k !in todo ==>
          (k in limiters <==> old(limiters)[k].lastSeen >= now - cleanupInterval)
        decreases todo
      {
        var key :| key in todo;
        limiters := Visited(limiters, cleanupInterval, key, now);
        todo := todo - {key};
      }
    }
  }

  // Whole runs.

  datatype Event = Request(key: string, now: int) | Visit(key: string, now: int, at: int)

  function Time(e: Event): int {
    match e case Request(_, now) => now case Visit(_, _, at) => at
  }

  ghost predicate InOrder(run: seq<Event>) {
    && (forall i :: 0 <= i < |run| && run[i].Visit? ==> run[i].now <= run[i].at)
    && (forall i, j :: 0 <= i < j < |run| ==> Time(run[i]) <= Time(run[j]))
  }

  /** The map after the first k events, with eviction or without. */
  function EntriesAt(l: Limits, interval: int, run: seq<Event>, k: nat, evict: bool): Entries
    requires k <= |run|
  {
    if k == 0 then map[]
    else
      var m := EntriesAt(l, interval, run, k - 1, evict);
      match run[k - 1]
      case Request(key, now) => Served(l, m, key, now).1
      case Visit(key, now, _) => if evict then Visited(m, interval, key, now) else m
  }

  predicate Admitted(l: Limits, interval: int, run: seq<Event>, k: nat, evict: bool)
    requires k < |run|
  {
    run[k].Request? && Served(l, EntriesAt(l, interval, run, k, evict), run[k].key, run[k].now).0
  }

  /** An evicted bucket would have been full again by the time of its eviction. */
  predicate RefillsWithin(l: Limits, interval: int) {
    l.perMinute * (interval + 1) >= l.burst * 60_000_000_000
  }

  ghost predicate OnlyFullMissing(l: Limits, kept: Entries, all: Entries, clock: int) {
    && (forall k :: k in kept ==> k in all && kept[k] == all[k])
    && (forall k :: k in all ==> all[k].lastSeen == all[k].bucket.last <= clock && 0 <= all[k].bucket.level)
    && (forall k :: k in all && k !in kept ==> Refilled(l, all[k].bucket, clock) == Capacity(l))
  }

  lemma LaterStillFull(l: Limits, b: Bucket, clock: int, clock': int)
    requires clock <= clock' && Refilled(l, b, clock) == Capacity(l)
    ensures Refilled(l, b, clock') == Capacity(l)
  {
    assert l.perMinute * (clock' - b.last) == l.perMinute * (clock - b.last) + l.perMinute * (clock' - clock);
  }

  lemma LaterOnlyFullMissing(l: Limits, kept: Entries, all: Entries, clock: int, clock': int)
    requires OnlyFullMissing(l, kept, all, clock) && clock <= clock'
    ensures OnlyFullMissing(l, kept, all, clock')
  {
    forall k | k in all && k !in kept
      ensures Refilled(l, all[k].bucket, clock') == Capacity(l)
    {
      LaterStillFull(l, all[k].bucket, clock, clock');
    }
  }

  lemma RequestStep(l: Limits, kept: Entries, all: Entries, key: string, now: int)
    requires OnlyFullMissing(l, kept, all, now)
    ensures Served(l, kept, key, now).0 == Served(l, all, key, now).0
    ensures OnlyFullMissing(l, Served(l, kept, key, now).1, Served(l, all, key, now).1, now)
  {
    var inKept := if key in kept then kept[key].bucket else FullBucket(l, now);
    var inAll := if key in all then all[key].bucket else FullBucket(l, now);
    assert Refilled(l, inKept, now) == Refilled(l, inAll, now);
    assert Refilled(l, inAll, now) >= 0 by {
      Monotone(l.perMinute, 0, now - inAll.last);
    }
    assert Served(l, kept, key, now).1 == kept[key := Entry(Allowed(l, inKept, now).1, now)];
    assert Served(l, all, key, now).1 == all[key := Entry(Allowed(l, inAll, now).1, now)];
  }

  lemma VisitStep(l: Limits, interval: nat, kept: Entries, all: Entries, key: string, now: int, at: int)
    requires RefillsWithin(l, interval) && OnlyFullMissing(l, kept, all, at) && now <= at
    ensures OnlyFullMissing(l, Visited(kept, interval, key, now), all, at)
  {
    if key in kept && kept[key].lastSeen < now - interval {
      Monotone(l.perMinute, interval + 1, at - all[key].bucket.last);
    }
  }

  lemma Monotone(w: nat, a: int, b: int)
    requires a <= b
    ensures w * a <= w * b
  {
  }

  lemma {:induction false} EvictionDropsOnlyFull(l: Limits, interval: nat, run: seq<Event>, k: nat, clock: int)
    requires RefillsWithin(l, interval) && InOrder(run) && k <= |run|
    requires forall i :: 0 <= i < k ==> Time(run[i]) <= clock
    ensures OnlyFullMissing(l, EntriesAt(l, interval, run, k, true), EntriesAt(l, interval, run, k, false), clock)
  {
    if k > 0 {
      var e := run[k - 1];
      EvictionDropsOnlyFull(l, interval, run, k - 1, Time(e));
      var kept, all := EntriesAt(l, interval, run, k - 1, true), EntriesAt(l, interval, run, k - 1, false);
      match e {
        case Request(key, now) => RequestStep(l, kept, all, key, now);
        case Visit(key, now, at) => VisitStep(l, interval, kept, all, key, now, at);
      }
      LaterOnlyFullMissing(l, EntriesAt(l, interval, run, k, true),
                           EntriesAt(l, interval, run, k, false), Time(e), clock);
    }
  }

  /** Eviction changes no answer when a bucket refills within the interval. */
  lemma EvictionInvisible(l: Limits, interval: nat, run: seq<Event>, k: nat)
    requires RefillsWithin(l, interval) && InOrder(run) && k < |run|
    ensures Admitted(l, interval, run, k, true) <==> Admitted(l, interval, run, k, false)
  {
    EvictionDropsOnlyFull(l, interval, run, k, Time(run[k]));
    if run[k].Request? {
      RequestStep(l, EntriesAt(l, interval, run, k, true),
                  EntriesAt(l, interval, run, k, false), run[k].key, run[k].now);
    }
  }

  // When a bucket does not refill in time, eviction is visible.

  /** A full burst at time 0, an eviction as early as it can happen, and a second burst then. */
  function TwoBursts(l: Limits, interval: nat, more: nat): (run: seq<Event>)
    ensures |run| == l.burst + 1 + more
    ensures forall i :: 0 <= i < l.burst ==> run[i] == Request("", 0)
    ensures run[l.burst] == Visit("", interval + 1, interval + 1)
    ensures forall i :: l.burst < i < |run| ==> run[i] == Request("", interval + 1)
  {
    seq(l.burst, _ => Request("", 0)) + [Visit("", interval + 1, interval + 1)]
    + seq(more, _ => Request("", interval + 1))
  }

  lemma TwoBurstsInOrder(l: Limits, interval: nat, more: nat)
    ensures InOrder(TwoBursts(l, interval, more))
  {
    var run := TwoBursts(l, interval, more);
    forall i | 0 <= i < |run|
      ensures Time(run[i]) == if i < l.burst then 0 else interval + 1
    {
    }
  }

  lemma {:induction false} FirstBurst(l: Limits, interval: nat, more: nat, k: nat, evict: bool)
    requires k <= l.burst
    ensures EntriesAt(l, interval, TwoBursts(l, interval, more), k, evict)
         == if k == 0 then map[] else map["" := Entry(Bucket(Capacity(l) - k * TOKEN, 0), 0)]
  {
    if k > 0 {
      FirstBurst(l, interval, more, k - 1, evict);
    }
  }

  function Single(b: Bucket, seen: int): Entries {
    map["" := Entry(b, seen)]
  }

  /** One request on a map holding just its bucket, not yet refilled to capacity. */
  lemma OneRequest(l: Limits, b: Bucket, seen: int, now: int, refill: int)
    requires refill == l.perMinute * (now - b.last) && TOKEN <= b.level + refill <= Capacity(l)
    ensures Served(l, Single(b, seen), "", now) == (true, Single(Bucket(b.level + refill - TOKEN, now), now))
  {
    assert LookedUp(l, Single(b, seen), "", now) == Single(b, now);
    var b' := Bucket(b.level + refill - TOKEN, now);
    assert Allowed(l, b, now) == (true, b');
    assert Single(b, now)["" := Entry(b', now)] == Single(b', now);
  }

  lemma FirstRequest(l: Limits, now: int)
    requires l.burst > 0
    ensures Served(l, map[], "", now) == (true, Single(Bucket(Capacity(l) - TOKEN, now), now))
  {
    OneRequest(l, FullBucket(l, now), now, now, 0);
    assert LookedUp(l, map[], "", now) == LookedUp(l, Single(FullBucket(l, now), now), "", now);
  }

  /** The second burst's map after j requests, with eviction or without. */
  function AfterSecond(l: Limits, now: int, refill: int, j: nat, evict: bool): Entries {
    if evict then (if j == 0 then map[] else Single(Bucket(Capacity(l) - j * TOKEN, now), now))
    else if j == 0 then Single(Bucket(0, 0), 0)
    else Single(Bucket(refill - j * TOKEN, now), now)
  }

  lemma SecondBurstStep(l: Limits, now: int, refill: int, j: nat, evict: bool)
    requires refill == l.perMinute * now && 0 <= refill < Capacity(l) && (j + 1) * TOKEN <= refill
    ensures Served(l, AfterSecond(l, now, refill, j, evict), "", now)
      == (true, AfterSecond(l, now, refill, j + 1, evict))
  {
    if j == 0 {
      if evict {
        FirstRequest(l, now);
      } else {
        OneRequest(l, Bucket(0, 0), 0, now, refill);
      }
    } else {
      OneRequest(l, Bucket((if evict then Capacity(l) else refill) - j * TOKEN, now), now, now, 0);
    }
  }

  lemma {:induction false} SecondBurst(l: Limits, interval: nat, more: nat, j: nat, refill: int, evict: bool)
    requires refill == l.perMinute * (interval + 1) && 0 <= refill < Capacity(l)
    requires j <= more && j * TOKEN <= refill
    ensures EntriesAt(l, interval, TwoBursts(l, interval, more), l.burst + 1 + j, evict)
         == AfterSecond(l, interval + 1, refill, j, evict)
  {
    var run := TwoBursts(l, interval, more);
    if j == 0 {
      FirstBurst(l, interval, more, l.burst, evict);
      assert Single(Bucket(0, 0), 0) - {""} == map[];
    } else {
      SecondBurst(l, interval, more, j - 1, refill, evict);
      SecondBurstStep(l, interval + 1, refill, j - 1, evict);
      assert run[l.burst + j] == Request("", interval + 1);
    }
  }

  /** When the kept bucket has run dry, the evicted and recreated one has not. */
  lemma LastAnswers(l: Limits, now: int, refill: int, q: nat)
    requires refill == l.perMinute * now && 0 <= refill < Capacity(l) && q * TOKEN <= refill < (q + 1) * TOKEN
    ensures Served(l, AfterSecond(l, now, refill, q, true), "", now).0
    ensures !Served(l, AfterSecond(l, now, refill, q, false), "", now).0
  {
    if q == 0 {
      FirstRequest(l, now);
      assert LookedUp(l, Single(Bucket(0, 0), 0), "", now)[""].bucket == Bucket(0, 0);
    } else {
      OneRequest(l, Bucket(Capacity(l) - q * TOKEN, now), now, now, 0);
      var b := Bucket(refill - q * TOKEN, now);
      assert LookedUp(l, Single(b, now), "", now)[""].bucket == b;
    }
  }

  lemma LastAdmitted(l: Limits, interval: nat, refill: int, q: nat)
    requires refill == l.perMinute * (interval + 1) && 0 <= refill < Capacity(l)
      && q * TOKEN <= refill < (q + 1) * TOKEN
    ensures var run, k := TwoBursts(l, interval, q + 1), l.burst + 1 + q;
      Admitted(l, interval, run, k, true) && !Admitted(l, interval, run, k, false)
  {
    assert TwoBursts(l, interval, q + 1)[l.burst + 1 + q] == Request("", interval + 1);
    SecondBurst(l, interval, q + 1, q, refill, true);
    SecondBurst(l, interval, q + 1, q, refill, false);
    LastAnswers(l, interval + 1, refill, q);
  }

  /** The run on which the evicting limiter admits a request too many. */
  lemma EvictionVisible(l: Limits, interval: nat) returns (run: seq<Event>, k: nat)
    requires !RefillsWithin(l, interval)
    ensures InOrder(run) && k < |run|
    ensures Admitted(l, interval, run, k, true) && !Admitted(l, interval, run, k, false)
  {
    var refill := l.perMinute * (interval + 1);
    Monotone(l.perMinute, 0, interval + 1);
    var q := WholeTokens(refill);
    run, k := TwoBursts(l, interval, q + 1), l.burst + 1 + q;
    TwoBurstsInOrder(l, interval, q + 1);
    LastAdmitted(l, interval, refill, q);
  }

  function WholeTokens(refill: nat): (q: nat)
    ensures q * TOKEN <= refill < (q + 1) * TOKEN
  {
    refill / TOKEN
  }

  /** Eviction changes no answer on any run exactly when
      perMinute * (interval + 1 ns) refills a whole burst. */
  lemma EvictionInvisibleExactlyWhen(l: Limits, interval: nat)
    ensures RefillsWithin(l, interval) <==>
      forall run, k :: InOrder(run) && 0 <= k < |run| ==>
        (Admitted(l, interval, run, k, true) <==> Admitted(l, interval, run, k, false))
  {
    if RefillsWithin(l, interval) {
      forall run, k | InOrder(run) && 0 <= k < |run|
        ensures Admitted(l, interval, run, k, true) <==> Admitted(l, interval, run, k, false)
      {
        EvictionInvisible(l, interval, run, k);
      }
    } else {
      var run, k := EvictionVisible(l, interval);
      assert InOrder(run) && 0 <= k < |run|;
    }
  }

  // The rate over any stretch of time.

  /** Requests of the key among events i..j that are admitted. */
  function Admissions(l: Limits, interval: int, run: seq<Event>, key: string, i: nat, j: nat, evict: bool): nat
    requires i <= j <= |run|
  {
    if i == j then 0
    else Admissions(l, interval, run, key, i, j - 1, evict)
         + if run[j - 1].key == key && Admitted(l, interval, run, j - 1, evict) then 1 else 0
  }

  /** Tokens spent since time s and the level left come out of a full bucket and the refill. */
  lemma {:induction false} TokensConserved(l: Limits, interval: nat, run: seq<Event>, key: string,
                                         i: nat, j: nat, s: int)
    requires InOrder(run) && i <= j <= |run| && (i < |run| ==> s <= Time(run[i]))
    ensures Admissions(l, interval, run, key, i, j, false) > 0 ==>
      Conserved(l, run, key, i, j, s, Admissions(l, interval, run, key, i, j, false),
                EntriesAt(l, interval, run, j, false))
  {
    if i < j {
      TokensConserved(l, interval, run, key, i, j - 1, s);
      var m, e := EntriesAt(l, interval, run, j - 1, false), run[j - 1];
      var n := Admissions(l, interval, run, key, i, j - 1, false);
      if e.Request? && e.key == key {
        assert s <= Time(run[i]) <= Time(run[j - 1]) == e.now;
        if n > 0 {
          assert m[key].bucket.last <= e.now;
        }
        RequestConserves(l, m, key, e.now, s, n);
      } else if n > 0 {
        var k :| i <= k < j - 1 && Time(run[k]) == m[key].bucket.last;
        assert Conserved(l, run, key, i, j, s, n, m);
      }
    }
  }

  ghost predicate Conserved(l: Limits, run: seq<Event>, key: string, i: nat, j: nat, s: int, n: nat, m: Entries)
    requires i <= j <= |run|
  {
    && key in m && s <= m[key].bucket.last && (exists k :: i <= k < j && Time(run[k]) == m[key].bucket.last)
    && n * TOKEN + m[key].bucket.level <= Capacity(l) + l.perMinute * (m[key].bucket.last - s)
  }

  lemma RequestConserves(l: Limits, m: Entries, key: string, now: int, s: int, n: nat)
    requires s <= now
    requires n > 0 ==>
      && key in m && s <= m[key].bucket.last <= now
      && n * TOKEN + m[key].bucket.level <= Capacity(l) + l.perMinute * (m[key].bucket.last - s)
    ensures var (ok, m') := Served(l, m, key, now);
      var n' := if ok then n + 1 else n;
      && key in m' && m'[key].bucket.last == now
      && (n' > 0 ==> n' * TOKEN + m'[key].bucket.level <= Capacity(l) + l.perMinute * (now - s))
  {
    Monotone(l.perMinute, 0, now - s);
    var b := LookedUp(l, m, key, now)[key].bucket;
    assert Served(l, m, key, now).1[key].bucket == Allowed(l, b, now).1;
    if n > 0 {
      assert l.perMinute * (now - s) == l.perMinute * (now - b.last) + l.perMinute * (b.last - s);
    }
  }

  /** No key is admitted more than burst + perMinute * d / 60s times in any stretch
      of d nanoseconds, provided evicted buckets refill within the interval. */
  lemma AdmissionRateBounded(l: Limits, interval: nat, run: seq<Event>, key: string, i: nat, j: nat, s: int, d: nat)
    requires RefillsWithin(l, interval) && InOrder(run) && i <= j <= |run|
    requires forall k :: i <= k < j ==> s <= Time(run[k]) <= s + d
    ensures Admissions(l, interval, run, key, i, j, true) * 60_000_000_000 <= l.burst * 60_000_000_000 + l.perMinute * d
  {
    SameAdmissions(l, interval, run, key, i, j);
    if i < j {
      TokensConserved(l, interval, run, key, i, j, s);
      Monotone(l.perMinute, 0, d);
      LevelsNonNegative(l, interval, run, j, key);
      var m := EntriesAt(l, interval, run, j, false);
      if Admissions(l, interval, run, key, i, j, false) > 0 {
        Monotone(l.perMinute, m[key].bucket.last - s, d);
      }
    }
  }

  /** On the two bursts the evicting limiter admits every request. */
  lemma TwoBurstsAdmitted(l: Limits, interval: nat, more: nat, refill: int)
    requires refill == l.perMinute * (interval + 1) < Capacity(l) && more <= l.burst && (more - 1) * TOKEN <= refill
    ensures var run := TwoBursts(l, interval, more);
      Admissions(l, interval, run, "", 0, |run|, true) == l.burst + more
  {
    var run := TwoBursts(l, interval, more);
    forall k | 0 <= k < |run|
      ensures AllBut(l, interval, run, l.burst, k)
    {
      TwoBurstsAnswer(l, interval, more, k, refill);
    }
    AllButOne(l, interval, run, l.burst, |run|);
  }

  /** Event m is admitted, unless it is the one to skip. */
  predicate AllBut(l: Limits, interval: nat, run: seq<Event>, skip: nat, m: nat)
    requires m < |run|
  {
    run[m].key == "" && (Admitted(l, interval, run, m, true) <==> m != skip)
  }

  lemma {:induction false} AllButOne(l: Limits, interval: nat, run: seq<Event>, skip: nat, k: nat)
    requires k <= |run| && forall m :: 0 <= m < k ==> AllBut(l, interval, run, skip, m)
    ensures Admissions(l, interval, run, "", 0, k, true) == if k <= skip then k else k - 1
  {
    if k > 0 {
      var last := k - 1;
      AllButOne(l, interval, run, skip, last);
      assert AllBut(l, interval, run, skip, last);
    }
  }

  lemma TwoBurstsAnswer(l: Limits, interval: nat, more: nat, k: nat, refill: int)
    requires refill == l.perMinute * (interval + 1) < Capacity(l) && more <= l.burst && (more - 1) * TOKEN <= refill
    requires k < l.burst + 1 + more
    ensures AllBut(l, interval, TwoBursts(l, interval, more), l.burst, k)
  {
    if k < l.burst {
      FirstBurstAdmitted(l, interval, more, k);
    } else if k > l.burst {
      SecondBurstAdmitted(l, interval, more, k - l.burst - 1, refill);
    }
  }

  lemma FirstBurstAdmitted(l: Limits, interval: nat, more: nat, k: nat)
    requires k < l.burst
    ensures Admitted(l, interval, TwoBursts(l, interval, more), k, true)
  {
    FirstBurst(l, interval, more, k, true);
    if k == 0 {
      FirstRequest(l, 0);
    } else {
      OneRequest(l, Bucket(Capacity(l) - k * TOKEN, 0), 0, 0, 0);
    }
  }

  lemma SecondBurstAdmitted(l: Limits, interval: nat, more: nat, j: nat, refill: int)
    requires refill == l.perMinute * (interval + 1) < Capacity(l) && (more - 1) * TOKEN <= refill
    requires j < more <= l.burst
    ensures Admitted(l, interval, TwoBursts(l, interval, more), l.burst + 1 + j, true)
  {
    var now := interval + 1;
    Monotone(l.perMinute, 0, now);
    SecondBurst(l, interval, more, j, refill, true);
    assert TwoBursts(l, interval, more)[l.burst + 1 + j] == Request("", now);
    if j == 0 {
      FirstRequest(l, now);
    } else {
      OneRequest(l, Bucket(Capacity(l) - j * TOKEN, now), now, now, 0);
    }
  }

  /** The events i..j, all within d from s on, admit the key more often than the
      bucket's size and refill allow. */
  ghost predicate Exceeds(l: Limits, interval: nat, run: seq<Event>, key: string, i: nat, j: nat, s: int, d: nat) {
    && InOrder(run) && i <= j <= |run| && (forall k :: i <= k < j ==> s <= Time(run[k]) <= s + d)
    && Admissions(l, interval, run, key, i, j, true) * 60_000_000_000 > l.burst * 60_000_000_000 + l.perMinute * d
  }

  /** The rate is bounded on every run, for every key and every stretch, exactly
      when evicted buckets refill within the interval. */
  lemma RateBoundedExactlyWhen(l: Limits, interval: nat)
    ensures RefillsWithin(l, interval) <==>
      forall run, key, i, j, s, d :: !Exceeds(l, interval, run, key, i, j, s, d)
  {
    if RefillsWithin(l, interval) {
      forall run, key, i, j, s, d
        ensures !Exceeds(l, interval, run, key, i, j, s, d)
      {
        if Exceeds(l, interval, run, key, i, j, s, d) {
          AdmissionRateBounded(l, interval, run, key, i, j, s, d);
          assert false;
        }
      }
    } else {
      var run, j := RateExceeded(l, interval);
      assert Exceeds(l, interval, run, "", 0, j, 0, interval + 1);
    }
  }

  lemma RateExceeded(l: Limits, interval: nat) returns (run: seq<Event>, j: nat)
    requires !RefillsWithin(l, interval)
    ensures Exceeds(l, interval, run, "", 0, j, 0, interval + 1)
  {
    var refill := l.perMinute * (interval + 1);
    Monotone(l.perMinute, 0, interval + 1);
    var more := WholeTokens(refill) + 1;
    run, j := TwoBursts(l, interval, more), l.burst + 1 + more;
    TwoBurstsExceed(l, interval, more, refill);
  }

  lemma TwoBurstsExceed(l: Limits, interval: nat, more: nat, refill: int)
    requires refill == l.perMinute * (interval + 1) < Capacity(l) && (more - 1) * TOKEN <= refill < more * TOKEN
    ensures var run := TwoBursts(l, interval, more); Exceeds(l, interval, run, "", 0, |run|, 0, interval + 1)
  {
    var run := TwoBursts(l, interval, more);
    TwoBurstsInOrder(l, interval, more);
    TwoBurstsAdmitted(l, interval, more, refill);
    forall k | 0 <= k < |run|
      ensures 0 <= Time(run[k]) <= interval + 1
    {
    }
  }

  lemma {:induction false} SameAdmissions(l: Limits, interval: nat, run: seq<Event>, key: string, i: nat, j: nat)
    requires RefillsWithin(l, interval) && InOrder(run) && i <= j <= |run|
    ensures Admissions(l, interval, run, key, i, j, true) == Admissions(l, interval, run, key, i, j, false)
  {
    if i < j {
      SameAdmissions(l, interval, run, key, i, j - 1);
      EvictionInvisible(l, interval, run, j - 1);
    }
  }

  lemma LevelsNonNegative(l: Limits, interval: nat, run: seq<Event>, j: nat, key: string)
    requires RefillsWithin(l, interval) && InOrder(run) && j <= |run|
    ensures var m := EntriesAt(l, interval, run, j, false); key in m ==> m[key].bucket.level >= 0
  {
    EvictionDropsOnlyFull(l, interval, run, j, if j == 0 then 0 else Time(run[j - 1]));
  }

  // Exactly which requests are denied.

  predicate Asks(run: seq<Event>, key: string, i: nat)
    requires i < |run|
  {
    run[i].Request? && run[i].key == key
  }

  /** What a burst held at request i, a minute's rate for each minute since, and
      the admissions before event k leave at time `now`; a token is a minute's
      60 * 10^9 units. */
  function Budget(l: Limits, interval: int, run: seq<Event>, key: string, i: nat, k: nat, now: int, evict: bool): int
    requires i <= k <= |run| && i < |run| && run[i].Request?
  {
    l.burst * 60_000_000_000 + l.perMinute * (now - run[i].now)
    - Admissions(l, interval, run, key, i, k, evict) * 60_000_000_000
  }

  /** The key's bucket holds the least of the budgets since its requests. */
  ghost predicate Balanced(l: Limits, interval: int, run: seq<Event>, key: string, k: nat)
    requires k <= |run|
  {
    var m := EntriesAt(l, interval, run, k, false);
    if key in m then LeastBudget(l, interval, run, key, k, m[key].bucket.last, m[key].bucket.level)
    else forall i :: 0 <= i < k ==> !Asks(run, key, i)
  }

  ghost predicate LeastBudget(l: Limits, interval: int, run: seq<Event>, key: string, k: nat, now: int, level: int)
    requires k <= |run|
  {
    && (forall i :: 0 <= i < k && Asks(run, key, i) ==> level <= Budget(l, interval, run, key, i, k, now, false))
    && (exists i :: 0 <= i < k && Asks(run, key, i) && level == Budget(l, interval, run, key, i, k, now, false))
  }

  /** Time passing without a request of the key refills all budgets alike. */
  lemma BudgetLater(l: Limits, interval: int, run: seq<Event>, key: string, i: nat, k: nat, now: int, later: int)
    requires i <= k <= |run| && i < |run| && run[i].Request?
    ensures Budget(l, interval, run, key, i, k, later, false)
         == Budget(l, interval, run, key, i, k, now, false) + l.perMinute * (later - now)
  {
    assert l.perMinute * (later - run[i].now) == l.perMinute * (now - run[i].now) + l.perMinute * (later - now);
  }

  /** What the bucket holds at request k, before it is served. */
  function LevelAt(l: Limits, interval: int, run: seq<Event>, k: nat): int
    requires k < |run| && run[k].Request?
  {
    var m := EntriesAt(l, interval, run, k, false);
    if run[k].key in m then Refilled(l, m[run[k].key].bucket, run[k].now) else Capacity(l)
  }

  lemma ServedAtLevel(l: Limits, interval: int, run: seq<Event>, k: nat)
    requires k < |run| && run[k].Request?
    ensures var key, level := run[k].key, LevelAt(l, interval, run, k);
      var m := EntriesAt(l, interval, run, k + 1, false);
      && (Admitted(l, interval, run, k, false) <==> level >= 60_000_000_000)
      && key in m && m[key].bucket.last == run[k].now
      && m[key].bucket.level == level - if Admitted(l, interval, run, k, false) then 60_000_000_000 else 0
  {
  }

  /** With its own full burst counted, the level at request k is the least budget too. */
  lemma LevelIsLeast(l: Limits, interval: int, run: seq<Event>, k: nat)
    requires k < |run| && run[k].Request? && Balanced(l, interval, run, run[k].key, k)
    ensures var key, now, level := run[k].key, run[k].now, LevelAt(l, interval, run, k);
      && (forall i :: 0 <= i <= k && Asks(run, key, i) ==> level <= Budget(l, interval, run, key, i, k, now, false))
      && (exists i :: 0 <= i <= k && Asks(run, key, i) && level == Budget(l, interval, run, key, i, k, now, false))
  {
    var key, now, m := run[k].key, run[k].now, EntriesAt(l, interval, run, k, false);
    assert Asks(run, key, k) && Budget(l, interval, run, key, k, k, now, false) == Capacity(l);
    if key in m {
      var b := m[key].bucket;
      forall i | 0 <= i < k && Asks(run, key, i)
        ensures Budget(l, interval, run, key, i, k, now, false)
             == Budget(l, interval, run, key, i, k, b.last, false) + l.perMinute * (now - b.last)
      {
        BudgetLater(l, interval, run, key, i, k, b.last, now);
      }
    }
  }

  lemma BudgetNext(l: Limits, interval: int, run: seq<Event>, key: string, i: nat, k: nat, now: int)
    requires i <= k < |run| && run[i].Request?
    ensures Budget(l, interval, run, key, i, k + 1, now, false) == Budget(l, interval, run, key, i, k, now, false)
      - if Asks(run, key, k) && Admitted(l, interval, run, k, false) then 60_000_000_000 else 0
  {
  }

  lemma RequestKeepsBalance(l: Limits, interval: int, run: seq<Event>, k: nat)
    requires k < |run| && run[k].Request? && Balanced(l, interval, run, run[k].key, k)
    ensures Balanced(l, interval, run, run[k].key, k + 1)
  {
    var key, now := run[k].key, run[k].now;
    LevelIsLeast(l, interval, run, k);
    ServedAtLevel(l, interval, run, k);
    forall i | 0 <= i <= k && Asks(run, key, i)
      ensures Budget(l, interval, run, key, i, k + 1, now, false) == Budget(l, interval, run, key, i, k, now, false)
        - if Admitted(l, interval, run, k, false) then 60_000_000_000 else 0
    {
      BudgetNext(l, interval, run, key, i, k, now);
    }
  }

  lemma OtherKeepsBalance(l: Limits, interval: int, run: seq<Event>, key: string, k: nat)
    requires k < |run| && !Asks(run, key, k) && Balanced(l, interval, run, key, k)
    ensures Balanced(l, interval, run, key, k + 1)
  {
    var m, m' := EntriesAt(l, interval, run, k, false), EntriesAt(l, interval, run, k + 1, false);
    assert (key in m <==> key in m') && (key in m ==> m[key] == m'[key]);
    if key in m {
      forall i | 0 <= i < k && Asks(run, key, i)
        ensures Budget(l, interval, run, key, i, k + 1, m[key].bucket.last, false)
             == Budget(l, interval, run, key, i, k, m[key].bucket.last, false)
      {
        BudgetNext(l, interval, run, key, i, k, m[key].bucket.last);
      }
    }
  }

  lemma {:induction false} AlwaysBalanced(l: Limits, interval: int, run: seq<Event>, key: string, k: nat)
    requires k <= |run|
    ensures Balanced(l, interval, run, key, k)
  {
    if k > 0 {
      AlwaysBalanced(l, interval, run, key, k - 1);
      if Asks(run, key, k - 1) {
        RequestKeepsBalance(l, interval, run, k - 1);
      } else {
        OtherKeepsBalance(l, interval, run, key, k - 1);
      }
    }
  }

  /** A request is denied exactly when, since some request of its key up to itself,
      a full burst, the rate for the time passed and the admissions made leave less
      than one token; with eviction too, when evicted buckets refill in time. */
  lemma DeniedExactlyWhen(l: Limits, interval: nat, run: seq<Event>, k: nat, evict: bool)
    requires k < |run| && run[k].Request? && (evict ==> RefillsWithin(l, interval) && InOrder(run))
    ensures var key, now := run[k].key, run[k].now;
      !Admitted(l, interval, run, k, evict) <==>
      exists i :: 0 <= i <= k && Asks(run, key, i)
                  && Budget(l, interval, run, key, i, k, now, evict) < 60_000_000_000
  {
    var key := run[k].key;
    AlwaysBalanced(l, interval, run, key, k);
    LevelIsLeast(l, interval, run, k);
    ServedAtLevel(l, interval, run, k);
    if evict {
      EvictionInvisible(l, interval, run, k);
      forall i | 0 <= i <= k
        ensures Admissions(l, interval, run, key, i, k, true) == Admissions(l, interval, run, key, i, k, false)
      {
        SameAdmissions(l, interval, run, key, i, k);
      }
    }
  }
}
