/** The download throttle: one token bucket for each client address. */
module RateLimiter {
  const BURST: real := 3.0
  const REFILL_EVERY: int := 30_000_000_000
  const MAX_TRACKED: nat := 4096

  /** Tokens left, and the last time a call refilled them, in nanoseconds. */
  datatype Bucket = Bucket(tokens: real, lastSeen: int)

  type Buckets = map<string, Bucket>

  // ---------------------------------------------------------------- one bucket

  /** One token for every full window that passed, never more than the burst; a clock that went back adds none. */
  function Refilled(b: Bucket, now: int): Bucket {
    if now > b.lastSeen then
      var t := b.tokens + (now - b.lastSeen) as real / REFILL_EVERY as real;
      Bucket(if t > BURST then BURST else t, now)
    else b
  }

  predicate Grants(b: Bucket, now: int) {
    Refilled(b, now).tokens >= 1.0
  }

  function After(b: Bucket, now: int): Bucket {
    var r := Refilled(b, now);
    if r.tokens >= 1.0 then Bucket(r.tokens - 1.0, r.lastSeen) else r
  }

  /** Time until a refused caller has a token, truncated to whole nanoseconds. */
  function Wait(b: Bucket, now: int): int {
    ((1.0 - Refilled(b, now).tokens) * REFILL_EVERY as real).Floor
  }

  /** Tokens within the burst, and a whole number of nanoseconds' worth of them. */
  ghost predicate Healthy(b: Bucket) {
    0.0 <= b.tokens <= BURST && exists n: int :: b.tokens == Worth(n)
  }

  /** The tokens n nanoseconds bring. */
  function Worth(n: int): real {
    n as real / REFILL_EVERY as real
  }

  lemma AfterHealthy(b: Bucket, now: int)
    requires Healthy(b)
    ensures Healthy(After(b, now)) && Healthy(Refilled(b, now))
  {
    var n :| b.tokens == Worth(n);
    var r := Refilled(b, now);
    assert BURST == Worth(3 * REFILL_EVERY);
    assert b.tokens + (now - b.lastSeen) as real / REFILL_EVERY as real == Worth(n + now - b.lastSeen);
    assert Healthy(r);
    var m :| r.tokens == Worth(m);
    assert r.tokens - 1.0 == Worth(m - REFILL_EVERY);
  }

  /**
   * A refused caller is told exactly how long to wait: with no call in between it is granted after
   * a further d nanoseconds if and only if d is at least the wait.
   */
  lemma WaitIsExact(b: Bucket, now: int, d: nat)
    requires Healthy(b) && b.lastSeen <= now && !Grants(b, now)
    ensures 0 < Wait(b, now) <= REFILL_EVERY
    ensures Grants(After(b, now), now + d) <==> d >= Wait(b, now)
  {
    var r := Refilled(b, now);
    AfterHealthy(b, now);
    var n :| r.tokens == Worth(n);
    assert (1.0 - r.tokens) * REFILL_EVERY as real == (REFILL_EVERY - n) as real;
    assert Wait(b, now) == REFILL_EVERY - n;
    assert r.tokens + d as real / REFILL_EVERY as real == Worth(n + d);
    assert Worth(n + d) >= 1.0 <==> n + d >= REFILL_EVERY;
  }

  // ---------------------------------------------------------------- all buckets

  /** At the limit an oldest bucket goes, unless its address is empty. */
  ghost predicate Evicted(s: Buckets, u: Buckets) {
    if |s| < MAX_TRACKED then u == s
    else exists k :: Oldest(s, k) && u == if k != "" then s - {k} else s
  }

  ghost predicate Oldest(s: Buckets, k: string) {
    k in s && forall j :: j in s ==> s[k].lastSeen <= s[j].lastSeen
  }

  datatype Event = Allow(ip: string, now: int, granted: bool) | Forget(ip: string)

  /** What one call does to the buckets, and what it answers. */
  ghost predicate Follows(s: Buckets, e: Event, t: Buckets) {
    match e
    case Allow(ip, now, granted) =>
      if ip in s then granted == Grants(s[ip], now) && t == s[ip := After(s[ip], now)]
      else granted && exists u :: Evicted(s, u) && t == u[ip := Bucket(BURST - 1.0, now)]
    case Forget(ip) => t == s - {ip}
  }

  class CdbRateLimiter {
    var buckets: Buckets

    constructor ()
      ensures buckets == map[]
    {
      buckets := map[];
    }

    method Allow(ip: string, now: int) returns (granted: bool, wait: int)
      modifies this
      ensures Follows(old(buckets), Event.Allow(ip, now, granted), buckets)
      ensures wait == if granted then 0 else Wait(old(buckets)[ip], now)
    {
      if ip !in buckets {
        if |buckets| >= MAX_TRACKED {
          EvictOldestLocked();
        }
        ghost var u := buckets;
        assert Evicted(old(buckets), u);
        buckets := buckets[ip := Bucket(BURST - 1.0, now)];
        return true, 0;
      }
      hide Evicted;
      var b := buckets[ip];
      var elapsed := now - b.lastSeen;
      if elapsed > 0 {
        b := b.(tokens := b.tokens + elapsed as real / REFILL_EVERY as real);
        if b.tokens > BURST {
          b := b.(tokens := BURST);
        }
        b := b.(lastSeen := now);
      }
      if b.tokens >= 1.0 {
        b := b.(tokens := b.tokens - 1.0);
        buckets := buckets[ip := b];
        return true, 0;
      }
      buckets := buckets[ip := b];
      var need := 1.0 - b.tokens;
      return false, (need * REFILL_EVERY as real).Floor;
    }

    method EvictOldestLocked()
      requires |buckets| >= MAX_TRACKED
      modifies this
      ensures Evicted(old(buckets), buckets)
    {
      var oldestKey, oldest, first := "", 0, true;
      var todo := buckets.Keys;
      while todo != {}
        invariant todo <= buckets.Keys && buckets == old(buckets)
        invariant first <==> todo == buckets.Keys
        invariant !first ==> oldestKey in buckets && oldest == buckets[oldestKey].lastSeen
        invariant forall j :: j in buckets && j !in todo ==> oldest <= buckets[j].lastSeen
        decreases |todo|
      {
        var k :| k in todo;
        if first || buckets[k].lastSeen < oldest {
          oldestKey, oldest, first := k, buckets[k].lastSeen, false;
        }
        todo := todo - {k};
      }
      assert |buckets.Keys| == |buckets|;
      assert Oldest(buckets, oldestKey);
      if oldestKey != "" {
        buckets := buckets - {oldestKey};
      }
    }

    method Forget(ip: string)
      modifies this
      ensures Follows(old(buckets), Event.Forget(ip), buckets)
    {
      buckets := buckets - {ip};
    }
  }

  // ---------------------------------------------------------------- runs

  /** Calls in order, with the buckets before and after each. */
  ghost predicate IsRun(states: seq<Buckets>, events: seq<Event>) {
    |states| == |events| + 1 && forall i :: 0 <= i < |events| ==> Follows(states[i], events[i], states[i + 1])
  }

  ghost predicate AllHealthy(s: Buckets) {
    forall k :: k in s ==> Healthy(s[k])
  }

  lemma StepHealthy(s: Buckets, e: Event, t: Buckets)
    requires AllHealthy(s) && Follows(s, e, t)
    ensures AllHealthy(t)
  {
    hide Healthy, After, Grants;
    if e.Allow? {
      FirstHealthy(e.now);
      if e.ip in s {
        AfterHealthy(s[e.ip], e.now);
      }
    }
  }

  lemma FirstHealthy(now: int)
    ensures Healthy(Bucket(BURST - 1.0, now))
  {
    assert BURST - 1.0 == Worth(2 * REFILL_EVERY);
  }

  /** Tokens stay between 0 and the burst in every run. */
  lemma {:induction false} RunHealthy(states: seq<Buckets>, events: seq<Event>, i: nat)
    requires IsRun(states, events) && AllHealthy(states[0]) && i < |states|
    ensures AllHealthy(states[i])
  {
    hide AllHealthy, Follows;
    if i > 0 {
      RunHealthy(states, events, i - 1);
      StepHealthy(states[i - 1], events[i - 1], states[i]);
    }
  }

  /** A new address meets a full table, and the bucket chosen for eviction can be that of the empty address. */
  ghost predicate Spills(s: Buckets, e: Event) {
    e.Allow? && e.granted && e.ip !in s && |s| == MAX_TRACKED && Oldest(s, "")
  }

  /** From a table within the limit a call can go beyond it if and only if it spills. */
  lemma StepExactly(s: Buckets, e: Event)
    requires |s| <= MAX_TRACKED
    ensures (forall t :: Follows(s, e, t) ==> |t| <= MAX_TRACKED) <==> !Spills(s, e)
  {
    hide Grants, After, Oldest;
    if Spills(s, e) {
      var b := Bucket(BURST - 1.0, e.now);
      assert Evicted(s, s);
      assert Follows(s, e, s[e.ip := b]);
      Larger(s, e.ip, b);
    } else {
      forall t | Follows(s, e, t) ensures |t| <= MAX_TRACKED {
        StepBounded(s, e, t);
      }
    }
  }

  lemma StepBounded(s: Buckets, e: Event, t: Buckets)
    requires Follows(s, e, t) && |s| <= MAX_TRACKED && !Spills(s, e)
    ensures |t| <= MAX_TRACKED
  {
    hide Grants, After, Oldest;
    if e.Forget? {
      Smaller(s, e.ip);
    } else if e.ip in s {
      Larger(s, e.ip, After(s[e.ip], e.now));
    } else {
      var b := Bucket(BURST - 1.0, e.now);
      var u :| Evicted(s, u) && t == u[e.ip := b];
      EvictedBounded(s, u);
      Larger(u, e.ip, b);
    }
  }

  lemma EvictedBounded(s: Buckets, u: Buckets)
    requires Evicted(s, u) && |s| <= MAX_TRACKED && !(|s| == MAX_TRACKED && Oldest(s, ""))
    ensures |u| < MAX_TRACKED
  {
    if |s| >= MAX_TRACKED {
      var k :| Oldest(s, k) && u == if k != "" then s - {k} else s;
      Smaller(s, k);
    }
  }

  lemma SizeIsKeys(s: Buckets)
    ensures |s| == |s.Keys|
  {
  }

  lemma Smaller(s: Buckets, k: string)
    ensures |s - {k}| == if k in s then |s| - 1 else |s|
  {
    assert (s - {k}).Keys == s.Keys - {k};
    SizeIsKeys(s);
    SizeIsKeys(s - {k});
  }

  lemma Larger(s: Buckets, k: string, b: Bucket)
    ensures |s[k := b]| == if k in s then |s| else |s| + 1
  {
    assert s[k := b].Keys == s.Keys + {k};
    SizeIsKeys(s);
    SizeIsKeys(s[k := b]);
  }

  /** A run from no buckets in which no call spills stays within the limit. */
  lemma {:induction false} UnspilledBounded(states: seq<Buckets>, events: seq<Event>, i: nat)
    requires IsRun(states, events) && states[0] == map[] && i < |states|
    requires forall j :: 0 <= j < i ==> !Spills(states[j], events[j])
    ensures |states[i]| <= MAX_TRACKED
  {
    hide Follows, Spills;
    if i > 0 {
      UnspilledBounded(states, events, i - 1);
      StepBounded(states[i - 1], events[i - 1], states[i]);
    }
  }

  /** A run of these calls from no buckets. */
  ghost predicate FromEmpty(states: seq<Buckets>, events: seq<Event>) {
    IsRun(states, events) && states[0] == map[]
  }

  /** However they come about, the buckets stay within the limit after any number of the calls. */
  ghost predicate AlwaysBounded(events: seq<Event>) {
    forall n: nat, states :: n <= |events| && FromEmpty(states, events[..n]) ==> |states[n]| <= MAX_TRACKED
  }

  ghost predicate NeverSpills(events: seq<Event>) {
    forall n: nat, states :: n < |events| && FromEmpty(states, events[..n]) ==> !Spills(states[n], events[n])
  }

  /** The limit holds for a sequence of calls if and only if none of them can spill. */
  lemma LimitExactly(events: seq<Event>)
    ensures AlwaysBounded(events) <==> NeverSpills(events)
  {
    hide Follows, Spills;
    if NeverSpills(events) {
      forall n: nat, states | n <= |events| && FromEmpty(states, events[..n]) ensures |states[n]| <= MAX_TRACKED {
        forall j | 0 <= j < n ensures !Spills(states[j], events[..n][j]) {
          RunPrefix(states, events[..n], j);
          assert events[..n][..j] == events[..j];
          assert FromEmpty(states[..j + 1], events[..j]) && states[..j + 1][j] == states[j];
        }
        UnspilledBounded(states, events[..n], n);
      }
    }
    if AlwaysBounded(events) {
      forall n: nat, states | n < |events| && FromEmpty(states, events[..n]) ensures !Spills(states[n], events[n]) {
        StepExactly(states[n], events[n]);
        forall t | Follows(states[n], events[n], t) ensures |t| <= MAX_TRACKED {
          RunNext(states, events, n, t);
          assert FromEmpty(states + [t], events[..n + 1]) && (states + [t])[n + 1] == t;
        }
      }
    }
  }

  lemma RunPrefix(states: seq<Buckets>, events: seq<Event>, j: nat)
    requires IsRun(states, events) && j <= |events|
    ensures IsRun(states[..j + 1], events[..j])
  {
    hide Follows;
  }

  lemma RunNext(states: seq<Buckets>, events: seq<Event>, n: nat, t: Buckets)
    requires n < |events| && IsRun(states, events[..n]) && Follows(states[n], events[n], t)
    ensures IsRun(states + [t], events[..n + 1])
  {
    hide Follows;
    var all, more := states + [t], events[..n + 1];
    forall i | 0 <= i < |more| ensures Follows(all[i], more[i], all[i + 1]) {
      if i < n {
        assert more[i] == events[..n][i];
      }
    }
  }

  /** With addresses that are not empty at most 4096 buckets exist. */
  lemma {:induction false} RunBounded(states: seq<Buckets>, events: seq<Event>, i: nat)
    requires IsRun(states, events) && states[0] == map[] && i < |states|
    requires forall j :: 0 <= j < |events| ==> events[j].ip != ""
    ensures "" !in states[i] && |states[i]| <= 4096
  {
    hide Follows;
    forall j | 0 <= j <= i ensures "" !in states[j] {
      NoEmptyAddress(states, events, j);
    }
    UnspilledBounded(states, events, i);
  }

  lemma {:induction false} NoEmptyAddress(states: seq<Buckets>, events: seq<Event>, i: nat)
    requires IsRun(states, events) && states[0] == map[] && i < |states|
    requires forall j :: 0 <= j < i ==> events[j].ip != ""
    ensures "" !in states[i]
  {
    hide Grants, After, Oldest;
    if i > 0 {
      NoEmptyAddress(states, events, i - 1);
      assert Follows(states[i - 1], events[i - 1], states[i]);
    }
  }

  function Address(n: nat): string {
    seq(n, i => 'a')
  }

  /** The buckets after n calls from n different addresses, the empty one first. */
  function Grown(n: nat): (s: Buckets)
    ensures forall k :: k in s ==> |k| < n && s[k].lastSeen == |k|
    ensures n > 0 ==> "" in s
  {
    if n == 0 then map[] else Grown(n - 1)[Address(n - 1) := Bucket(BURST - 1.0, n - 1)]
  }

  lemma GrownOneMore(n: nat)
    ensures Grown(n + 1) == Grown(n)[Address(n) := Bucket(BURST - 1.0, n)] && Address(n) !in Grown(n)
    ensures n > 0 ==> Oldest(Grown(n), "")
    ensures Grown(0) == map[]
  {
    if n > 0 {
      assert |""| == 0;
      assert Grown(n)[""].lastSeen == 0;
    }
  }

  lemma {:induction false} GrownSize(n: nat)
    ensures |Grown(n)| == n
  {
    hide Grown, Address;
    GrownOneMore(0);
    if n > 0 {
      GrownSize(n - 1);
      GrownOneMore(n - 1);
      Larger(Grown(n - 1), Address(n - 1), Bucket(BURST - 1.0, n - 1));
    }
  }

  lemma GrownFollows(i: nat)
    ensures Follows(Grown(i), Allow(Address(i), i, true), Grown(i + 1))
  {
    hide Grown, Address, Oldest;
    GrownOneMore(i);
    GrownSize(i);
    assert Evicted(Grown(i), Grown(i));
  }

  /** Calls that spill again and again, after one from the empty address, leave any number of buckets. */
  lemma EmptyAddressUnbounded(n: nat)
    ensures exists states, events :: IsRun(states, events) && states[0] == map[] && |events| == n && |states[n]| == n
  {
    hide Grown, Address, Follows;
    var states: seq<Buckets> := seq(n + 1, i requires 0 <= i => Grown(i));
    var events: seq<Event> := seq(n, i requires 0 <= i => Allow(Address(i), i, true));
    forall i | 0 <= i < n ensures Follows(states[i], events[i], states[i + 1]) {
      GrownFollows(i);
    }
    GrownOneMore(0);
    GrownSize(n);
    assert IsRun(states, events);
  }

  /** Calls of this address that were granted. */
  function Granted(events: seq<Event>, ip: string): nat {
    if events == [] then 0
    else
      var e := events[|events| - 1];
      Granted(events[..|events| - 1], ip) + (if e.Allow? && e.ip == ip && e.granted then 1 else 0)
  }

  /** No call of the window drops the bucket of this address. */
  ghost predicate StaysTracked(states: seq<Buckets>, ip: string) {
    forall i :: 0 <= i < |states| - 1 && ip in states[i] ==> ip in states[i + 1]
  }

  ghost predicate CallsWithin(events: seq<Event>, ip: string, lo: int, hi: int) {
    forall i :: 0 <= i < |events| && events[i].Allow? && events[i].ip == ip ==> lo <= events[i].now <= hi
  }

  function Clamp(x: int, lo: int, hi: int): int {
    if x < lo then lo else if x > hi then hi else x
  }

  /** Granted calls and tokens left never exceed the burst and what the time so far has refilled. */
  ghost predicate Budget(granted: nat, s: Buckets, ip: string, lo: int, hi: int) {
    if ip !in s then granted == 0
    else
      && granted as real + s[ip].tokens <= BURST + Worth(Clamp(s[ip].lastSeen, lo, hi) - lo)
      && (s[ip].lastSeen < lo ==> granted == 0)
  }

  lemma BudgetStep(granted: nat, s: Buckets, e: Event, t: Buckets, ip: string, lo: int, hi: int)
    requires lo <= hi && Budget(granted, s, ip, lo, hi) && Follows(s, e, t)
    requires ip in s ==> ip in t
    requires e.Allow? && e.ip == ip ==> lo <= e.now <= hi
    ensures Budget(granted + (if e.Allow? && e.ip == ip && e.granted then 1 else 0), t, ip, lo, hi)
  {
    if e.Allow? && e.ip == ip && ip in s {
      BudgetCall(granted, s[ip], e.now, lo, hi);
    }
  }

  lemma BudgetCall(granted: nat, b: Bucket, now: int, lo: int, hi: int)
    requires lo <= now <= hi
    requires granted as real + b.tokens <= BURST + Worth(Clamp(b.lastSeen, lo, hi) - lo)
    requires b.lastSeen < lo ==> granted == 0
    ensures var a := After(b, now);
      && (granted + (if Grants(b, now) then 1 else 0)) as real + a.tokens
           <= BURST + Worth(Clamp(a.lastSeen, lo, hi) - lo)
      && lo <= a.lastSeen
  {
    var r := Refilled(b, now);
    if lo <= b.lastSeen < now {
      assert Worth(now - b.lastSeen) + Worth(b.lastSeen - lo) == Worth(now - lo);
    }
  }

  /**
   * Between two drops of its bucket an address is granted at most the burst and one call for every
   * full refill time in the window, whatever the clock does.
   */
  lemma {:induction false} WindowBudget(states: seq<Buckets>, events: seq<Event>, ip: string, lo: int, hi: int)
    requires IsRun(states, events) && AllHealthy(states[0]) && lo <= hi
    requires StaysTracked(states, ip) && CallsWithin(events, ip, lo, hi)
    ensures Budget(Granted(events, ip), states[|events|], ip, lo, hi)
  {
    hide Follows, Budget;
    if events == [] {
      BudgetStart(states[0], ip, lo, hi);
    } else {
      var n := |events| - 1;
      var front, before := events[..n], states[..n + 1];
      WindowBudget(before, front, ip, lo, hi);
      BudgetStep(Granted(front, ip), states[n], events[n], states[n + 1], ip, lo, hi);
    }
  }

  lemma BudgetStart(s: Buckets, ip: string, lo: int, hi: int)
    requires AllHealthy(s) && lo <= hi
    ensures Budget(0, s, ip, lo, hi)
  {
  }

  lemma WindowBound(states: seq<Buckets>, events: seq<Event>, ip: string, lo: int, hi: int)
    requires IsRun(states, events) && AllHealthy(states[0]) && lo <= hi
    requires StaysTracked(states, ip) && CallsWithin(events, ip, lo, hi)
    ensures Granted(events, ip) as real <= 3.0 + (hi - lo) as real / 30_000_000_000.0
  {
    WindowBudget(states, events, ip, lo, hi);
    RunHealthy(states, events, |events|);
    var s := states[|events|];
    if ip in s {
      assert Healthy(s[ip]);
      assert Worth(Clamp(s[ip].lastSeen, lo, hi) - lo) <= Worth(hi - lo);
    }
  }

  /** Four calls of one address at one instant. */
  ghost predicate FourAtOnce(states: seq<Buckets>, events: seq<Event>, ip: string, now: int) {
    && IsRun(states, events) && |events| == 4
    && forall i :: 0 <= i < 4 ==> events[i].Allow? && events[i].ip == ip && events[i].now == now
  }

  /** Of four first calls at one instant three are granted, and the fourth is told to wait 30 seconds. */
  lemma ThreeAtOnce(states: seq<Buckets>, events: seq<Event>, ip: string, now: int)
    requires FourAtOnce(states, events, ip, now) && ip !in states[0]
    ensures events[0].granted && events[1].granted && events[2].granted && !events[3].granted
    ensures ip in states[3] && Wait(states[3][ip], now) == 30_000_000_000
    ensures ip in states[4] && forall later :: Grants(states[4][ip], later) <==> later - now >= 30_000_000_000
  {
    hide Evicted;
    assert Follows(states[0], events[0], states[1]);
    assert states[1][ip] == Bucket(2.0, now);
    assert Follows(states[1], events[1], states[2]);
    assert states[2][ip] == Bucket(1.0, now);
    assert Follows(states[2], events[2], states[3]);
    assert states[3][ip] == Bucket(0.0, now);
    assert Follows(states[3], events[3], states[4]);
    assert states[4][ip] == Bucket(0.0, now);
    forall later ensures Grants(states[4][ip], later) <==> later - now >= 30_000_000_000 {
      EmptyGrants(states[4][ip], later);
    }
  }

  lemma EmptyGrants(b: Bucket, later: int)
    requires b.tokens == 0.0
    ensures Grants(b, later) <==> later - b.lastSeen >= 30_000_000_000
  {
    if later > b.lastSeen {
      var t := (later - b.lastSeen) as real / REFILL_EVERY as real;
      assert t >= 1.0 <==> later - b.lastSeen >= REFILL_EVERY;
    }
  }

  /** A bucket left alone for 90 seconds has its three calls again, and never more. */
  lemma FullAgain(b: Bucket, now: int)
    requires Healthy(b)
    ensures now - b.lastSeen >= 90_000_000_000 ==> Refilled(b, now).tokens == 3.0
    ensures Refilled(b, now).tokens <= 3.0
  {
    var t := (now - b.lastSeen) as real / REFILL_EVERY as real;
    if now - b.lastSeen >= 90_000_000_000 {
      assert t >= 3.0;
    }
  }

  /**
   * Who goes for a new address: nobody below 4096 buckets; at the limit one that was seen no later than
   * any other, unless that is the bucket of the empty address. All others keep their buckets.
   */
  lemma EvictionExactly(s: Buckets, ip: string, now: int, t: Buckets)
    requires ip !in s && |s| <= 4096 && Follows(s, Event.Allow(ip, now, true), t)
    ensures t.Keys <= s.Keys + {ip} && ip in t && t[ip] == Bucket(2.0, now)
    ensures forall k :: k in t && k != ip ==> t[k] == s[k]
    ensures |s| < 4096 ==> t.Keys == s.Keys + {ip}
    ensures |s| == 4096 && !Oldest(s, "") ==> exists gone :: Oldest(s, gone) && t.Keys == s.Keys - {gone} + {ip}
  {
    hide Grants, After, Oldest, Evicted;
    var u :| Evicted(s, u) && t == u[ip := Bucket(BURST - 1.0, now)];
    EvictedExactly(s, u);
  }

  lemma EvictedExactly(s: Buckets, u: Buckets)
    requires |s| <= 4096 && Evicted(s, u)
    ensures u.Keys <= s.Keys && forall k :: k in u ==> u[k] == s[k]
    ensures |s| < 4096 ==> u == s
    ensures |s| == 4096 && !Oldest(s, "") ==> exists gone :: Oldest(s, gone) && u.Keys == s.Keys - {gone}
  {
    hide Oldest;
    if |s| == 4096 && !Oldest(s, "") {
      var gone :| Oldest(s, gone) && u == if gone != "" then s - {gone} else s;
      assert gone != "";
    }
  }

  /** Forgetting an address drops its bucket, so its next three calls are granted, and no other bucket changes. */
  lemma ForgetExactly(s: Buckets, ip: string, t: Buckets)
    requires Follows(s, Event.Forget(ip), t)
    ensures ip !in t && forall k :: k != ip ==> (k in t <==> k in s) && (k in s ==> t[k] == s[k])
  {
  }
}
