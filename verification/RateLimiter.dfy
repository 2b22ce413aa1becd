/** Token-bucket rate limiting with idle eviction: crates/core/src/rate_limiter.rs. */
module RateLimiter {
  import opened Prelude

  type Ip = int
  /** Seconds on a monotonic clock. */
  type Instant = real

  const EVICT_INTERVAL := 1024
  const IDLE_TTL := 3600.0
  const MAX_ENTRIES := 65_536

  datatype Bucket = Bucket(tokens: real, last: Instant)

  type Buckets = map<Ip, Bucket>

  function Least(a: real, b: real): real {
    if a < b then a else b
  }

  function Cap(rpm: u32): real {
    rpm as real
  }

  /** Tokens per second. */
  function Rate(rpm: u32): real {
    rpm as real / 60.0
  }

  lemma ProductNonNegative(a: real, b: real)
    requires a >= 0.0 && b >= 0.0
    ensures a * b >= 0.0
  {}

  lemma RateNonNegative(rpm: u32)
    ensures Rate(rpm) >= 0.0 && Rate(rpm) * 60.0 == Cap(rpm)
  {}

  /** Tokens refilled in `dt` seconds. */
  function Earned(dt: real, rpm: u32): (r: real)
    ensures dt == 0.0 ==> r == 0.0
    ensures dt >= 0.0 ==> r >= 0.0
  {
    RateNonNegative(rpm);
    assert dt >= 0.0 ==> dt * Rate(rpm) >= 0.0 by { if dt >= 0.0 { ProductNonNegative(dt, Rate(rpm)); } }
    dt * Rate(rpm)
  }

  /** `duration_since`, which is zero for an instant in the future. */
  function Elapsed(since: Instant, now: Instant): real {
    if now >= since then now - since else 0.0
  }

  /** What an address can spend at `now`; one without a bucket has a full one. */
  function Credit(t: Buckets, ip: Ip, now: Instant, rpm: u32): real {
    if ip in t then Least(t[ip].tokens + Earned(Elapsed(t[ip].last, now), rpm), Cap(rpm)) else Cap(rpm)
  }

  /** The refilled bucket, less the token an allowed request takes. */
  function Spend(credit: real): real {
    if credit >= 1.0 then credit - 1.0 else credit
  }

  function Called(t: Buckets, ip: Ip, now: Instant, rpm: u32): Buckets {
    t[ip := Bucket(Spend(Credit(t, ip, now, rpm)), now)]
  }

  function Swept(t: Buckets, now: Instant): Buckets {
    map ip | ip in t && t[ip].last >= now - IDLE_TTL :: t[ip]
  }

  datatype State = State(buckets: Buckets, calls: u64)

  datatype Call = Call(ip: Ip, now: Instant)

  /** A limit of zero is no limit. */
  predicate Allows(t: Buckets, ip: Ip, now: Instant, rpm: u32) {
    rpm == 0 || Credit(t, ip, now, rpm) >= 1.0
  }

  /** One call of the limiter, which sweeps idle buckets now and then. */
  function Next(s: State, c: Call, rpm: u32): State {
    if rpm == 0 then s else
    var t := Called(s.buckets, c.ip, c.now, rpm);
    var calls := (s.calls + 1) % 0x1_0000_0000_0000_0000;
    State(if calls % EVICT_INTERVAL == 0 || |t| > MAX_ENTRIES then Swept(t, c.now) else t, calls)
  }

  class RateLimiter {
    var buckets: Buckets
    var calls: u64
    const rpm: u32

    constructor (rpm: u32)
      ensures buckets == map[] && calls == 1 && this.rpm == rpm
    {
      buckets, calls := map[], 1;
      this.rpm := rpm;
    }

    method CheckAndConsume(ip: Ip, now: Instant) returns (allowed: bool)
      modifies this
      ensures allowed <==> Allows(old(buckets), ip, now, rpm)
      ensures State(buckets, calls) == Next(State(old(buckets), old(calls)), Call(ip, now), rpm)
    {
      if rpm == 0 {
        return true;
      }
      var maxTokens := rpm as real;
      var entry := if ip in buckets then buckets[ip] else Bucket(maxTokens, now);
      var tokens := Least(entry.tokens + Earned(Elapsed(entry.last, now), rpm), maxTokens);
      assert tokens == Credit(buckets, ip, now, rpm);
      if tokens >= 1.0 {
        tokens := tokens - 1.0;
        allowed := true;
      } else {
        allowed := false;
      }
      buckets := buckets[ip := Bucket(tokens, now)];
      calls := if calls == 0xFFFF_FFFF_FFFF_FFFF then 0 else calls + 1;
      if calls % EVICT_INTERVAL == 0 || |buckets| > MAX_ENTRIES {
        buckets := Swept(buckets, now);
      }
    }
  }

  // ----- Credit over time -----

  predicate Sane(t: Buckets, now: Instant, rpm: u32) {
    forall ip :: ip in t ==> 0.0 <= t[ip].tokens <= Cap(rpm) && t[ip].last <= now
  }

  lemma EarnedAdds(a: real, b: real, rpm: u32)
    ensures Earned(a + b, rpm) == Earned(a, rpm) + Earned(b, rpm)
  {}

  /** An hour refills more than any bucket holds. */
  lemma EarnedInAnHour(dt: real, rpm: u32)
    requires dt >= IDLE_TTL
    ensures Earned(dt, rpm) >= Cap(rpm)
  {
    EarnedAdds(60.0, dt - 60.0, rpm);
    RateNonNegative(rpm);
    assert Earned(60.0, rpm) == Cap(rpm);
  }

  lemma CreditBounds(t: Buckets, ip: Ip, now: Instant, rpm: u32)
    requires Sane(t, now, rpm)
    ensures 0.0 <= Credit(t, ip, now, rpm) <= Cap(rpm)
    ensures 0.0 <= Spend(Credit(t, ip, now, rpm)) <= Cap(rpm)
  {}

  /** What waiting from `clock` to `now` adds to a credit. */
  function Earn(credit: real, clock: Instant, now: Instant, rpm: u32): real {
    Least(credit + Earned(now - clock, rpm), Cap(rpm))
  }

  /** Waiting earns credit at the refill rate, up to the cap. */
  lemma CreditLater(t: Buckets, ip: Ip, clock: Instant, now: Instant, rpm: u32)
    requires Sane(t, clock, rpm) && clock <= now
    ensures Credit(t, ip, now, rpm) == Earn(Credit(t, ip, clock, rpm), clock, now, rpm)
    ensures Sane(t, now, rpm)
  {
    if ip in t {
      EarnedAdds(clock - t[ip].last, now - clock, rpm);
      assert (clock - t[ip].last) + (now - clock) == now - t[ip].last;
    }
  }

  /** A bucket idle for an hour is full, so dropping it changes nobody's credit. */
  lemma SweepKeepsCredit(t: Buckets, ip: Ip, now: Instant, rpm: u32)
    requires Sane(t, now, rpm)
    ensures Credit(Swept(t, now), ip, now, rpm) == Credit(t, ip, now, rpm)
  {
    if ip in t && t[ip].last < now - IDLE_TTL {
      EarnedInAnHour(now - t[ip].last, rpm);
    }
  }

  /** What a call does to credit, before any sweep: the caller pays if it can, nobody else does. */
  lemma CalledCredit(t: Buckets, payer: Ip, ip: Ip, now: Instant, rpm: u32)
    requires Sane(t, now, rpm)
    ensures Sane(Called(t, payer, now, rpm), now, rpm)
    ensures Credit(Called(t, payer, now, rpm), ip, now, rpm)
         == if ip == payer then Spend(Credit(t, ip, now, rpm)) else Credit(t, ip, now, rpm)
  {
    CreditBounds(t, payer, now, rpm);
  }

  lemma NextCredit(s: State, c: Call, ip: Ip, rpm: u32)
    requires Sane(s.buckets, c.now, rpm)
    ensures Sane(Next(s, c, rpm).buckets, c.now, rpm)
    ensures Credit(Next(s, c, rpm).buckets, ip, c.now, rpm)
         == if ip == c.ip then Spend(Credit(s.buckets, ip, c.now, rpm)) else Credit(s.buckets, ip, c.now, rpm)
  {
    CalledCredit(s.buckets, c.ip, ip, c.now, rpm);
    SweepKeepsCredit(Called(s.buckets, c.ip, c.now, rpm), ip, c.now, rpm);
  }

  // ----- Eviction cannot be observed -----

  /** The times of a run never go back. */
  predicate Ordered(calls: seq<Call>, clock: Instant) {
    calls == [] || (clock <= calls[0].now && Ordered(calls[1..], calls[0].now))
  }

  function Answers(s: State, calls: seq<Call>, rpm: u32): seq<bool>
    decreases calls
  {
    if calls == [] then [] else
    [Allows(s.buckets, calls[0].ip, calls[0].now, rpm)] + Answers(Next(s, calls[0], rpm), calls[1..], rpm)
  }

  /** One call of a limiter that never evicts. */
  function PlainNext(t: Buckets, c: Call, rpm: u32): Buckets {
    if rpm == 0 then t else Called(t, c.ip, c.now, rpm)
  }

  /** Its answers. */
  function PlainAnswers(t: Buckets, calls: seq<Call>, rpm: u32): seq<bool>
    decreases calls
  {
    if calls == [] then [] else
    [Allows(t, calls[0].ip, calls[0].now, rpm)] + PlainAnswers(PlainNext(t, calls[0], rpm), calls[1..], rpm)
  }

  ghost predicate SameCredit(t: Buckets, u: Buckets, now: Instant, rpm: u32) {
    && Sane(t, now, rpm) && Sane(u, now, rpm)
    && forall ip :: Credit(t, ip, now, rpm) == Credit(u, ip, now, rpm)
  }

  lemma SameCreditLater(t: Buckets, u: Buckets, clock: Instant, now: Instant, rpm: u32)
    requires SameCredit(t, u, clock, rpm) && clock <= now
    ensures SameCredit(t, u, now, rpm)
  {
    forall ip ensures Credit(t, ip, now, rpm) == Credit(u, ip, now, rpm) {
      CreditLater(t, ip, clock, now, rpm);
      CreditLater(u, ip, clock, now, rpm);
    }
  }

  lemma SameCreditStep(s: State, u: Buckets, c: Call, rpm: u32)
    requires SameCredit(s.buckets, u, c.now, rpm)
    ensures SameCredit(Next(s, c, rpm).buckets, PlainNext(u, c, rpm), c.now, rpm)
  {
    if rpm > 0 {
      var t', u' := Next(s, c, rpm).buckets, Called(u, c.ip, c.now, rpm);
      forall ip ensures Sane(t', c.now, rpm) && Sane(u', c.now, rpm) && Credit(t', ip, c.now, rpm) == Credit(u', ip, c.now, rpm) {
        NextCredit(s, c, ip, rpm);
        CalledCredit(u, c.ip, ip, c.now, rpm);
      }
      assert Credit(t', c.ip, c.now, rpm) == Credit(u', c.ip, c.now, rpm);
    }
  }

  /** Over every run, the limiter answers as one that never evicts. */
  lemma {:induction false} EvictionIsUnobservable(s: State, u: Buckets, calls: seq<Call>, clock: Instant, rpm: u32)
    requires SameCredit(s.buckets, u, clock, rpm) && Ordered(calls, clock)
    ensures Answers(s, calls, rpm) == PlainAnswers(u, calls, rpm)
    decreases calls
  {
    if calls != [] {
      var c := calls[0];
      SameCreditLater(s.buckets, u, clock, c.now, rpm);
      SameCreditStep(s, u, c, rpm);
      EvictionIsUnobservable(Next(s, c, rpm), PlainNext(u, c, rpm), calls[1..], c.now, rpm);
    }
  }

  // ----- What is allowed, exactly -----

  function Granted(s: State, c: Call, ip: Ip, rpm: u32): seq<Instant> {
    if c.ip == ip && Allows(s.buckets, ip, c.now, rpm) then [c.now] else []
  }

  /** The times at which `ip` was allowed during a run. */
  function Grants(s: State, calls: seq<Call>, ip: Ip, rpm: u32): seq<Instant>
    decreases calls
  {
    if calls == [] then [] else Granted(s, calls[0], ip, rpm) + Grants(Next(s, calls[0], rpm), calls[1..], ip, rpm)
  }

  function Final(s: State, calls: seq<Call>, rpm: u32): State
    decreases calls
  {
    if calls == [] then s else Final(Next(s, calls[0], rpm), calls[1..], rpm)
  }

  /** The time of the last call of a run. */
  function End(calls: seq<Call>, clock: Instant): Instant {
    if calls == [] then clock else calls[|calls| - 1].now
  }

  /** How many requests the interval from grant `m` to `now` still admits. */
  function Room(grants: seq<Instant>, m: nat, now: Instant, rpm: u32): real
    requires m < |grants|
  {
    Cap(rpm) + Earned(now - grants[m], rpm) - (|grants| - m) as real
  }

  /** Credit is the tightest room over all intervals that end now, or the cap. */
  ghost predicate Tight(credit: real, grants: seq<Instant>, now: Instant, rpm: u32) {
    && credit <= Cap(rpm)
    && (forall m :: 0 <= m < |grants| ==> credit <= Room(grants, m, now, rpm))
    && (credit == Cap(rpm) || exists m :: 0 <= m < |grants| && credit == Room(grants, m, now, rpm))
  }

  lemma TightLater(credit: real, grants: seq<Instant>, clock: Instant, now: Instant, rpm: u32)
    requires Tight(credit, grants, clock, rpm) && clock <= now
    ensures Tight(Earn(credit, clock, now, rpm), grants, now, rpm)
  {
    forall m | 0 <= m < |grants| ensures Room(grants, m, now, rpm) == Room(grants, m, clock, rpm) + Earned(now - clock, rpm) {
      EarnedAdds(clock - grants[m], now - clock, rpm);
      assert (clock - grants[m]) + (now - clock) == now - grants[m];
    }
    if credit != Cap(rpm) {
      var m :| 0 <= m < |grants| && credit == Room(grants, m, clock, rpm);
      assert credit + Earned(now - clock, rpm) == Room(grants, m, now, rpm);
    }
  }

  lemma TightGrant(credit: real, grants: seq<Instant>, now: Instant, rpm: u32)
    requires Tight(credit, grants, now, rpm)
    ensures Tight(credit - 1.0, grants + [now], now, rpm)
  {
    var more := grants + [now];
    forall m | 0 <= m < |grants| ensures Room(more, m, now, rpm) == Room(grants, m, now, rpm) - 1.0 {
      assert more[m] == grants[m];
    }
    assert Room(more, |grants|, now, rpm) == Cap(rpm) - 1.0;
    if credit != Cap(rpm) {
      var m :| 0 <= m < |grants| && credit == Room(grants, m, now, rpm);
      assert credit - 1.0 == Room(more, m, now, rpm);
    }
  }

  predicate BudgetHolds(grants: seq<Instant>, m: nat, k: nat, rpm: u32)
    requires m <= k < |grants|
  {
    (k - m + 1) as real <= Cap(rpm) + Earned(grants[k] - grants[m], rpm)
  }

  /** Every interval between two grants stays within the cap plus what the interval refills. */
  predicate WithinBudget(grants: seq<Instant>, rpm: u32) {
    forall m, k :: 0 <= m <= k < |grants| ==> BudgetHolds(grants, m, k, rpm)
  }

  lemma BudgetGrant(grants: seq<Instant>, credit: real, now: Instant, rpm: u32)
    requires WithinBudget(grants, rpm) && Tight(credit, grants, now, rpm) && credit >= 1.0
    ensures WithinBudget(grants + [now], rpm)
  {
    var more := grants + [now];
    forall m, k | 0 <= m <= k < |more| ensures BudgetHolds(more, m, k, rpm) {
      if k < |grants| {
        assert BudgetHolds(grants, m, k, rpm);
      } else if m < k {
        assert credit <= Room(grants, m, now, rpm);
      }
    }
  }

  /** One address: its credit is tight, and no interval was overspent. */
  ghost predicate Exact(credit: real, grants: seq<Instant>, clock: Instant, rpm: u32) {
    Tight(credit, grants, clock, rpm) && WithinBudget(grants, rpm)
  }

  lemma ExactStep(s: State, c: Call, ip: Ip, grants: seq<Instant>, clock: Instant, rpm: u32)
    requires rpm > 0
    requires Sane(s.buckets, clock, rpm) && clock <= c.now
    requires Exact(Credit(s.buckets, ip, clock, rpm), grants, clock, rpm)
    ensures Sane(Next(s, c, rpm).buckets, c.now, rpm)
    ensures Exact(Credit(Next(s, c, rpm).buckets, ip, c.now, rpm), grants + Granted(s, c, ip, rpm), c.now, rpm)
  {
    CreditLater(s.buckets, ip, clock, c.now, rpm);
    TightLater(Credit(s.buckets, ip, clock, rpm), grants, clock, c.now, rpm);
    NextCredit(s, c, ip, rpm);
    GrantKeepsExact(Credit(s.buckets, ip, c.now, rpm), grants, c.now, c.ip == ip, rpm);
  }

  lemma GrantKeepsExact(credit: real, grants: seq<Instant>, now: Instant, pays: bool, rpm: u32)
    requires Exact(credit, grants, now, rpm)
    ensures Exact(if pays then Spend(credit) else credit, grants + if pays && credit >= 1.0 then [now] else [], now, rpm)
  {
    if pays && credit >= 1.0 {
      TightGrant(credit, grants, now, rpm);
      BudgetGrant(grants, credit, now, rpm);
    } else {
      assert grants + [] == grants;
    }
  }

  lemma {:induction false} ExactRun(s: State, calls: seq<Call>, ip: Ip, grants: seq<Instant>, clock: Instant, rpm: u32)
    requires rpm > 0
    requires Sane(s.buckets, clock, rpm) && Ordered(calls, clock)
    requires Exact(Credit(s.buckets, ip, clock, rpm), grants, clock, rpm)
    ensures Sane(Final(s, calls, rpm).buckets, End(calls, clock), rpm)
    ensures Exact(Credit(Final(s, calls, rpm).buckets, ip, End(calls, clock), rpm), grants + Grants(s, calls, ip, rpm), End(calls, clock), rpm)
    decreases calls
  {
    if calls == [] {
      assert grants + [] == grants;
    } else {
      var c := calls[0];
      ExactStep(s, c, ip, grants, clock, rpm);
      ExactRun(Next(s, c, rpm), calls[1..], ip, grants + Granted(s, c, ip, rpm), c.now, rpm);
      assert grants + (Granted(s, c, ip, rpm) + Grants(Next(s, c, rpm), calls[1..], ip, rpm))
          == (grants + Granted(s, c, ip, rpm)) + Grants(Next(s, c, rpm), calls[1..], ip, rpm);
    }
  }

  /** A limiter that has not been called yet. */
  const FRESH := State(map[], 1)

  lemma FreshRun(calls: seq<Call>, ip: Ip, clock: Instant, rpm: u32)
    requires rpm > 0
    requires Ordered(calls, clock)
    ensures Sane(Final(FRESH, calls, rpm).buckets, End(calls, clock), rpm)
    ensures Exact(Credit(Final(FRESH, calls, rpm).buckets, ip, End(calls, clock), rpm), Grants(FRESH, calls, ip, rpm), End(calls, clock), rpm)
  {
    ExactRun(FRESH, calls, ip, [], clock, rpm);
    assert [] + Grants(FRESH, calls, ip, rpm) == Grants(FRESH, calls, ip, rpm);
  }

  /**
   Whatever the other addresses do and whenever sweeps run, the requests one address was allowed
   between its m-th and its k-th grant number at most rpm + t * rpm / 60, t seconds apart.
   */
  lemma GrantsStayWithinBudget(calls: seq<Call>, ip: Ip, clock: Instant, rpm: u32, m: nat, k: nat)
    requires rpm > 0
    requires Ordered(calls, clock) && m <= k < |Grants(FRESH, calls, ip, rpm)|
    ensures RateHolds(Grants(FRESH, calls, ip, rpm), m, k, rpm)
  {
    FreshRun(calls, ip, clock, rpm);
    RateHoldsIff(Grants(FRESH, calls, ip, rpm), m, k, rpm);
  }

  /** Grants m to k number at most rpm + t * rpm / 60, t seconds apart. */
  predicate RateHolds(grants: seq<Instant>, m: nat, k: nat, rpm: u32)
    requires m <= k < |grants|
  {
    (k - m + 1) as real <= rpm as real + (grants[k] - grants[m]) * (rpm as real) / 60.0
  }

  lemma EarnedIs(dt: real, rpm: u32)
    ensures Earned(dt, rpm) == dt * (rpm as real) / 60.0
  {}

  lemma RateHoldsIff(grants: seq<Instant>, m: nat, k: nat, rpm: u32)
    requires m <= k < |grants|
    ensures BudgetHolds(grants, m, k, rpm) <==> RateHolds(grants, m, k, rpm)
  {
    EarnedIs(grants[k] - grants[m], rpm);
  }

  predicate WithinRate(grants: seq<Instant>, rpm: u32) {
    forall m, k :: 0 <= m <= k < |grants| ==> RateHolds(grants, m, k, rpm)
  }

  lemma BudgetIsRate(grants: seq<Instant>, rpm: u32)
    ensures WithinBudget(grants, rpm) <==> WithinRate(grants, rpm)
  {
    forall m, k | 0 <= m <= k < |grants| ensures BudgetHolds(grants, m, k, rpm) <==> RateHolds(grants, m, k, rpm) {
      RateHoldsIff(grants, m, k, rpm);
    }
  }

  /** Granting one more request at `now` keeps every interval that ends with it within the budget. */
  predicate Affordable(grants: seq<Instant>, now: Instant, rpm: u32) {
    forall m :: 0 <= m < |grants| ==> Room(grants, m, now, rpm) >= 1.0
  }

  /**
   The limiter is no stricter than that budget: after any run, a request is allowed exactly when
   granting it keeps every interval within the budget.
   */
  lemma AllowedIffAffordable(calls: seq<Call>, ip: Ip, clock: Instant, now: Instant, rpm: u32)
    requires rpm > 0 && Ordered(calls, clock) && End(calls, clock) <= now
    ensures Allows(Final(FRESH, calls, rpm).buckets, ip, now, rpm) <==> WithinRate(Grants(FRESH, calls, ip, rpm) + [now], rpm)
  {
    FreshRun(calls, ip, clock, rpm);
    var end, grants := Final(FRESH, calls, rpm).buckets, Grants(FRESH, calls, ip, rpm);
    CreditLater(end, ip, End(calls, clock), now, rpm);
    TightLater(Credit(end, ip, End(calls, clock), rpm), grants, End(calls, clock), now, rpm);
    TightDecides(Credit(end, ip, now, rpm), grants, now, rpm);
    BudgetIsRate(grants + [now], rpm);
  }

  lemma TightDecides(credit: real, grants: seq<Instant>, now: Instant, rpm: u32)
    requires rpm > 0 && Tight(credit, grants, now, rpm) && WithinBudget(grants, rpm)
    ensures credit >= 1.0 <==> Affordable(grants, now, rpm)
    ensures Affordable(grants, now, rpm) <==> WithinBudget(grants + [now], rpm)
  {
    if credit >= 1.0 {
      BudgetGrant(grants, credit, now, rpm);
    } else {
      var m :| 0 <= m < |grants| && credit == Room(grants, m, now, rpm);
      assert !BudgetHolds(grants + [now], m, |grants|, rpm);
    }
  }

  // ----- The size of the table -----

  lemma AddedSize(t: Buckets, ip: Ip, b: Bucket)
    requires ip !in t
    ensures |t[ip := b]| == |t| + 1
  {
    assert t[ip := b].Keys == t.Keys + {ip};
    assert |t.Keys| == |t| && |t[ip := b].Keys| == |t[ip := b]|;
  }

  lemma SweptSize(t: Buckets, ip: Ip, b: Bucket, now: Instant)
    requires b.last == now
    ensures |Swept(t[ip := b], now)| == |Swept(t - {ip}, now)| + 1
  {
    var rest := Swept(t - {ip}, now);
    assert Swept(t[ip := b], now) == rest[ip := b];
    AddedSize(rest, ip, b);
  }

  lemma SweepShrinks(t: Buckets, now: Instant)
    ensures |Swept(t, now)| <= |t|
  {
    SubsetSize(Swept(t, now).Keys, t.Keys);
    assert |Swept(t, now).Keys| == |Swept(t, now)| && |t.Keys| == |t|;
  }

  lemma {:induction false} SubsetSize(a: set<Ip>, b: set<Ip>)
    requires a <= b
    ensures |a| <= |b|
  {
    assert b == a + (b - a);
  }

  /**
   The table keeps to its cap after a call exactly when the caller fits into it, or fits beside
   the other addresses seen within the hour.
   */
  lemma CapHoldsIff(s: State, c: Call, rpm: u32)
    requires rpm > 0
    ensures |Next(s, c, rpm).buckets| <= 65_536
       <==> |s.buckets.Keys + {c.ip}| <= 65_536 || |Swept(s.buckets - {c.ip}, c.now)| < 65_536
  {
    var t := Called(s.buckets, c.ip, c.now, rpm);
    assert t.Keys == s.buckets.Keys + {c.ip};
    assert |t.Keys| == |t|;
    SweptSize(s.buckets, c.ip, t[c.ip], c.now);
    SweepShrinks(t, c.now);
  }

  /** Calls from `n` addresses, the first of them `from`, all at one instant. */
  function Crowd(from: nat, n: nat): seq<Call>
    decreases n
  {
    if n == 0 then [] else [Call(from, 0.0)] + Crowd(from + 1, n - 1)
  }

  predicate Crowded(s: State, n: nat) {
    |s.buckets| == n && forall ip :: ip in s.buckets ==> ip < n && s.buckets[ip].last == 0.0
  }

  lemma CrowdStep(s: State, n: nat, rpm: u32)
    requires rpm > 0
    requires Crowded(s, n)
    ensures Crowded(Next(s, Call(n, 0.0), rpm), n + 1)
  {
    var t := Called(s.buckets, n, 0.0, rpm);
    assert t.Keys == s.buckets.Keys + {n};
    assert |t.Keys| == |t| && |s.buckets.Keys| == |s.buckets|;
    assert forall ip :: ip in t ==> t[ip].last == 0.0;
    assert Swept(t, 0.0).Keys == t.Keys;
    assert Swept(t, 0.0) == t;
  }

  lemma {:induction false} CrowdRun(s: State, from: nat, n: nat, rpm: u32)
    requires rpm > 0
    requires Crowded(s, from)
    ensures Crowded(Final(s, Crowd(from, n), rpm), from + n)
    decreases n
  {
    if n > 0 {
      CrowdStep(s, from, rpm);
      CrowdRun(Next(s, Call(from, 0.0), rpm), from + 1, n - 1, rpm);
      assert Crowd(from, n)[1..] == Crowd(from + 1, n - 1);
    }
  }

  /** So the cap is none: n addresses within the hour leave n buckets, for every n. */
  lemma TableIsUnbounded(n: nat, rpm: u32)
    requires rpm > 0
    ensures |Final(FRESH, Crowd(0, n), rpm).buckets| == n
  {
    CrowdRun(FRESH, 0, n, rpm);
  }

  // ----- What a sweep leaves -----

  /** When `ip` was last seen during a run. */
  function LastCall(calls: seq<Call>, ip: Ip): Option<Instant> {
    if calls == [] then None
    else if calls[|calls| - 1].ip == ip then Some(calls[|calls| - 1].now)
    else LastCall(calls[..|calls| - 1], ip)
  }

  predicate SeenSince(calls: seq<Call>, ip: Ip, since: Instant) {
    LastCall(calls, ip).Some? && LastCall(calls, ip).value >= since
  }

  /** Buckets carry the time of their address's last call, and those of the last hour are there. */
  ghost predicate Tracks(t: Buckets, calls: seq<Call>, now: Instant) {
    && (forall ip :: ip in t ==> LastCall(calls, ip) == Some(t[ip].last))
    && (forall ip :: SeenSince(calls, ip, now - 3600.0) ==> ip in t)
  }

  lemma LastCallStep(calls: seq<Call>, c: Call, ip: Ip)
    ensures LastCall(calls + [c], ip) == if c.ip == ip then Some(c.now) else LastCall(calls, ip)
  {
    assert (calls + [c])[..|calls|] == calls;
  }

  lemma TracksCalled(t: Buckets, past: seq<Call>, clock: Instant, c: Call, rpm: u32)
    requires Tracks(t, past, clock) && clock <= c.now
    ensures Tracks(Called(t, c.ip, c.now, rpm), past + [c], c.now)
  {
    var u := Called(t, c.ip, c.now, rpm);
    forall ip ensures ip in u ==> LastCall(past + [c], ip) == Some(u[ip].last) {
      LastCallStep(past, c, ip);
    }
    forall ip | SeenSince(past + [c], ip, c.now - 3600.0) ensures ip in u {
      LastCallStep(past, c, ip);
      if ip != c.ip { assert SeenSince(past, ip, clock - 3600.0); }
    }
  }

  lemma TracksSwept(t: Buckets, past: seq<Call>, now: Instant)
    requires Tracks(t, past, now)
    ensures Tracks(Swept(t, now), past, now)
    ensures forall ip :: ip in Swept(t, now) <==> SeenSince(past, ip, now - 3600.0)
  {
    forall ip ensures ip in Swept(t, now) <==> SeenSince(past, ip, now - 3600.0) {
      assert ip in t ==> LastCall(past, ip) == Some(t[ip].last);
    }
  }

  /** A table just swept, or of more than 65536 addresses, holds those of the last hour and no others. */
  ghost predicate Recent(s: State, past: seq<Call>, now: Instant) {
    s.calls % 1024 == 0 || |s.buckets| > 65_536 ==> forall ip :: ip in s.buckets <==> SeenSince(past, ip, now - 3600.0)
  }

  lemma TracksStep(s: State, past: seq<Call>, clock: Instant, c: Call, rpm: u32)
    requires rpm > 0 && Tracks(s.buckets, past, clock) && clock <= c.now
    ensures Tracks(Next(s, c, rpm).buckets, past + [c], c.now) && Recent(Next(s, c, rpm), past + [c], c.now)
  {
    var t := Called(s.buckets, c.ip, c.now, rpm);
    TracksCalled(s.buckets, past, clock, c, rpm);
    TracksSwept(t, past + [c], c.now);
    SweepShrinks(t, c.now);
  }

  lemma {:induction false} TracksRun(s: State, past: seq<Call>, clock: Instant, calls: seq<Call>, rpm: u32)
    requires rpm > 0 && Tracks(s.buckets, past, clock) && Ordered(calls, clock)
    requires past != [] ==> Recent(s, past, clock)
    ensures Tracks(Final(s, calls, rpm).buckets, past + calls, End(calls, clock))
    ensures past + calls != [] ==> Recent(Final(s, calls, rpm), past + calls, End(calls, clock))
    decreases calls
  {
    if calls == [] {
      assert past + [] == past;
    } else {
      var c := calls[0];
      TracksStep(s, past, clock, c, rpm);
      TracksRun(Next(s, c, rpm), past + [c], c.now, calls[1..], rpm);
      assert past + [c] + calls[1..] == past + calls;
    }
  }

  lemma CountStep(calls: u64, n: nat)
    ensures ((calls + 1) % 0x1_0000_0000_0000_0000 + n) % 0x1_0000_0000_0000_0000 == (calls + (n + 1)) % 0x1_0000_0000_0000_0000
  {}

  lemma {:induction false} CountRun(s: State, calls: seq<Call>, rpm: u32)
    requires rpm > 0
    ensures Final(s, calls, rpm).calls == (s.calls + |calls|) % 0x1_0000_0000_0000_0000
    decreases calls
  {
    if calls != [] {
      CountRun(Next(s, calls[0], rpm), calls[1..], rpm);
      CountStep(s.calls, |calls| - 1);
    }
  }

  /**
   Which addresses the limiter remembers. Those seen within the last hour always; after a call that
   sweeps (every 1024th, counting from one, and any that leaves more than 65536), no others.
   */
  lemma RememberedIff(calls: seq<Call>, clock: Instant, rpm: u32, ip: Ip)
    requires rpm > 0 && Ordered(calls, clock) && calls != []
    ensures var end := Final(FRESH, calls, rpm); var since := End(calls, clock) - 3600.0;
            && (SeenSince(calls, ip, since) ==> ip in end.buckets)
            && (ip in end.buckets ==> LastCall(calls, ip) == Some(end.buckets[ip].last))
            && ((|calls| + 1) % 1024 == 0 || |end.buckets| > 65_536 ==> (ip in end.buckets <==> SeenSince(calls, ip, since)))
  {
    TracksRun(FRESH, [], clock, calls, rpm);
    assert [] + calls == calls;
    CountRun(FRESH, calls, rpm);
    CountWraps(|calls|);
  }

  /**
   When a call forgets an address: one other than the caller, last seen more than an hour ago, and
   only by the 1024th call or with more than 65536 addresses in the table.
   */
  lemma ForgottenIff(s: State, c: Call, rpm: u32, ip: Ip)
    requires rpm > 0 && ip in s.buckets
    ensures ip !in Next(s, c, rpm).buckets
       <==> ip != c.ip && s.buckets[ip].last < c.now - 3600.0 && ((s.calls + 1) % 1024 == 0 || |s.buckets.Keys + {c.ip}| > 65_536)
  {
    var t := Called(s.buckets, c.ip, c.now, rpm);
    assert t.Keys == s.buckets.Keys + {c.ip};
    assert |t.Keys| == |t|;
    CountWraps(s.calls);
  }

  /** A limit of zero is none: every request of every run is allowed, and nothing is remembered. */
  lemma {:induction false} ZeroIsUnlimited(s: State, calls: seq<Call>)
    ensures Final(s, calls, 0) == s && |Answers(s, calls, 0)| == |calls| && false !in Answers(s, calls, 0)
    decreases calls
  {
    if calls != [] { ZeroIsUnlimited(s, calls[1..]); }
  }

  lemma AddMultiple(r: nat, m: nat)
    ensures (r + 1024 * m) % 1024 == r % 1024
  {}

  lemma CountWraps(n: nat)
    ensures (1 + n) % 0x1_0000_0000_0000_0000 % 1024 == (n + 1) % 1024
  {
    var q, r := (1 + n) / 0x1_0000_0000_0000_0000, (1 + n) % 0x1_0000_0000_0000_0000;
    assert 1 + n == r + 1024 * (q * 0x40_0000_0000_0000);
    AddMultiple(r, q * 0x40_0000_0000_0000);
  }
}
