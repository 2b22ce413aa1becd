/** The circuit breaker of crates/core/src/circuit_breaker.rs, over timed traces. */
module CircuitBreaker {
  import opened Prelude

  type Instant = nat

  datatype CbState = Closed | Open | HalfOpen

  datatype Config = Config(threshold: u32, window: nat, probe: nat)

  datatype Inner = Inner(state: CbState, failures: u32, windowStart: Instant, openedAt: Option<Instant>)

  /** The number of failures that opens the circuit; a threshold of zero acts as one. */
  function Limit(config: Config): u32 {
    Max(config.threshold, 1)
  }

  predicate Counting(b: Inner, config: Config) {
    b.state == Closed ==> b.failures < Limit(config)
  }

  predicate Allows(b: Inner, now: Instant, config: Config) {
    b.state != Open || b.openedAt.None? || now >= b.openedAt.value + config.probe
  }

  function Requested(b: Inner, now: Instant, config: Config): Inner {
    if b.state == Open && Allows(b, now, config) then b.(state := HalfOpen) else b
  }

  function Succeeded(b: Inner, now: Instant): Inner {
    Inner(if b.state == HalfOpen then Closed else b.state, 0, now, if b.state == HalfOpen then None else b.openedAt)
  }

  /** A failure counted in the window that has not expired, or first in a new one. */
  function Counted(b: Inner, now: Instant, config: Config): Inner
    requires Counting(b, config) && b.state == Closed
  {
    if now > b.windowStart + config.window then b.(failures := 1, windowStart := now) else b.(failures := b.failures + 1)
  }

  function Failed(b: Inner, now: Instant, config: Config): Inner
    requires Counting(b, config)
  {
    if b.state != Closed then b.(state := Open, openedAt := Some(now))
    else
      var c := Counted(b, now, config);
      if c.failures >= config.threshold then c.(state := Open, openedAt := Some(now)) else c
  }

  class CircuitBreaker {
    var state: CbState
    var failures: u32
    var windowStart: Instant
    var openedAt: Option<Instant>
    const config: Config

    ghost function Snapshot(): Inner
      reads this
    {
      Inner(state, failures, windowStart, openedAt)
    }

    constructor (config: Config, now: Instant)
      ensures this.config == config && Snapshot() == Inner(Closed, 0, now, None) && Counting(Snapshot(), config)
    {
      state, failures, windowStart, openedAt := Closed, 0, now, None;
      this.config := config;
    }

    method AllowRequest(now: Instant) returns (allowed: bool)
      requires Counting(Snapshot(), config)
      modifies this`state
      ensures allowed <==> Allows(old(Snapshot()), now, config)
      ensures Snapshot() == Requested(old(Snapshot()), now, config) && Counting(Snapshot(), config)
    {
      match state
      case Closed => allowed := true;
      case HalfOpen => allowed := true;
      case Open =>
        if openedAt.None? || now >= openedAt.value + config.probe {
          state := HalfOpen;
          allowed := true;
        } else {
          allowed := false;
        }
    }

    method RecordSuccess(now: Instant)
      requires Counting(Snapshot(), config)
      modifies this
      ensures Snapshot() == Succeeded(old(Snapshot()), now) && Counting(Snapshot(), config)
    {
      if state == HalfOpen {
        state := Closed;
        openedAt := None;
      }
      failures := 0;
      windowStart := now;
    }

    method RecordFailure(now: Instant)
      requires Counting(Snapshot(), config)
      modifies this
      ensures Snapshot() == Failed(old(Snapshot()), now, config) && Counting(Snapshot(), config)
    {
      match state {
        case HalfOpen =>
          state := Open;
          openedAt := Some(now);
        case Open =>
          openedAt := Some(now);
        case Closed =>
          if now > windowStart + config.window {
            failures := 0;
            windowStart := now;
          }
          failures := failures + 1;
          if failures >= config.threshold {
            state := Open;
            openedAt := Some(now);
          }
      }
    }
  }

  // ----- Traces -----

  datatype Op = Allow(at: Instant) | Success(at: Instant) | Failure(at: Instant)

  function Next(b: Inner, op: Op, config: Config): (after: Inner)
    requires Counting(b, config)
    ensures Counting(after, config)
  {
    match op
    case Allow(at) => Requested(b, at, config)
    case Success(at) => Succeeded(b, at)
    case Failure(at) => Failed(b, at, config)
  }

  function Run(b: Inner, ops: seq<Op>, config: Config): (after: Inner)
    requires Counting(b, config)
    ensures Counting(after, config)
  {
    if ops == [] then b else Next(Run(b, ops[..|ops| - 1], config), ops[|ops| - 1], config)
  }

  /** Time does not run backwards, and starts no earlier than the breaker. */
  predicate Timed(ops: seq<Op>, created: Instant) {
    && (forall i :: 0 <= i < |ops| ==> created <= ops[i].at)
    && (forall i, j :: 0 <= i < j < |ops| ==> ops[i].at <= ops[j].at)
  }

  /** The recorded outcomes of a trace; requests leave none. */
  function Outcomes(ops: seq<Op>): seq<Op> {
    if ops == [] then []
    else Outcomes(ops[..|ops| - 1]) + if ops[|ops| - 1].Allow? then [] else [ops[|ops| - 1]]
  }

  /** The last `n` of `outcomes` are failures between `from` and `from + window`. */
  predicate Streak(outcomes: seq<Op>, n: nat, from: Instant, config: Config) {
    && n <= |outcomes|
    && forall i :: |outcomes| - n <= i < |outcomes| ==> outcomes[i].Failure? && from <= outcomes[i].at <= from + config.window
  }

  function LastFailure(outcomes: seq<Op>): Option<Instant> {
    if outcomes == [] then None
    else if outcomes[|outcomes| - 1].Failure? then Some(outcomes[|outcomes| - 1].at)
    else LastFailure(outcomes[..|outcomes| - 1])
  }

  /**
   What holds after every trace: a closed breaker's count is a streak of failures in the current
   window; an open one was last told of a failure at `openedAt`; a half-open one has waited out
   the probe interval since.
   */
  predicate Explained(b: Inner, outcomes: seq<Op>, now: Instant, config: Config) {
    && b.windowStart <= now
    && (b.state == Closed ==> Streak(outcomes, b.failures, b.windowStart, config))
    && (b.state != Closed ==> b.openedAt.Some? && b.openedAt == LastFailure(outcomes))
    && (b.state == HalfOpen ==> now >= b.openedAt.value + config.probe)
  }

  lemma AppendOutcome(outcomes: seq<Op>, op: Op)
    ensures LastFailure(outcomes + [op]) == if op.Failure? then Some(op.at) else LastFailure(outcomes)
    ensures (outcomes + [op])[..|outcomes|] == outcomes
  {}

  lemma FailureExplained(b: Inner, outcomes: seq<Op>, now: Instant, at: Instant, config: Config)
    requires Counting(b, config) && Explained(b, outcomes, now, config) && now <= at
    ensures Explained(Failed(b, at, config), outcomes + [Failure(at)], at, config)
    ensures b.state == Closed && Failed(b, at, config).state == Open ==>
              var c := Counted(b, at, config); c.failures == Limit(config) && Streak(outcomes + [Failure(at)], c.failures, c.windowStart, config)
  {
    AppendOutcome(outcomes, Failure(at));
    if b.state == Closed {
      var c := Counted(b, at, config);
      assert Streak(outcomes + [Failure(at)], c.failures, c.windowStart, config);
    }
  }

  lemma NextExplained(b: Inner, outcomes: seq<Op>, now: Instant, op: Op, config: Config)
    requires Counting(b, config) && Explained(b, outcomes, now, config) && now <= op.at
    ensures Explained(Next(b, op, config), outcomes + if op.Allow? then [] else [op], op.at, config)
  {
    assert outcomes + [] == outcomes;
    match op
    case Allow(at) =>
    case Success(at) => AppendOutcome(outcomes, op);
    case Failure(at) => FailureExplained(b, outcomes, now, at, config);
  }

  function Fresh(created: Instant): Inner {
    Inner(Closed, 0, created, None)
  }

  function Clock(ops: seq<Op>, created: Instant): Instant {
    if ops == [] then created else ops[|ops| - 1].at
  }

  lemma {:induction false} RunExplained(ops: seq<Op>, created: Instant, config: Config)
    requires Timed(ops, created)
    ensures Explained(Run(Fresh(created), ops, config), Outcomes(ops), Clock(ops, created), config)
  {
    if ops != [] {
      var before := ops[..|ops| - 1];
      RunExplained(before, created, config);
      NextExplained(Run(Fresh(created), before, config), Outcomes(before), Clock(before, created), ops[|ops| - 1], config);
    }
  }

  /**
   In every timed trace, a step from closed to open is a failure that completes a streak of
   max(threshold, 1) failures, with no other outcome in between, all within one window.
   */
  lemma OpeningNeedsAStreak(ops: seq<Op>, op: Op, created: Instant, config: Config) returns (from: Instant)
    requires Timed(ops + [op], created)
    requires Run(Fresh(created), ops, config).state == Closed
    requires Next(Run(Fresh(created), ops, config), op, config).state == Open
    ensures op.Failure? && Streak(Outcomes(ops) + [op], Limit(config), from, config)
  {
    assert forall i :: 0 <= i < |ops| ==> (ops + [op])[i] == ops[i];
    assert (ops + [op])[|ops|] == op;
    RunExplained(ops, created, config);
    var b := Run(Fresh(created), ops, config);
    FailureExplained(b, Outcomes(ops), Clock(ops, created), op.at, config);
    from := Counted(b, op.at, config).windowStart;
  }

  // ----- Which traces leave the breaker open -----

  /** When counting last started over: at the last success, or at creation. */
  function CountingFrom(ops: seq<Op>, created: Instant): Instant {
    if ops == [] then created
    else if ops[|ops| - 1].Success? then ops[|ops| - 1].at
    else CountingFrom(ops[..|ops| - 1], created)
  }

  /** The failures since then. */
  function FailuresSince(ops: seq<Op>): seq<Instant> {
    if ops == [] then [] else
    match ops[|ops| - 1]
    case Success(_) => []
    case Failure(at) => FailuresSince(ops[..|ops| - 1]) + [at]
    case Allow(_) => FailuresSince(ops[..|ops| - 1])
  }

  /** The start of the window the last of `times` falls into, when windows follow one another from `from`. */
  function WindowOf(times: seq<Instant>, from: Instant, config: Config): Instant {
    if times == [] then from else
    var w := WindowOf(times[..|times| - 1], from, config);
    if times[|times| - 1] > w + config.window then times[|times| - 1] else w
  }

  /** How many of `times` fall into that window. */
  function Tally(times: seq<Instant>, from: Instant, config: Config): nat {
    if times == [] then 0
    else if times[|times| - 1] > WindowOf(times[..|times| - 1], from, config) + config.window then 1
    else Tally(times[..|times| - 1], from, config) + 1
  }

  /** The probe interval has passed since the last failure of `ops`. */
  predicate Elapsed(ops: seq<Op>, now: Instant, config: Config) {
    LastFailure(Outcomes(ops)).Some? && now >= LastFailure(Outcomes(ops)).value + config.probe
  }

  /** Operation `k` is a failure that brings the failures of one window to the limit. */
  predicate TripsAt(ops: seq<Op>, k: nat, created: Instant, config: Config) {
    && k < |ops| && ops[k].Failure?
    && Tally(FailuresSince(ops[..k + 1]), CountingFrom(ops[..k + 1], created), config) >= Limit(config)
  }

  /** Operation `i` is a request late enough to be a probe. */
  predicate ProbesAt(ops: seq<Op>, i: nat, config: Config) {
    i < |ops| && ops[i].Allow? && Elapsed(ops[..i], ops[i].at, config)
  }

  /** A probe is under way: none of the operations since it is a failure. */
  predicate Probing(ops: seq<Op>, config: Config) {
    exists i :: 0 <= i < |ops| && ProbesAt(ops, i, config) && forall j :: i < j < |ops| ==> !ops[j].Failure?
  }

  /** Operation `j` is a success reported while a probe is under way. */
  predicate RecoversAt(ops: seq<Op>, j: nat, config: Config) {
    j < |ops| && ops[j].Success? && Probing(ops[..j], config)
  }

  /** Some failure tripped the breaker, and nothing since has been a recovery. */
  predicate Tripped(ops: seq<Op>, created: Instant, config: Config) {
    exists k :: 0 <= k < |ops| && TripsAt(ops, k, created, config) && forall j :: k < j < |ops| ==> !RecoversAt(ops, j, config)
  }

  /** What has happened at an operation does not depend on what follows it. */
  lemma Earlier(ops: seq<Op>, op: Op, i: nat, created: Instant, config: Config)
    requires i < |ops|
    ensures TripsAt(ops + [op], i, created, config) == TripsAt(ops, i, created, config)
    ensures ProbesAt(ops + [op], i, config) == ProbesAt(ops, i, config)
    ensures RecoversAt(ops + [op], i, config) == RecoversAt(ops, i, config)
  {
    var all := ops + [op];
    assert all[..i + 1] == ops[..i + 1] && all[..i] == ops[..i];
  }

  lemma ProbingStep(ops: seq<Op>, op: Op, created: Instant, config: Config)
    ensures Probing(ops + [op], config)
       <==> (!op.Failure? && Probing(ops, config)) || (op.Allow? && Elapsed(ops, op.at, config))
  {
    var all := ops + [op];
    assert all[..|ops|] == ops && all[|ops|] == op;
    forall i | 0 <= i < |ops| ensures ProbesAt(all, i, config) == ProbesAt(ops, i, config) && all[i] == ops[i] {
      Earlier(ops, op, i, created, config);
    }
    if Probing(all, config) {
      var i :| 0 <= i < |all| && ProbesAt(all, i, config) && forall j :: i < j < |all| ==> !all[j].Failure?;
      if i < |ops| {
        assert !all[|ops|].Failure?;
        assert forall j :: i < j < |ops| ==> ops[j] == all[j];
      }
    }
    if !op.Failure? && Probing(ops, config) {
      var i :| 0 <= i < |ops| && ProbesAt(ops, i, config) && forall j :: i < j < |ops| ==> !ops[j].Failure?;
      assert ProbesAt(all, i, config);
    }
    if op.Allow? && Elapsed(ops, op.at, config) {
      assert ProbesAt(all, |ops|, config);
    }
  }

  lemma TrippedStep(ops: seq<Op>, op: Op, created: Instant, config: Config)
    ensures Tripped(ops + [op], created, config)
       <==> || (Tripped(ops, created, config) && !(op.Success? && Probing(ops, config)))
            || TripsAt(ops + [op], |ops|, created, config)
  {
    var all := ops + [op];
    assert all[..|ops|] == ops && all[|ops|] == op;
    forall i | 0 <= i < |ops|
      ensures TripsAt(all, i, created, config) == TripsAt(ops, i, created, config)
      ensures RecoversAt(all, i, config) == RecoversAt(ops, i, config)
    {
      Earlier(ops, op, i, created, config);
    }
    if Tripped(all, created, config) && !TripsAt(all, |ops|, created, config) {
      var k :| 0 <= k < |all| && TripsAt(all, k, created, config) && forall j :: k < j < |all| ==> !RecoversAt(all, j, config);
      assert TripsAt(ops, k, created, config);
      assert !RecoversAt(all, |ops|, config);
    }
    if Tripped(ops, created, config) && !(op.Success? && Probing(ops, config)) {
      var k :| 0 <= k < |ops| && TripsAt(ops, k, created, config) && forall j :: k < j < |ops| ==> !RecoversAt(ops, j, config);
      assert TripsAt(all, k, created, config) && !RecoversAt(all, |ops|, config);
    }
  }

  /** The breaker's fields, read off the trace. */
  predicate Told(b: Inner, ops: seq<Op>, created: Instant, config: Config) {
    && (b.state != Closed <==> Tripped(ops, created, config))
    && (b.state == HalfOpen <==> Tripped(ops, created, config) && Probing(ops, config))
    && (b.state == Closed ==>
          && b.failures == Tally(FailuresSince(ops), CountingFrom(ops, created), config)
          && b.windowStart == WindowOf(FailuresSince(ops), CountingFrom(ops, created), config))
  }

  lemma TallyStep(ops: seq<Op>, at: Instant, created: Instant, config: Config)
    ensures FailuresSince(ops + [Failure(at)]) == FailuresSince(ops) + [at]
    ensures CountingFrom(ops + [Failure(at)], created) == CountingFrom(ops, created)
    ensures var times, from := FailuresSince(ops), CountingFrom(ops, created);
            var late := at > WindowOf(times, from, config) + config.window;
            && WindowOf(times + [at], from, config) == (if late then at else WindowOf(times, from, config))
            && Tally(times + [at], from, config) == if late then 1 else Tally(times, from, config) + 1
  {
    assert (ops + [Failure(at)])[..|ops|] == ops;
    var times := FailuresSince(ops);
    assert (times + [at])[..|times|] == times;
  }

  lemma FailureTold(b: Inner, ops: seq<Op>, at: Instant, created: Instant, config: Config)
    requires Counting(b, config) && Told(b, ops, created, config)
    ensures Told(Failed(b, at, config), ops + [Failure(at)], created, config)
  {
    var op := Failure(at);
    TallyStep(ops, at, created, config);
    TrippedStep(ops, op, created, config);
    ProbingStep(ops, op, created, config);
    assert (ops + [op])[..|ops| + 1] == ops + [op];
  }

  lemma NextTold(b: Inner, ops: seq<Op>, op: Op, created: Instant, config: Config)
    requires Counting(b, config) && Told(b, ops, created, config)
    requires Explained(b, Outcomes(ops), Clock(ops, created), config)
    ensures Told(Next(b, op, config), ops + [op], created, config)
  {
    assert (ops + [op])[..|ops|] == ops;
    TrippedStep(ops, op, created, config);
    ProbingStep(ops, op, created, config);
    if op.Failure? {
      FailureTold(b, ops, op.at, created, config);
    }
  }

  lemma {:induction false} RunTold(ops: seq<Op>, created: Instant, config: Config)
    requires Timed(ops, created)
    ensures Told(Run(Fresh(created), ops, config), ops, created, config)
  {
    if ops != [] {
      var before := ops[..|ops| - 1];
      RunTold(before, created, config);
      RunExplained(before, created, config);
      assert ops == before + [ops[|ops| - 1]];
      NextTold(Run(Fresh(created), before, config), before, ops[|ops| - 1], created, config);
    }
  }

  /**
   After any trace, a request is allowed exactly when no failure has tripped the breaker since the
   last recovery, or the probe interval has passed since the last recorded failure.
   */
  lemma AllowedIffProbeElapsed(ops: seq<Op>, now: Instant, created: Instant, config: Config)
    requires Timed(ops, created) && Clock(ops, created) <= now
    ensures Allows(Run(Fresh(created), ops, config), now, config)
       <==> !Tripped(ops, created, config) || Elapsed(ops, now, config)
  {
    RunExplained(ops, created, config);
    RunTold(ops, created, config);
  }

  lemma StaysOpen(ops: seq<Op>, op: Op, created: Instant, config: Config)
    requires Timed(ops, created) && !Elapsed(ops, op.at, config)
    requires Run(Fresh(created), ops, config).state == Open
    ensures Run(Fresh(created), ops + [op], config).state == Open
    ensures !Allows(Run(Fresh(created), ops, config), op.at, config)
  {
    RunExplained(ops, created, config);
    assert (ops + [op])[..|ops|] == ops;
  }

  lemma TimedPrefix(ops: seq<Op>, n: nat, created: Instant)
    requires Timed(ops, created) && n <= |ops|
    ensures Timed(ops[..n], created)
  {}

  predicate EarlyAt(ops: seq<Op>, i: nat, config: Config) {
    i < |ops| && !Elapsed(ops[..i], ops[i].at, config)
  }

  /** Each operation from the `n`th comes before the probe interval has passed since the failure before it. */
  predicate TooEarly(ops: seq<Op>, n: nat, config: Config) {
    forall i :: n <= i < |ops| ==> EarlyAt(ops, i, config)
  }

  predicate RefusedAt(ops: seq<Op>, i: nat, created: Instant, config: Config) {
    i < |ops| && !Allows(Run(Fresh(created), ops[..i], config), ops[i].at, config)
  }

  /** Each request from the `n`th operation is refused. */
  predicate Refused(ops: seq<Op>, n: nat, created: Instant, config: Config) {
    forall i :: n <= i < |ops| ==> RefusedAt(ops, i, created, config)
  }

  predicate OpenAfter(ops: seq<Op>, i: nat, created: Instant, config: Config)
    requires i <= |ops|
  {
    Run(Fresh(created), ops[..i], config).state == Open
  }

  lemma StaysOpenAt(ops: seq<Op>, n: nat, i: nat, created: Instant, config: Config)
    requires n <= i < |ops| && Timed(ops, created) && TooEarly(ops, n, config) && OpenAfter(ops, i, created, config)
    ensures OpenAfter(ops, i + 1, created, config) && RefusedAt(ops, i, created, config)
  {
    assert EarlyAt(ops, i, config);
    TimedPrefix(ops, i, created);
    StaysOpen(ops[..i], ops[i], created, config);
    assert ops[..i + 1] == ops[..i] + [ops[i]];
  }

  lemma {:induction false} OpenThrough(ops: seq<Op>, n: nat, i: nat, created: Instant, config: Config)
    requires n <= i <= |ops| && Timed(ops, created) && TooEarly(ops, n, config) && OpenAfter(ops, n, created, config)
    ensures OpenAfter(ops, i, created, config)
    decreases i
  {
    if n < i {
      OpenThrough(ops, n, i - 1, created, config);
      StaysOpenAt(ops, n, i - 1, created, config);
    }
  }

  /**
   Once open, the breaker stays open and refuses every request until the probe interval has passed
   since the last failure, whatever successes and failures are reported meanwhile.
   */
  lemma RefusedUntilProbe(ops: seq<Op>, n: nat, created: Instant, config: Config)
    requires n <= |ops| && Timed(ops, created) && TooEarly(ops, n, config)
    requires OpenAfter(ops, n, created, config)
    ensures OpenAfter(ops, |ops|, created, config) && Refused(ops, n, created, config)
  {
    OpenThrough(ops, n, |ops|, created, config);
    forall i | n <= i < |ops| ensures RefusedAt(ops, i, created, config) {
      OpenThrough(ops, n, i, created, config);
      StaysOpenAt(ops, n, i, created, config);
    }
  }

  // ----- How close the window comes to sliding -----

  function Burst(b: Inner, times: seq<Instant>, config: Config): (after: Inner)
    requires Counting(b, config)
    ensures Counting(after, config)
    decreases times
  {
    if times == [] then b else Burst(Failed(b, times[0], config), times[1..], config)
  }

  predicate Rising(times: seq<Instant>) {
    forall i, j :: 0 <= i < j < |times| ==> times[i] <= times[j]
  }

  /** How many of the times fall into the window that is current in `b`. */
  function InWindow(b: Inner, times: seq<Instant>, config: Config): nat {
    if times == [] || times[0] > b.windowStart + config.window then 0 else 1 + InWindow(b, times[1..], config)
  }

  lemma {:induction false} OpenStaysOpen(b: Inner, times: seq<Instant>, config: Config)
    requires b.state == Open
    ensures Burst(b, times, config).state == Open
    decreases times
  {
    if times != [] { OpenStaysOpen(Failed(b, times[0], config), times[1..], config); }
  }

  /** While the window lasts, failures add up. */
  lemma {:induction false} BurstInWindow(b: Inner, times: seq<Instant>, config: Config)
    requires Counting(b, config) && b.state == Closed
    requires forall i :: 0 <= i < |times| ==> times[i] <= b.windowStart + config.window
    ensures Burst(b, times, config).state == Open <==> b.failures + |times| >= Limit(config)
    decreases times
  {
    if times != [] {
      var c := Failed(b, times[0], config);
      if c.state == Open {
        OpenStaysOpen(c, times[1..], config);
      } else {
        BurstInWindow(c, times[1..], config);
      }
    }
  }

  /** A burst that starts after the window has expired is counted from its own start. */
  lemma BurstAfterWindow(b: Inner, times: seq<Instant>, config: Config)
    requires Counting(b, config) && b.state == Closed && times != [] && Rising(times)
    requires times[0] > b.windowStart + config.window && times[|times| - 1] <= times[0] + config.window
    ensures Burst(b, times, config).state == Open <==> |times| >= Limit(config)
  {
    var c := Failed(b, times[0], config);
    if c.state == Open {
      OpenStaysOpen(c, times[1..], config);
    } else {
      BurstInWindow(c, times[1..], config);
    }
  }

  /**
   The documentation calls the window sliding, but it starts afresh when it expires: a burst of
   failures no longer than one window opens a closed breaker exactly when the part of it inside
   the running window, added to the count so far, or the part after that window reaches the limit.
   */
  lemma {:induction false} BurstOpensIff(b: Inner, times: seq<Instant>, config: Config, n: nat)
    requires Counting(b, config) && b.state == Closed
    requires times != [] && Rising(times) && times[|times| - 1] <= times[0] + config.window
    requires n == InWindow(b, times, config)
    ensures Burst(b, times, config).state == Open
       <==> b.failures + n >= Limit(config) || |times| - n >= Limit(config)
    decreases times
  {
    if n == 0 {
      BurstAfterWindow(b, times, config);
    } else {
      var c := Failed(b, times[0], config);
      if c.state == Open {
        OpenStaysOpen(c, times[1..], config);
      } else if |times| == 1 {
        assert Burst(c, times[1..], config) == c;
      } else {
        assert InWindow(c, times[1..], config) == n - 1 by { SameWindow(b, c, times[1..], config); }
        BurstOpensIff(c, times[1..], config, n - 1);
      }
    }
  }

  lemma {:induction false} SameWindow(b: Inner, c: Inner, times: seq<Instant>, config: Config)
    requires b.windowStart == c.windowStart
    ensures InWindow(b, times, config) == InWindow(c, times, config)
    decreases times
  {
    if times != [] { SameWindow(b, c, times[1..], config); }
  }

  /** Three failures in two ticks, a window of ten, and the breaker stays closed. */
  lemma WindowDoesNotSlide()
    ensures var config := Config(3, 10, 30);
            Burst(Inner(Closed, 0, 0, None), [10, 11, 12], config).state == Closed
  {
    var config := Config(3, 10, 30);
    var b := Inner(Closed, 0, 0, None);
    assert [10, 11, 12][1..] == [11, 12] && [11, 12][1..] == [12];
    assert InWindow(b, [11, 12], config) == 0;
    BurstOpensIff(b, [10, 11, 12], config, 1);
  }
}
