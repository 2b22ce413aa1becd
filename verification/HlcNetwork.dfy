/**
 Any number of hybrid logical clocks, exchanging timestamps over an unreliable network, with
 physical clocks that may step backwards, peers that forge timestamps, and restarts from a
 persisted checkpoint.
 */
module HlcNetwork {
  import opened Prelude
  import opened Hlc

  /** One issued timestamp, the reading it was issued at, and the index of the logged event a receive observed. */
  datatype Event = Event(node: NodeId, ts: Timestamp, now: u64, cause: Option<nat>)

  datatype Step =
    | Send(node: NodeId, now: u64)
    | Deliver(node: NodeId, now: u64, from: nat)
    | Forge(node: NodeId, now: u64, observed: Timestamp)
    | Restart(node: NodeId, now: u64, checkpoint: Option<Timestamp>)

  /** Clocks are keyed by node id, so ids are distinct; `log` lists what was issued, in order. */
  datatype Network = Network(clocks: map<NodeId, Timestamp>, log: seq<Event>)

  /** The clock `new_seeded` builds, or `new` when there is no checkpoint to load. */
  function SeedTicks(now: u64, checkpoint: Option<Timestamp>): nat {
    match checkpoint
    case Some(c) => Max(c.Ticks(), Reading(now))
    case None => Reading(now)
  }

  function Issue(net: Network, node: NodeId, now: u64, ticks: nat, cause: Option<nat>): Network {
    var ts := AtTicks(ticks, node);
    Network(net.clocks[node := ts], net.log + [Event(node, ts, now, cause)])
  }

  /** A receive rejected for skew leaves the network as it was. */
  function Observe(net: Network, node: NodeId, now: u64, observed: Timestamp, cause: Option<nat>): Network
    requires node in net.clocks
  {
    if SkewExceeded(now, observed, DEFAULT_MAX_CLOCK_SKEW_MS) then net
    else Issue(net, node, now, ReceivedTicks(net.clocks[node], now, observed), cause)
  }

  function Next(net: Network, step: Step): Network {
    if step.node !in net.clocks then net else
    match step
    case Send(node, now) => Issue(net, node, now, SentTicks(net.clocks[node], now), None)
    case Deliver(node, now, from) =>
      if from < |net.log| then Observe(net, node, now, net.log[from].ts, Some(from)) else net
    case Forge(node, now, observed) => Observe(net, node, now, observed, None)
    case Restart(node, now, checkpoint) =>
      net.(clocks := net.clocks[node := AtTicks(SeedTicks(now, checkpoint), node)])
  }

  function Run(net: Network, steps: seq<Step>): Network
    decreases steps
  {
    if steps == [] then net else Run(Next(net, steps[0]), steps[1..])
  }

  /** Fresh clocks whose wall time is at most `w0`, nothing issued yet. */
  predicate Initial(net: Network, w0: u64) {
    && net.log == []
    && forall n :: n in net.clocks ==> net.clocks[n].node == n && net.clocks[n].wall <= w0
  }

  /**
   A restart is sound when the checkpoint is an earlier value of the node's own clock and the
   seed does not fall behind what the node has issued.
   */
  predicate SoundRestart(net: Network, step: Step) {
    step.Restart? && step.node in net.clocks ==>
      && (step.checkpoint.Some? ==> step.checkpoint.value.Ticks() <= net.clocks[step.node].Ticks())
      && net.clocks[step.node].Ticks() <= SeedTicks(step.now, step.checkpoint)
  }

  /** No physical reading of the run exceeds `maxNow`, and every restart is sound. */
  predicate Sound(net: Network, steps: seq<Step>, maxNow: u64)
    decreases steps
  {
    steps == [] || (steps[0].now <= maxNow && SoundRestart(net, steps[0]) && Sound(Next(net, steps[0]), steps[1..], maxNow))
  }

  /** The wall time no clock exceeds by more than the counter's carries. */
  function Ceiling(w0: u64, maxNow: u64): nat {
    Max(w0, maxNow + DEFAULT_MAX_CLOCK_SKEW_MS)
  }

  /** Every clock is within `n` ticks of the end of the ceiling's millisecond. */
  predicate Drift(net: Network, ceiling: nat, n: nat) {
    forall k :: k in net.clocks ==> net.clocks[k].Ticks() <= (ceiling + 1) * TICKS_PER_MS + n
  }

  /** What a restart needs for drift alone: no checkpoint beyond the bound. */
  predicate CheckpointWithin(net: Network, step: Step, limit: nat) {
    step.Restart? && step.node in net.clocks && step.checkpoint.Some? ==> step.checkpoint.value.Ticks() <= limit
  }

  lemma DriftStep(net: Network, step: Step, w0: u64, maxNow: u64, n: nat)
    requires Drift(net, Ceiling(w0, maxNow), n) && step.now <= maxNow
    requires CheckpointWithin(net, step, (Ceiling(w0, maxNow) + 1) * TICKS_PER_MS + n)
    ensures Drift(Next(net, step), Ceiling(w0, maxNow), n + 1)
  {
    if step.node in net.clocks {
      var bound := (Ceiling(w0, maxNow) + 1) * TICKS_PER_MS;
      var last := net.clocks[step.node];
      assert SentTicks(last, step.now) <= bound + n + 1;
      forall observed: Timestamp | !SkewExceeded(step.now, observed, DEFAULT_MAX_CLOCK_SKEW_MS)
        ensures ReceivedTicks(last, step.now, observed) <= bound + n + 1
      {
        assert observed.wall <= Ceiling(w0, maxNow);
      }
    }
  }

  /** `t` is not beyond what some clock has shown so far. */
  predicate Remembered(past: set<Timestamp>, t: Timestamp) {
    exists p :: p in past && t.Ticks() <= p.Ticks()
  }

  /**
   No physical reading of the run exceeds `maxNow`, and checkpoints are what clocks have shown,
   however long ago: restarts may be stale, lose their checkpoint or go back and forth.
   */
  predicate Plausible(net: Network, past: set<Timestamp>, steps: seq<Step>, maxNow: u64)
    decreases steps
  {
    steps == [] ||
    (&& steps[0].now <= maxNow
     && (steps[0].Restart? && steps[0].node in net.clocks && steps[0].checkpoint.Some? ==> Remembered(past, steps[0].checkpoint.value))
     && Plausible(Next(net, steps[0]), past + Next(net, steps[0]).clocks.Values, steps[1..], maxNow))
  }

  predicate PastWithin(past: set<Timestamp>, limit: nat) {
    forall p :: p in past ==> p.Ticks() <= limit
  }

  lemma ValuesWithin(net: Network, ceiling: nat, n: nat)
    requires Drift(net, ceiling, n)
    ensures PastWithin(net.clocks.Values, (ceiling + 1) * TICKS_PER_MS + n)
  {}

  lemma {:induction false} DriftRun(net: Network, past: set<Timestamp>, steps: seq<Step>, w0: u64, maxNow: u64, n: nat)
    requires Drift(net, Ceiling(w0, maxNow), n) && PastWithin(past, (Ceiling(w0, maxNow) + 1) * TICKS_PER_MS + n)
    requires Plausible(net, past, steps, maxNow)
    ensures Drift(Run(net, steps), Ceiling(w0, maxNow), n + |steps|)
    decreases steps
  {
    if steps != [] {
      var after := Next(net, steps[0]);
      DriftStep(net, steps[0], w0, maxNow, n);
      ValuesWithin(after, Ceiling(w0, maxNow), n + 1);
      DriftRun(after, past + after.clocks.Values, steps[1..], w0, maxNow, n + 1);
    }
  }

  /**
   Drift is bounded: whatever peers send (a counter of u32::MAX included) and however stale the
   checkpoints, after a run of n steps no wall time exceeds the largest of the starting walls and
   the readings plus the allowed skew by more than 1 + n / 2^32.
   */
  lemma DriftIsBounded(net: Network, steps: seq<Step>, w0: u64, maxNow: u64, k: NodeId)
    requires Initial(net, w0) && Plausible(net, net.clocks.Values, steps, maxNow)
    requires k in Run(net, steps).clocks
    ensures Run(net, steps).clocks[k].wall <= Ceiling(w0, maxNow) + 1 + |steps| / TICKS_PER_MS
  {
    ValuesWithin(net, Ceiling(w0, maxNow), 0);
    DriftRun(net, net.clocks.Values, steps, w0, maxNow, 0);
  }

  /** Runs whose restarts are sound are among those. */
  lemma {:induction false} SoundIsPlausible(net: Network, past: set<Timestamp>, steps: seq<Step>, maxNow: u64)
    requires Sound(net, steps, maxNow) && net.clocks.Values <= past
    ensures Plausible(net, past, steps, maxNow)
    decreases steps
  {
    if steps != [] {
      var step := steps[0];
      assert step.node in net.clocks ==> net.clocks[step.node] in past;
      SoundIsPlausible(Next(net, step), past + Next(net, step).clocks.Values, steps[1..], maxNow);
    }
  }

  /** The bound of `DriftIsBounded` is a 64-bit number. */
  predicate Fits(w0: u64, maxNow: u64, n: nat) {
    Ceiling(w0, maxNow) + 1 + n / TICKS_PER_MS <= U64_MAX
  }

  /** Whether a step makes its node issue a timestamp: a receive does within five seconds of skew. */
  predicate Issues(net: Network, step: Step) {
    step.node in net.clocks &&
    match step
    case Send(_, _) => true
    case Deliver(_, now, from) => from < |net.log| && net.log[from].ts.wall <= now + 5_000
    case Forge(_, now, observed) => observed.wall <= now + 5_000
    case Restart(_, _, _) => false
  }

  /** A step logs one event of its node, at its reading, or leaves the log as it is. */
  lemma StepIssuesIff(net: Network, step: Step)
    ensures Issues(net, step) ==>
              var log := Next(net, step).log;
              |log| == |net.log| + 1 && log[..|net.log|] == net.log && log[|net.log|].node == step.node && log[|net.log|].now == step.now
    ensures !Issues(net, step) ==> Next(net, step).log == net.log
  {}

  /** No event carries a wall time before the reading it was issued at. */
  predicate OnTime(net: Network) {
    forall i :: 0 <= i < |net.log| ==> net.log[i].ts.wall >= net.log[i].now
  }

  lemma IssueOnTime(net: Network, node: NodeId, now: u64, ticks: nat, cause: Option<nat>)
    requires OnTime(net) && Reading(now) <= ticks < TICK_LIMIT
    ensures OnTime(Issue(net, node, now, ticks, cause))
  {
    ReadingIsTicks(AtTicks(ticks, node), now);
  }

  lemma OnTimeStep(net: Network, step: Step, w0: u64, maxNow: u64, n: nat)
    requires OnTime(net) && Drift(net, Ceiling(w0, maxNow), n) && Fits(w0, maxNow, n + 1) && step.now <= maxNow
    ensures OnTime(Next(net, step))
  {
    if step.node in net.clocks {
      var last := net.clocks[step.node];
      var bound := (Ceiling(w0, maxNow) + 1) * TICKS_PER_MS;
      assert bound + n + 1 < TICK_LIMIT && SentTicks(last, step.now) <= bound + n + 1;
      match step
      case Send(node, now) => IssueOnTime(net, node, now, SentTicks(last, now), None);
      case Deliver(node, now, from) =>
        if from < |net.log| && !SkewExceeded(now, net.log[from].ts, DEFAULT_MAX_CLOCK_SKEW_MS) {
          IssueOnTime(net, node, now, ReceivedTicks(last, now, net.log[from].ts), Some(from));
        }
      case Forge(node, now, observed) =>
        if !SkewExceeded(now, observed, DEFAULT_MAX_CLOCK_SKEW_MS) {
          IssueOnTime(net, node, now, ReceivedTicks(last, now, observed), None);
        }
      case Restart(node, now, checkpoint) =>
    }
  }

  lemma {:induction false} OnTimeRun(net: Network, past: set<Timestamp>, steps: seq<Step>, w0: u64, maxNow: u64, n: nat)
    requires OnTime(net) && Drift(net, Ceiling(w0, maxNow), n) && PastWithin(past, (Ceiling(w0, maxNow) + 1) * TICKS_PER_MS + n)
    requires Plausible(net, past, steps, maxNow) && Fits(w0, maxNow, n + |steps|)
    ensures OnTime(Run(net, steps))
    decreases steps
  {
    if steps != [] {
      var after := Next(net, steps[0]);
      OnTimeStep(net, steps[0], w0, maxNow, n);
      DriftStep(net, steps[0], w0, maxNow, n);
      ValuesWithin(after, Ceiling(w0, maxNow), n + 1);
      OnTimeRun(after, past + after.clocks.Values, steps[1..], w0, maxNow, n + 1);
    }
  }

  /**
   The other side of the drift bound: over every run that fits 64 bits, stale restarts included, a
   timestamp is never behind the physical reading it was issued at.
   */
  lemma TimestampsKeepUp(net: Network, steps: seq<Step>, w0: u64, maxNow: u64, i: nat)
    requires Initial(net, w0) && Plausible(net, net.clocks.Values, steps, maxNow) && Fits(w0, maxNow, |steps|)
    requires i < |Run(net, steps).log|
    ensures Run(net, steps).log[i].ts.wall >= Run(net, steps).log[i].now
  {
    ValuesWithin(net, Ceiling(w0, maxNow), 0);
    OnTimeRun(net, net.clocks.Values, steps, w0, maxNow, 0);
  }

  /** The clock of an event's node has not fallen behind the event. */
  predicate Dominated(net: Network, e: Event) {
    e.node in net.clocks && e.ts.node == e.node && e.ts.Ticks() <= net.clocks[e.node].Ticks()
  }

  predicate Ascending(a: Event, b: Event) {
    a.node == b.node ==> a.ts.Ticks() < b.ts.Ticks()
  }

  /** The cause of event `i` is an earlier event with a smaller timestamp. */
  predicate Caused(log: seq<Event>, i: nat)
    requires i < |log|
  {
    log[i].cause.Some? ==> log[i].cause.value < i && log[log[i].cause.value].ts.Ticks() < log[i].ts.Ticks()
  }

  /** What every step keeps: clocks dominate what they issued, and causes precede their effects. */
  predicate Causal(net: Network) {
    && (forall n :: n in net.clocks ==> net.clocks[n].node == n)
    && (forall i :: 0 <= i < |net.log| ==> Dominated(net, net.log[i]))
    && (forall i, j :: 0 <= i < j < |net.log| ==> Ascending(net.log[i], net.log[j]))
    && (forall i :: 0 <= i < |net.log| ==> Caused(net.log, i))
  }

  lemma IssueKeepsCausal(net: Network, node: NodeId, now: u64, ticks: nat, cause: Option<nat>)
    requires Causal(net) && node in net.clocks
    requires net.clocks[node].Ticks() < ticks < TICK_LIMIT
    requires cause.Some? ==> cause.value < |net.log| && net.log[cause.value].ts.Ticks() < ticks
    ensures Causal(Issue(net, node, now, ticks, cause))
  {
    var after := Issue(net, node, now, ticks, cause);
    forall i | 0 <= i < |after.log|
      ensures Dominated(after, after.log[i]) && Caused(after.log, i)
    {
      assert i < |net.log| ==> Dominated(net, net.log[i]) && Caused(net.log, i);
    }
    forall i, j | 0 <= i < j < |after.log|
      ensures Ascending(after.log[i], after.log[j])
    {
      assert Dominated(net, net.log[i]);
      assert j < |net.log| ==> Ascending(net.log[i], net.log[j]);
    }
  }

  lemma CausalStep(net: Network, step: Step, w0: u64, maxNow: u64, n: nat)
    requires Causal(net) && Drift(net, Ceiling(w0, maxNow), n) && Fits(w0, maxNow, n + 1)
    requires step.now <= maxNow && SoundRestart(net, step)
    ensures Causal(Next(net, step))
  {
    if step.node in net.clocks {
      var last := net.clocks[step.node];
      var bound := (Ceiling(w0, maxNow) + 1) * TICKS_PER_MS;
      assert bound + n + 1 < TICK_LIMIT && SentTicks(last, step.now) <= bound + n + 1;
      match step
      case Send(node, now) =>
        IssueKeepsCausal(net, node, now, SentTicks(last, now), None);
      case Deliver(node, now, from) =>
        assert from < |net.log| ==> Dominated(net, net.log[from]);
        if from < |net.log| && !SkewExceeded(now, net.log[from].ts, DEFAULT_MAX_CLOCK_SKEW_MS) {
          IssueKeepsCausal(net, node, now, ReceivedTicks(last, now, net.log[from].ts), Some(from));
        }
      case Forge(node, now, observed) =>
        if !SkewExceeded(now, observed, DEFAULT_MAX_CLOCK_SKEW_MS) {
          IssueKeepsCausal(net, node, now, ReceivedTicks(last, now, observed), None);
        }
      case Restart(node, now, checkpoint) =>
        forall i | 0 <= i < |net.log| ensures Dominated(Next(net, step), net.log[i]) {
          assert Dominated(net, net.log[i]);
        }
    }
  }

  lemma {:induction false} CausalRun(net: Network, steps: seq<Step>, w0: u64, maxNow: u64, n: nat)
    requires Causal(net) && Drift(net, Ceiling(w0, maxNow), n)
    requires Sound(net, steps, maxNow) && Fits(w0, maxNow, n + |steps|)
    ensures Causal(Run(net, steps))
    decreases steps
  {
    if steps != [] {
      CausalStep(net, steps[0], w0, maxNow, n);
      DriftStep(net, steps[0], w0, maxNow, n);
      CausalRun(Next(net, steps[0]), steps[1..], w0, maxNow, n + 1);
    }
  }

  /** Program order on one node, or the delivery of a message. */
  predicate Precedes(log: seq<Event>, i: nat, j: nat) {
    && i < |log| && j < |log|
    && ((i < j && log[i].node == log[j].node) || log[j].cause == Some(i))
  }

  /** A chain of program-order and delivery edges through the events listed in `path`. */
  predicate Chain(log: seq<Event>, path: seq<nat>) {
    |path| >= 2 && forall k :: 0 < k < |path| ==> Precedes(log, path[k - 1], path[k])
  }

  ghost predicate HappensBefore(log: seq<Event>, i: nat, j: nat) {
    exists path :: Chain(log, path) && path[0] == i && path[|path| - 1] == j
  }

  lemma {:induction false} ChainAscends(net: Network, path: seq<nat>)
    requires Causal(net) && Chain(net.log, path)
    ensures path[0] < |net.log| && path[|path| - 1] < |net.log|
    ensures net.log[path[0]].ts.Ticks() < net.log[path[|path| - 1]].ts.Ticks()
  {
    var m := |path| - 1;
    assert Precedes(net.log, path[m - 1], path[m]) && Caused(net.log, path[m]);
    if m > 1 {
      forall k | 0 < k < m ensures Precedes(net.log, path[..m][k - 1], path[..m][k]) {
        assert Precedes(net.log, path[k - 1], path[k]);
      }
      ChainAscends(net, path[..m]);
    }
  }

  /**
   Over every sound run that stays within 64 bits, a timestamp that happened before another is
   strictly smaller, and no two events carry the same timestamp: the derived order is a total
   order of the log that extends causality.
   */
  lemma TimestampsExtendCausality(net: Network, steps: seq<Step>, w0: u64, maxNow: u64, i: nat, j: nat)
    requires Initial(net, w0) && Sound(net, steps, maxNow) && Fits(w0, maxNow, |steps|)
    requires i < |Run(net, steps).log| && j < |Run(net, steps).log|
    ensures HappensBefore(Run(net, steps).log, i, j) ==> Run(net, steps).log[i].ts.Less(Run(net, steps).log[j].ts)
    ensures i != j ==> Run(net, steps).log[i].ts != Run(net, steps).log[j].ts
    ensures i != j ==> Run(net, steps).log[i].ts.Less(Run(net, steps).log[j].ts) || Run(net, steps).log[j].ts.Less(Run(net, steps).log[i].ts)
  {
    CausalRun(net, steps, w0, maxNow, 0);
    var end := Run(net, steps);
    OrderIsTicksThenNode(end.log[i].ts, end.log[j].ts);
    if HappensBefore(end.log, i, j) {
      var path :| Chain(end.log, path) && path[0] == i && path[|path| - 1] == j;
      ChainAscends(end, path);
    }
    OrderIsStrictAndTotal(end.log[i].ts, end.log[j].ts, end.log[j].ts);
  }

  /** Across any number of restarts, the timestamps of one node are strictly increasing. */
  lemma LifetimeIsMonotone(net: Network, steps: seq<Step>, w0: u64, maxNow: u64, i: nat, j: nat)
    requires Initial(net, w0) && Sound(net, steps, maxNow) && Fits(w0, maxNow, |steps|)
    requires i < j < |Run(net, steps).log| && Run(net, steps).log[i].node == Run(net, steps).log[j].node
    ensures Run(net, steps).log[i].ts.Less(Run(net, steps).log[j].ts)
  {
    CausalRun(net, steps, w0, maxNow, 0);
    OrderIsTicksThenNode(Run(net, steps).log[i].ts, Run(net, steps).log[j].ts);
  }

  /** Persisting `last_timestamp` makes any restart sound, wherever the physical clock has moved. */
  lemma LatestCheckpointIsSound(net: Network, node: NodeId, now: u64)
    requires node in net.clocks
    ensures SoundRestart(net, Restart(node, now, Some(net.clocks[node])))
  {}

  /** The first timestamp a node issues after a restart. */
  function FirstAfterRestart(node: NodeId, now: u64, checkpoint: Timestamp, later: u64): Timestamp {
    AtTicks(SentTicks(AtTicks(SeedTicks(now, Some(checkpoint)), node), later), node)
  }

  lemma FirstAfterRestartTicks(last: Timestamp, now: u64, checkpoint: Timestamp, later: u64)
    requires checkpoint.Ticks() <= last.Ticks() < TICK_LIMIT - 1
    ensures FirstAfterRestart(last.node, now, checkpoint, later).Ticks() == Max(SeedTicks(now, Some(checkpoint)) + 1, Reading(later))
    ensures last.Less(FirstAfterRestart(last.node, now, checkpoint, later))
       <==> last.Ticks() < FirstAfterRestart(last.node, now, checkpoint, later).Ticks()
  {
    OrderIsTicksThenNode(last, FirstAfterRestart(last.node, now, checkpoint, later));
    if LexLess(last.node, last.node) { LexAsymmetric(last.node, last.node); }
  }

  /**
   With an older checkpoint (crates/transit/src/main.rs saves one every 30 seconds) the first
   timestamp after the restart exceeds the last one issued, for every later reading, exactly when
   the checkpoint is the last one issued or the clock at start-up has already passed it.
   */
  lemma RestartIsMonotoneIff(last: Timestamp, now: u64, checkpoint: Timestamp)
    requires checkpoint.Ticks() <= last.Ticks() < TICK_LIMIT - 1
    ensures (forall later: u64 :: last.Less(FirstAfterRestart(last.node, now, checkpoint, later)))
       <==> checkpoint.Ticks() == last.Ticks() || now > last.wall || (now == last.wall && last.logical == 0)
  {
    assert Reading(now) >= last.Ticks() <==> now > last.wall || (now == last.wall && last.logical == 0);
    forall later: u64
      ensures SeedTicks(now, Some(checkpoint)) >= last.Ticks() ==> last.Less(FirstAfterRestart(last.node, now, checkpoint, later))
    {
      FirstAfterRestartTicks(last, now, checkpoint, later);
    }
    FirstAfterRestartTicks(last, now, checkpoint, 0);
    assert SeedTicks(now, Some(checkpoint)) < last.Ticks() ==> !last.Less(FirstAfterRestart(last.node, now, checkpoint, 0));
  }

  /** A stale checkpoint and a clock stepped back: the node issues a smaller timestamp than before. */
  lemma StaleCheckpointRegresses(node: NodeId)
    ensures FirstAfterRestart(node, 1_500, Timestamp(1_000, 1, node), 1_500).Less(Timestamp(2_000, 0, node))
  {
    FirstAfterRestartTicks(Timestamp(2_000, 0, node), 1_500, Timestamp(1_000, 1, node), 1_500);
    OrderIsTicksThenNode(FirstAfterRestart(node, 1_500, Timestamp(1_000, 1, node), 1_500), Timestamp(2_000, 0, node));
  }
}
