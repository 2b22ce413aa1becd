/**
 The batching audit logger of crates/core/src/audit.rs: callers feed a bounded channel, a task
 moves events to a buffer and writes the buffer in one transaction, and any step of the
 transaction may fail. Callers interleave with the task at every step.
 */
module Audit {
  import opened Prelude

  const AUDIT_CHANNEL_CAPACITY := 1000
  const CHUNK_SIZE := 333

  type Event = string

  /** An event on its way to the database, with the number of the `log` call that sent it. */
  datatype Entry = Entry(ticket: nat, event: Event)

  /** Where the task is; `last` marks the flush before the task ends. */
  datatype Phase =
    | Idle
    | Starting(last: bool)
    | Inserting(staged: nat, last: bool)
    | Stopped

  /** `logged`, `refused` and `discarded` record what was logged and what became of the lost events. */
  datatype State = State(
    channel: seq<Entry>,
    open: bool,
    buffer: seq<Entry>,
    phase: Phase,
    rows: seq<Entry>,
    dropped: u64,
    logged: seq<Event>,
    refused: seq<Entry>,
    discarded: seq<Entry>)

  datatype Step =
    | Log(event: Event)
    | Close
    | Receive
    | Tick
    | Begin(ok: bool)
    | Insert(ok: bool)
    | Commit(ok: bool)

  function AddDropped(dropped: u64, n: nat): u64 {
    (dropped + n) % 0x1_0000_0000_0000_0000
  }

  /** `try_send`: a full or closed channel drops the event and counts it. */
  function Logged(s: State, event: Event): State {
    var e := Entry(|s.logged|, event);
    var s' := s.(logged := s.logged + [event]);
    if s.open && |s.channel| < AUDIT_CHANNEL_CAPACITY then s'.(channel := s.channel + [e])
    else s'.(dropped := AddDropped(s.dropped, 1), refused := s.refused + [e])
  }

  /** The next event, or the end of a closed and drained channel. */
  function Received(s: State, batch: nat): State {
    if s.channel != [] then
      var buffer := s.buffer + [s.channel[0]];
      s.(channel := s.channel[1..], buffer := buffer, phase := if |buffer| >= batch then Starting(false) else Idle)
    else if s.open then s
    else s.(phase := if s.buffer != [] then Starting(true) else Stopped)
  }

  function Resume(last: bool): Phase {
    if last then Stopped else Idle
  }

  /** A failed transaction loses the whole buffer, whatever was inserted before. */
  function Discard(s: State, last: bool): State {
    s.(buffer := [], phase := Resume(last), dropped := AddDropped(s.dropped, |s.buffer|), discarded := s.discarded + s.buffer)
  }

  function Next(s: State, step: Step, batch: nat): State {
    match step
    case Log(event) => Logged(s, event)
    case Close => s.(open := false)
    case Receive => if s.phase == Idle then Received(s, batch) else s
    case Tick => if s.phase == Idle && s.buffer != [] then s.(phase := Starting(false)) else s
    case Begin(ok) =>
      if !s.phase.Starting? then s
      else if ok then s.(phase := Inserting(0, s.phase.last)) else Discard(s, s.phase.last)
    case Insert(ok) =>
      if !s.phase.Inserting? || s.phase.staged >= |s.buffer| then s
      else if ok then s.(phase := Inserting(Min(s.phase.staged + CHUNK_SIZE, |s.buffer|), s.phase.last))
      else Discard(s, s.phase.last)
    case Commit(ok) =>
      if !s.phase.Inserting? || s.phase.staged < |s.buffer| then s
      else if ok then s.(rows := s.rows + s.buffer, buffer := [], phase := Resume(s.phase.last))
      else Discard(s, s.phase.last)
  }

  /** A step of a transaction that fails. */
  predicate Fails(s: State, step: Step) {
    || (step == Begin(false) && s.phase.Starting?)
    || (step == Insert(false) && s.phase.Inserting? && s.phase.staged < |s.buffer|)
    || (step == Commit(false) && s.phase.Inserting? && s.phase.staged >= |s.buffer|)
  }

  function Run(s: State, steps: seq<Step>, batch: nat): State
    decreases steps
  {
    if steps == [] then s else Run(Next(s, steps[0], batch), steps[1..], batch)
  }

  const START := State([], true, [], Idle, [], 0, [], [], [])

  // ----- Conservation -----

  /** Everything still on its way or written, oldest first. */
  function Pipeline(s: State): seq<Entry> {
    s.rows + s.buffer + s.channel
  }

  /** In the order of the `log` calls, each entry carrying what was logged. */
  predicate InOrder(es: seq<Entry>, logged: seq<Event>) {
    && (forall i :: 0 <= i < |es| ==> es[i].ticket < |logged| && es[i].event == logged[es[i].ticket])
    && (forall i, j :: 0 <= i < j < |es| ==> es[i].ticket < es[j].ticket)
  }

  /** Everything that was logged, numbered. */
  function Numbered(logged: seq<Event>): seq<Entry> {
    seq(|logged|, i requires 0 <= i < |logged| => Entry(i, logged[i]))
  }

  /** The places an event can be in, as one multiset. */
  function Everywhere(s: State): multiset<Entry> {
    multiset(Pipeline(s)) + multiset(s.refused) + multiset(s.discarded)
  }

  /** Each logged event is in exactly one place. */
  predicate Conserved(s: State) {
    && Everywhere(s) == multiset(Numbered(s.logged))
    && InOrder(Pipeline(s), s.logged)
    && s.dropped == (|s.refused| + |s.discarded|) % 0x1_0000_0000_0000_0000
  }

  /** The task keeps its buffer within the batch size, and flushes only what it has. */
  predicate Bounded(s: State, batch: nat) {
    && |s.channel| <= AUDIT_CHANNEL_CAPACITY
    && |s.buffer| <= Max(batch, 1)
    && (s.phase.Idle? ==> |s.buffer| < Max(batch, 1))
    && (s.phase.Starting? ==> s.buffer != [])
    && (s.phase.Inserting? ==> s.buffer != [] && s.phase.staged <= |s.buffer|)
    && ((s.phase.Starting? || s.phase.Inserting?) && s.phase.last ==> s.channel == [] && !s.open)
    && (s.phase.Stopped? ==> s.buffer == [] && s.channel == [] && !s.open)
  }

  lemma NumberedAppend(logged: seq<Event>, event: Event)
    ensures Numbered(logged + [event]) == Numbered(logged) + [Entry(|logged|, event)]
  {}

  lemma InOrderAppend(es: seq<Entry>, logged: seq<Event>, event: Event)
    requires InOrder(es, logged)
    ensures InOrder(es, logged + [event]) && InOrder(es + [Entry(|logged|, event)], logged + [event])
  {}

  lemma AcceptedEverywhere(s: State, e: Entry)
    ensures var after := s.(channel := s.channel + [e]);
            Pipeline(after) == Pipeline(s) + [e] && multiset(Pipeline(after)) == multiset(Pipeline(s)) + multiset{e}
  {
    var after := s.(channel := s.channel + [e]);
    assert Pipeline(after) == Pipeline(s) + [e];
    assert multiset(Pipeline(s) + [e]) == multiset(Pipeline(s)) + multiset{e};
  }

  lemma RefusedEverywhere(s: State, e: Entry)
    ensures multiset(Pipeline(s)) + multiset(s.refused + [e]) + multiset(s.discarded) == Everywhere(s) + multiset{e}
  {
    assert multiset(s.refused + [e]) == multiset(s.refused) + multiset{e};
  }

  lemma LoggedEverywhere(s: State, event: Event)
    ensures Everywhere(Logged(s, event)) == Everywhere(s) + multiset{Entry(|s.logged|, event)}
  {
    var e := Entry(|s.logged|, event);
    if s.open && |s.channel| < AUDIT_CHANNEL_CAPACITY {
      AcceptedEverywhere(s, e);
    } else {
      RefusedEverywhere(s, e);
    }
  }

  lemma LoggedInOrder(s: State, event: Event)
    requires InOrder(Pipeline(s), s.logged)
    ensures InOrder(Pipeline(Logged(s, event)), s.logged + [event])
  {
    InOrderAppend(Pipeline(s), s.logged, event);
    if s.open && |s.channel| < AUDIT_CHANNEL_CAPACITY {
      assert Pipeline(Logged(s, event)) == Pipeline(s) + [Entry(|s.logged|, event)];
    }
  }

  lemma LoggedDropped(s: State, event: Event)
    requires s.dropped == (|s.refused| + |s.discarded|) % 0x1_0000_0000_0000_0000
    ensures var after := Logged(s, event); after.dropped == (|after.refused| + |after.discarded|) % 0x1_0000_0000_0000_0000
  {
    DroppedAdds(s.dropped, |s.refused| + |s.discarded|, 1);
  }

  lemma LoggedConserved(s: State, event: Event)
    requires Conserved(s)
    ensures Conserved(Logged(s, event))
  {
    LoggedEverywhere(s, event);
    NumberedAppend(s.logged, event);
    LoggedInOrder(s, event);
    LoggedDropped(s, event);
  }

  lemma DroppedAdds(dropped: u64, lost: nat, n: nat)
    requires dropped == lost % 0x1_0000_0000_0000_0000
    ensures AddDropped(dropped, n) == (lost + n) % 0x1_0000_0000_0000_0000
  {}

  /** Removing a stretch of an ordered list leaves an ordered list. */
  lemma CutMiddle(a: seq<Entry>, b: seq<Entry>, c: seq<Entry>, logged: seq<Event>)
    requires InOrder(a + b + c, logged)
    ensures InOrder(a + c, logged)
    ensures multiset(a + b + c) == multiset(a + c) + multiset(b)
  {
    forall i | 0 <= i < |a + c| ensures (a + c)[i] == (a + b + c)[if i < |a| then i else i + |b|] {}
  }

  lemma DiscardEverywhere(s: State, last: bool)
    requires multiset(Pipeline(s)) == multiset(s.rows + s.channel) + multiset(s.buffer)
    ensures Pipeline(Discard(s, last)) == s.rows + s.channel && Everywhere(Discard(s, last)) == Everywhere(s)
  {
    assert s.rows + [] + s.channel == s.rows + s.channel;
    assert multiset(s.discarded + s.buffer) == multiset(s.discarded) + multiset(s.buffer);
  }

  lemma DiscardConserved(s: State, last: bool)
    requires Conserved(s)
    ensures Conserved(Discard(s, last))
  {
    CutMiddle(s.rows, s.buffer, s.channel, s.logged);
    DiscardEverywhere(s, last);
    DroppedAdds(s.dropped, |s.refused| + |s.discarded|, |s.buffer|);
  }

  /** A step that is neither a call to `log` nor a failure moves entries along, or does nothing. */
  lemma NextMoves(s: State, step: Step, batch: nat)
    requires Bounded(s, batch) && !step.Log? && !Fails(s, step)
    ensures var after := Next(s, step, batch);
            && Pipeline(after) == Pipeline(s)
            && after.logged == s.logged && after.refused == s.refused && after.discarded == s.discarded && after.dropped == s.dropped
  {
    assert s.channel != [] ==> s.buffer + s.channel == (s.buffer + [s.channel[0]]) + s.channel[1..];
    assert s.rows + s.buffer + s.channel == s.rows + (s.buffer + s.channel);
    assert step.Receive? && s.channel != [] ==>
        s.rows + (s.buffer + [s.channel[0]]) + s.channel[1..] == s.rows + ((s.buffer + [s.channel[0]]) + s.channel[1..]);
    assert (s.rows + s.buffer) + [] == s.rows + s.buffer;
  }

  lemma MoveConserved(s: State, after: State)
    requires Conserved(s) && Pipeline(after) == Pipeline(s)
    requires after.logged == s.logged && after.refused == s.refused && after.discarded == s.discarded && after.dropped == s.dropped
    ensures Conserved(after)
  {}

  lemma FailureDiscards(s: State, step: Step, batch: nat)
    requires Fails(s, step)
    ensures Next(s, step, batch) == Discard(s, s.phase.last)
  {}

  lemma NextConserved(s: State, step: Step, batch: nat)
    requires Conserved(s) && Bounded(s, batch)
    ensures Conserved(Next(s, step, batch))
  {
    if step.Log? {
      LoggedConserved(s, step.event);
    } else if Fails(s, step) {
      FailureDiscards(s, step, batch);
      DiscardConserved(s, s.phase.last);
    } else {
      NextMoves(s, step, batch);
      MoveConserved(s, Next(s, step, batch));
    }
  }

  lemma NextBounded(s: State, step: Step, batch: nat)
    requires Bounded(s, batch)
    ensures Bounded(Next(s, step, batch), batch)
  {}

  lemma {:induction false} RunConserved(s: State, steps: seq<Step>, batch: nat)
    requires Conserved(s) && Bounded(s, batch)
    ensures Conserved(Run(s, steps, batch)) && Bounded(Run(s, steps, batch), batch)
    decreases steps
  {
    if steps != [] {
      NextConserved(s, steps[0], batch);
      NextBounded(s, steps[0], batch);
      RunConserved(Next(s, steps[0], batch), steps[1..], batch);
    }
  }

  lemma StartConserved(batch: nat)
    ensures Conserved(START) && Bounded(START, batch)
  {
    assert Pipeline(START) == [] && Numbered([]) == [];
  }

  /**
   In every interleaving, with any transaction step failing at any point, each logged event is in
   exactly one of the channel, the buffer, the rows and the dropped events, and the rows are in
   the order the events were logged.
   */
  lemma EventsAreConserved(steps: seq<Step>, batch: nat)
    ensures Conserved(Run(START, steps, batch)) && Bounded(Run(START, steps, batch), batch)
  {
    StartConserved(batch);
    RunConserved(START, steps, batch);
  }

  lemma CountEverywhere(s: State)
    requires Conserved(s)
    ensures |Pipeline(s)| + |s.refused| + |s.discarded| == |s.logged|
  {
    assert |multiset(Pipeline(s))| == |Pipeline(s)| && |multiset(s.refused)| == |s.refused|;
    assert |multiset(s.discarded)| == |s.discarded| && |multiset(Numbered(s.logged))| == |s.logged|;
  }

  lemma StoppedState(s: State)
    requires Conserved(s) && s.buffer == [] && s.channel == []
    ensures |s.rows| + |s.refused| + |s.discarded| == |s.logged| && InOrder(s.rows, s.logged)
  {
    assert Pipeline(s) == s.rows;
    CountEverywhere(s);
  }

  /** Once the task has ended, what was logged is either written or counted as dropped. */
  lemma StoppedAccounts(steps: seq<Step>, batch: nat)
    requires Run(START, steps, batch).phase == Stopped
    ensures var s := Run(START, steps, batch);
            && |s.rows| + |s.refused| + |s.discarded| == |s.logged| && InOrder(s.rows, s.logged)
            && s.dropped == (|s.refused| + |s.discarded|) % 0x1_0000_0000_0000_0000
  {
    EventsAreConserved(steps, batch);
    StoppedState(Run(START, steps, batch));
  }

  // ----- What shutdown guarantees -----

  predicate SomeStepFails(s: State, steps: seq<Step>, batch: nat)
    decreases steps
  {
    steps != [] && (Fails(s, steps[0]) || SomeStepFails(Next(s, steps[0], batch), steps[1..], batch))
  }

  lemma {:induction false} DiscardedIffFailed(s: State, steps: seq<Step>, batch: nat)
    requires Bounded(s, batch)
    ensures |Run(s, steps, batch).discarded| >= |s.discarded|
    ensures |Run(s, steps, batch).discarded| > |s.discarded| <==> SomeStepFails(s, steps, batch)
    decreases steps
  {
    if steps != [] {
      NextBounded(s, steps[0], batch);
      StepDiscards(s, steps[0], batch);
      DiscardedIffFailed(Next(s, steps[0], batch), steps[1..], batch);
    }
  }

  lemma StepDiscards(s: State, step: Step, batch: nat)
    requires Bounded(s, batch)
    ensures if Fails(s, step) then |Next(s, step, batch).discarded| > |s.discarded| else Next(s, step, batch).discarded == s.discarded
  {}

  lemma NumberedOnce(logged: seq<Event>, e: Entry)
    ensures multiset(Numbered(logged))[e] <= 1
    ensures e in Numbered(logged) <==> e.ticket < |logged| && e.event == logged[e.ticket]
  {
    if logged != [] {
      var n := |logged| - 1;
      NumberedOnce(logged[..n], e);
      assert Numbered(logged) == Numbered(logged[..n]) + [Entry(n, logged[n])];
    }
  }

  /** Every entry the channel accepted is among the rows. */
  ghost predicate AcceptedIsWritten(s: State) {
    forall e :: e in Numbered(s.logged) && e !in s.refused ==> e in s.rows
  }

  lemma WrittenIffNoneDiscarded(s: State)
    requires Conserved(s) && s.buffer == [] && s.channel == []
    ensures AcceptedIsWritten(s) <==> s.discarded == []
  {
    assert Pipeline(s) == s.rows;
    var all := multiset(Numbered(s.logged));
    if s.discarded == [] {
      forall e | e in Numbered(s.logged) && e !in s.refused ensures e in s.rows {
        assert e in all && e !in multiset(s.refused);
        assert e in multiset(s.rows);
      }
    } else {
      var e := s.discarded[0];
      assert e in multiset(s.discarded);
      NumberedOnce(s.logged, e);
      assert e in all && e !in multiset(s.rows) && e !in multiset(s.refused);
      assert e in Numbered(s.logged) && e !in s.refused && e !in s.rows;
    }
  }

  /**
   The documentation of `shutdown` promises that every event the channel accepted has been
   written when it returns. That holds exactly when no transaction step failed along the way.
   */
  lemma AcceptedIsWrittenIff(steps: seq<Step>, batch: nat)
    requires Run(START, steps, batch).phase == Stopped
    ensures AcceptedIsWritten(Run(START, steps, batch)) <==> !SomeStepFails(START, steps, batch)
  {
    EventsAreConserved(steps, batch);
    StartConserved(batch);
    DiscardedIffFailed(START, steps, batch);
    WrittenIffNoneDiscarded(Run(START, steps, batch));
  }

  /** One event, one failed `begin` at shutdown: the event was accepted and is not written. */
  lemma ShutdownCanLose(event: Event)
    ensures var s := Run(START, [Log(event), Receive, Close, Receive, Begin(false)], 100);
            s.phase == Stopped && s.refused == [] && s.rows == [] && s.logged == [event]
  {
    var s1 := Next(START, Log(event), 100);
    var s2 := Next(s1, Receive, 100);
    var s3 := Next(s2, Close, 100);
    var s4 := Next(s3, Receive, 100);
    var s5 := Next(s4, Begin(false), 100);
    var steps := [Log(event), Receive, Close, Receive, Begin(false)];
    assert s2.buffer == [Entry(0, event)] && s4.phase == Starting(true);
    assert steps[1..][1..] == [Close, Receive, Begin(false)] && steps[1..][1..][1..] == [Receive, Begin(false)];
    assert Run(s4, [Begin(false)], 100) == s5;
    assert Run(s3, [Receive, Begin(false)], 100) == s5;
    assert Run(s2, [Close, Receive, Begin(false)], 100) == s5;
  }

  // ----- Shutdown completes -----

  /** How much the task still has to do once the channel is closed. */
  function Work(s: State): int {
    5 * |s.channel| + 4 * |s.buffer| +
    match s.phase
    case Idle => 3
    case Starting(_) => 2
    case Inserting(staged, _) => 1 - staged
    case Stopped => 0
  }

  /** After the handle is gone, every step the task takes brings it closer to the end. */
  lemma TaskStepProgresses(s: State, step: Step, batch: nat)
    requires Bounded(s, batch) && !s.open && !step.Log? && Next(s, step, batch) != s
    ensures 0 <= Work(Next(s, step, batch)) < Work(s)
  {}

  /** And unless it has ended it can take one, whether or not the database cooperates. */
  lemma TaskNeverStuck(s: State, batch: nat, ok: bool)
    requires Bounded(s, batch) && !s.open && s.phase != Stopped
    ensures Next(s, Receive, batch) != s || Next(s, Begin(ok), batch) != s || Next(s, Insert(ok), batch) != s || Next(s, Commit(ok), batch) != s
  {
    match s.phase
    case Idle => assert Next(s, Receive, batch).channel != s.channel || Next(s, Receive, batch).phase != s.phase;
    case Starting(last) => assert Next(s, Begin(ok), batch).phase != s.phase;
    case Inserting(staged, last) =>
      if staged < |s.buffer| {
        assert Next(s, Insert(ok), batch).phase != s.phase;
      } else {
        assert Next(s, Commit(ok), batch).buffer != s.buffer;
      }
  }

  /** The steps of a run that are the task's and change something. */
  function TaskSteps(s: State, steps: seq<Step>, batch: nat): nat
    decreases steps
  {
    if steps == [] then 0 else
    (if !steps[0].Log? && Next(s, steps[0], batch) != s then 1 else 0) + TaskSteps(Next(s, steps[0], batch), steps[1..], batch)
  }

  /** No step of the task changes anything. */
  ghost predicate Quiet(s: State, batch: nat) {
    forall step: Step :: !step.Log? ==> Next(s, step, batch) == s
  }

  lemma QuietIffStopped(s: State, batch: nat)
    requires Bounded(s, batch) && !s.open
    ensures Quiet(s, batch) <==> s.phase == Stopped
  {
    if s.phase != Stopped {
      TaskNeverStuck(s, batch, true);
    }
  }

  /** Calls that come too late add no work. */
  lemma LateLogAddsNoWork(s: State, event: Event, batch: nat)
    requires !s.open
    ensures Work(Next(s, Log(event), batch)) == Work(s)
  {}

  lemma {:induction false} WorkRunsDown(s: State, steps: seq<Step>, batch: nat)
    requires Bounded(s, batch) && !s.open
    ensures Bounded(Run(s, steps, batch), batch) && !Run(s, steps, batch).open
    ensures TaskSteps(s, steps, batch) + Work(Run(s, steps, batch)) <= Work(s)
    decreases steps
  {
    if steps != [] {
      var step := steps[0];
      NextBounded(s, step, batch);
      if step.Log? {
        LateLogAddsNoWork(s, step.event, batch);
      } else if Next(s, step, batch) != s {
        TaskStepProgresses(s, step, batch);
      }
      WorkRunsDown(Next(s, step, batch), steps[1..], batch);
    }
  }

  /**
   Shutdown ends: after any run that closed the channel, however callers and failures interleave,
   the task takes at most the work left, and it can take no further step exactly when it has ended.
   */
  lemma ShutdownEnds(before: seq<Step>, after: seq<Step>, batch: nat)
    requires !Run(START, before, batch).open
    ensures var s := Run(START, before, batch);
            && TaskSteps(s, after, batch) <= Work(s) <= 5 * AUDIT_CHANNEL_CAPACITY + 4 * Max(batch, 1) + 3
            && (Quiet(Run(s, after, batch), batch) <==> Run(s, after, batch).phase == Stopped)
  {
    EventsAreConserved(before, batch);
    var s := Run(START, before, batch);
    WorkRunsDown(s, after, batch);
    QuietIffStopped(Run(s, after, batch), batch);
  }

  // ----- Nothing waits past a tick -----

  /** The entry is in the database, or lost and counted. */
  predicate Resolved(s: State, e: Entry) {
    e in s.rows || e in s.discarded
  }

  /** The entry is in the buffer while the buffer is being written. */
  predicate InFlight(s: State, e: Entry) {
    e in s.buffer && (s.phase.Starting? || s.phase.Inserting?)
  }

  lemma BufferedStep(s: State, step: Step, batch: nat, e: Entry)
    ensures Resolved(s, e) ==> Resolved(Next(s, step, batch), e)
    ensures e in s.buffer ==> e in Next(s, step, batch).buffer || Resolved(Next(s, step, batch), e)
    ensures InFlight(s, e) ==> InFlight(Next(s, step, batch), e) || Resolved(Next(s, step, batch), e)
  {}

  lemma {:induction false} BufferedRun(s: State, steps: seq<Step>, batch: nat, e: Entry)
    requires e in s.buffer || Resolved(s, e)
    ensures e in Run(s, steps, batch).buffer || Resolved(Run(s, steps, batch), e)
    decreases steps
  {
    if steps != [] {
      BufferedStep(s, steps[0], batch, e);
      BufferedRun(Next(s, steps[0], batch), steps[1..], batch, e);
    }
  }

  lemma {:induction false} InFlightRun(s: State, steps: seq<Step>, batch: nat, e: Entry)
    requires InFlight(s, e) || Resolved(s, e)
    ensures InFlight(Run(s, steps, batch), e) || Resolved(Run(s, steps, batch), e)
    decreases steps
  {
    if steps != [] {
      BufferedStep(s, steps[0], batch, e);
      InFlightRun(Next(s, steps[0], batch), steps[1..], batch, e);
    }
  }

  /** After a run, a receive and more steps. */
  function Gathered(prior: seq<Step>, before: seq<Step>, batch: nat): State {
    Run(Next(Run(START, prior, batch), Receive, batch), before, batch)
  }

  /** And after a tick and still more. */
  function Ticked(prior: seq<Step>, before: seq<Step>, after: seq<Step>, batch: nat): State {
    Run(Next(Gathered(prior, before, batch), Tick, batch), after, batch)
  }

  /**
   Take any run in which the task receives an event and, later and idle, a tick. Whatever callers
   and the database do in between, once the task is idle again the event is written or counted.
   */
  lemma ResolvedAfterTick(prior: seq<Step>, before: seq<Step>, after: seq<Step>, batch: nat)
    requires Run(START, prior, batch).phase == Idle && Run(START, prior, batch).channel != []
    requires Gathered(prior, before, batch).phase == Idle
    requires Ticked(prior, before, after, batch).phase == Idle || Ticked(prior, before, after, batch).phase == Stopped
    ensures Resolved(Ticked(prior, before, after, batch), Run(START, prior, batch).channel[0])
  {
    var s := Run(START, prior, batch);
    assert s.channel[0] in Next(s, Receive, batch).buffer;
    BufferedRun(Next(s, Receive, batch), before, batch, s.channel[0]);
    InFlightRun(Next(Gathered(prior, before, batch), Tick, batch), after, batch, s.channel[0]);
  }

  /** A call is refused exactly when the channel is closed or holds a thousand events. */
  lemma RefusedIff(s: State, event: Event)
    ensures var after := Logged(s, event); var e := Entry(|s.logged|, event);
            if s.open && |s.channel| < 1000
            then after.channel == s.channel + [e] && after.refused == s.refused && after.dropped == s.dropped
            else after.channel == s.channel && after.refused == s.refused + [e] && after.dropped == (s.dropped + 1) % 0x1_0000_0000_0000_0000
  {}
}
