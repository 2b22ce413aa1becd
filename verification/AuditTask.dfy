/** The audit logger as written: `log`, the arms of the task's select loop, and `flush_buffer`. */
module AuditTask {
  import opened Prelude
  import opened Audit

  /** How the database answers one flush: `begin`, the insert of each chunk, and `commit`. */
  datatype Database = Database(beginOk: bool, insertOk: nat -> bool, commitOk: bool)

  /** The steps a flush of `n` entries takes once `staged` of them are inserted. */
  function InsertSteps(db: Database, chunk: nat, staged: nat, n: nat): seq<Step>
    decreases n - staged
  {
    if staged >= n then [Commit(db.commitOk)]
    else if !db.insertOk(chunk) then [Insert(false)]
    else [Insert(true)] + InsertSteps(db, chunk + 1, Min(staged + CHUNK_SIZE, n), n)
  }

  function FlushSteps(db: Database, n: nat): seq<Step> {
    if db.beginOk then [Begin(true)] + InsertSteps(db, 0, 0, n) else [Begin(false)]
  }

  lemma RunCons(s: State, step: Step, steps: seq<Step>, batch: nat)
    ensures Run(s, [step] + steps, batch) == Run(Next(s, step, batch), steps, batch)
  {
    assert ([step] + steps)[1..] == steps;
  }

  lemma RunOne(s: State, step: Step, batch: nat)
    ensures Run(s, [step], batch) == Next(s, step, batch)
  {
    assert [step][1..] == [];
  }

  /** No insert from `chunk` on fails. */
  ghost predicate InsertsOk(db: Database, chunk: nat, n: nat) {
    forall c: nat :: chunk <= c && c * 333 < n ==> db.insertOk(c)
  }

  function Written(s: State, last: bool): State {
    s.(rows := s.rows + s.buffer, buffer := [], phase := Resume(last))
  }

  /** What is left of a flush that has `staged` entries of chunks before `chunk` inserted. */
  function FromHere(s: State, db: Database, chunk: nat, staged: nat, batch: nat): State {
    Run(s, InsertSteps(db, chunk, staged, |s.buffer|), batch)
  }

  lemma InsertStep(s: State, db: Database, chunk: nat, staged: nat, last: bool, batch: nat)
    requires s.phase == Inserting(staged, last) && staged < |s.buffer|
    ensures var more := Min(staged + CHUNK_SIZE, |s.buffer|);
            FromHere(s, db, chunk, staged, batch)
            == if db.insertOk(chunk) then FromHere(s.(phase := Inserting(more, last)), db, chunk + 1, more, batch) else Discard(s, last)
  {
    if db.insertOk(chunk) {
      var more := Min(staged + CHUNK_SIZE, |s.buffer|);
      RunCons(s, Insert(true), InsertSteps(db, chunk + 1, more, |s.buffer|), batch);
    } else {
      RunOne(s, Insert(false), batch);
    }
  }

  lemma CommitStep(s: State, db: Database, chunk: nat, staged: nat, last: bool, batch: nat)
    requires s.phase == Inserting(staged, last) && staged >= |s.buffer|
    ensures FromHere(s, db, chunk, staged, batch) == if db.commitOk then Written(s, last) else Discard(s, last)
  {
    RunOne(s, Commit(db.commitOk), batch);
  }

  lemma BeginStep(s: State, db: Database, last: bool, batch: nat)
    requires s.phase == Starting(last)
    ensures Run(s, FlushSteps(db, |s.buffer|), batch)
         == if db.beginOk then FromHere(s.(phase := Inserting(0, last)), db, 0, 0, batch) else Discard(s, last)
  {
    if db.beginOk {
      RunCons(s, Begin(true), InsertSteps(db, 0, 0, |s.buffer|), batch);
    } else {
      RunOne(s, Begin(false), batch);
    }
  }

  lemma InsertsOkFrom(db: Database, chunk: nat, n: nat)
    requires chunk * CHUNK_SIZE < n
    ensures InsertsOk(db, chunk, n) <==> db.insertOk(chunk) && InsertsOk(db, chunk + 1, n)
  {}

  lemma {:induction false} InsertsAreAllOrNothing(s: State, db: Database, chunk: nat, staged: nat, last: bool, batch: nat)
    requires s.phase == Inserting(staged, last) && staged == Min(chunk * CHUNK_SIZE, |s.buffer|)
    ensures FromHere(s, db, chunk, staged, batch)
         == if db.commitOk && InsertsOk(db, chunk, |s.buffer|) then Written(s, last) else Discard(s, last)
    decreases |s.buffer| - staged
  {
    if staged >= |s.buffer| {
      CommitStep(s, db, chunk, staged, last, batch);
    } else {
      InsertStep(s, db, chunk, staged, last, batch);
      InsertsOkFrom(db, chunk, |s.buffer|);
      if db.insertOk(chunk) {
        var more := Min(staged + CHUNK_SIZE, |s.buffer|);
        InsertsAreAllOrNothing(s.(phase := Inserting(more, last)), db, chunk + 1, more, last, batch);
      }
    }
  }

  /** A flush writes the whole buffer, in order, or loses and counts the whole buffer. */
  lemma FlushIsAllOrNothing(s: State, db: Database, last: bool, batch: nat)
    requires s.phase == Starting(last)
    ensures Run(s, FlushSteps(db, |s.buffer|), batch)
         == if db.beginOk && db.commitOk && InsertsOk(db, 0, |s.buffer|) then Written(s, last) else Discard(s, last)
  {
    BeginStep(s, db, last, batch);
    if db.beginOk {
      InsertsAreAllOrNothing(s.(phase := Inserting(0, last)), db, 0, 0, last, batch);
    }
  }

  /** The database goes along with a flush of `n` entries: 333 rows to an insert. */
  ghost predicate Works(db: Database, n: nat) {
    db.beginOk && db.commitOk && InsertsOk(db, 0, n)
  }

  /** What the task does after a step left it in `s`: flush, if the step asked for it. */
  function Flushed(s: State, db: Database, batch: nat): State {
    if s.phase.Starting? then Run(s, FlushSteps(db, |s.buffer|), batch) else s
  }

  /** One arm of the task's loop, from one idle moment to the next. */
  function Round(s: State, step: Step, db: Database, batch: nat): State {
    Flushed(Next(s, step, batch), db, batch)
  }

  function Receives(s: State, n: nat, db: Database, batch: nat): State
    decreases n
  {
    if n == 0 then s else Receives(Round(s, Receive, db, batch), n - 1, db, batch)
  }

  lemma WorksAlways(db: Database, n: nat)
    requires db.beginOk && db.commitOk && forall c: nat :: db.insertOk(c)
    ensures Works(db, n)
  {}

  lemma PipelineMoves(rows: seq<Entry>, buffer: seq<Entry>, channel: seq<Entry>)
    requires channel != []
    ensures rows + (buffer + [channel[0]]) + channel[1..] == rows + buffer + channel
    ensures (rows + (buffer + [channel[0]])) + [] + channel[1..] == rows + buffer + channel
  {}

  lemma ReceiveFull(s: State, db: Database, batch: nat)
    requires s.phase == Idle && s.channel != [] && Works(db, |s.buffer| + 1) && |s.buffer| + 1 >= batch
    ensures Round(s, Receive, db, batch)
         == s.(rows := s.rows + (s.buffer + [s.channel[0]]), buffer := [], channel := s.channel[1..])
  {
    var next := Next(s, Receive, batch);
    assert next == s.(buffer := s.buffer + [s.channel[0]], channel := s.channel[1..], phase := Starting(false));
    FlushIsAllOrNothing(next, db, false, batch);
  }

  lemma ReceiveRound(s: State, db: Database, batch: nat)
    requires s.phase == Idle && s.channel != [] && Works(db, |s.buffer| + 1)
    ensures var r := Round(s, Receive, db, batch);
            && r.phase == Idle && r.channel == s.channel[1..] && Pipeline(r) == Pipeline(s)
            && r.dropped == s.dropped && r.discarded == s.discarded
            && |r.buffer| < Max(batch, 1)
    ensures Round(s, Receive, db, batch).buffer == [] || Round(s, Receive, db, batch).buffer == s.buffer + [s.channel[0]]
  {
    PipelineMoves(s.rows, s.buffer, s.channel);
    if |s.buffer| + 1 >= batch {
      ReceiveFull(s, db, batch);
    }
  }

  /** What a tick does to an idle task: the buffer is written, or lost and counted. */
  lemma TickRound(s: State, db: Database, batch: nat)
    requires s.phase == Idle
    ensures var r := Round(s, Tick, db, batch);
            && r.phase == Idle && r.buffer == [] && r.channel == s.channel
            && (Works(db, |s.buffer|) ==> r.rows == s.rows + s.buffer && r.dropped == s.dropped && r.discarded == s.discarded)
            && (!Works(db, |s.buffer|) && s.buffer != [] ==>
                  r.rows == s.rows && r.discarded == s.discarded + s.buffer && r.dropped == (s.dropped + |s.buffer|) % 0x1_0000_0000_0000_0000)
  {
    if s.buffer != [] {
      FlushIsAllOrNothing(Next(s, Tick, batch), db, false, batch);
    } else {
      assert s.rows + [] == s.rows;
    }
  }

  lemma {:induction false} ReceivesDrain(s: State, n: nat, db: Database, batch: nat)
    requires s.phase == Idle && n == |s.channel| && db.beginOk && db.commitOk && forall c: nat :: db.insertOk(c)
    ensures var r := Receives(s, n, db, batch);
            r.phase == Idle && r.channel == [] && Pipeline(r) == Pipeline(s) && r.dropped == s.dropped && r.discarded == s.discarded
    decreases n
  {
    if n > 0 {
      WorksAlways(db, |s.buffer| + 1);
      ReceiveRound(s, db, batch);
      ReceivesDrain(Round(s, Receive, db, batch), n - 1, db, batch);
    }
  }

  /**
   With a database that works, an idle task that takes what the channel holds and then a tick has
   written everything that was accepted, in order, whether or not a batch was ever full.
   */
  lemma DrainWritesEverything(s: State, db: Database, batch: nat)
    requires s.phase == Idle && db.beginOk && db.commitOk && forall c: nat :: db.insertOk(c)
    ensures var r := Round(Receives(s, |s.channel|, db, batch), Tick, db, batch);
            && r.phase == Idle && r.channel == [] && r.buffer == [] && r.rows == s.rows + s.buffer + s.channel
            && r.dropped == s.dropped && r.discarded == s.discarded
  {
    var d := Receives(s, |s.channel|, db, batch);
    ReceivesDrain(s, |s.channel|, db, batch);
    WorksAlways(db, |d.buffer|);
    TickRound(d, db, batch);
    assert Pipeline(d) == d.rows + d.buffer;
  }

  class AuditLogger {
    var channel: seq<Entry>
    var open: bool
    var buffer: seq<Entry>
    var rows: seq<Entry>
    var dropped: u64
    ghost var logged: seq<Event>
    ghost var refused: seq<Entry>
    ghost var discarded: seq<Entry>
    /** Numbers the entries; the source has no use for it. */
    var calls: nat
    const batch: nat

    ghost function At(phase: Phase): State
      reads this
    {
      State(channel, open, buffer, phase, rows, dropped, logged, refused, discarded)
    }

    ghost predicate Valid()
      reads this
    {
      calls == |logged|
    }

    constructor (batch: nat)
      ensures Valid() && At(Idle) == START && this.batch == batch
    {
      channel, open, buffer, rows, dropped, calls := [], true, [], [], 0, 0;
      logged, refused, discarded := [], [], [];
      this.batch := batch;
    }

    method LogEvent(event: Event)
      requires Valid()
      modifies this`channel, this`dropped, this`logged, this`refused, this`calls
      ensures Valid() && forall phase :: At(phase) == Logged(old(At(phase)), event)
      ensures channel == if open && |old(channel)| < 1000 then old(channel) + [Entry(old(calls), event)] else old(channel)
      ensures dropped == if open && |old(channel)| < 1000 then old(dropped) else (old(dropped) + 1) % 0x1_0000_0000_0000_0000
    {
      var entry := Entry(calls, event);
      if open && |channel| < AUDIT_CHANNEL_CAPACITY {
        channel := channel + [entry];
      } else {
        dropped := AddDropped(dropped, 1);
        refused := refused + [entry];
      }
      calls, logged := calls + 1, logged + [event];
    }

    method DropBuffer()
      modifies this`buffer, this`dropped, this`discarded
      ensures forall last :: At(Resume(last)) == Discard(old(At(Idle)), last)
    {
      dropped := AddDropped(dropped, |buffer|);
      discarded := discarded + buffer;
      buffer := [];
    }

    /** One transaction: every chunk and the commit, or nothing. */
    method FlushBuffer(db: Database, ghost last: bool)
      modifies this`buffer, this`rows, this`dropped, this`discarded
      ensures At(Resume(last)) == Run(old(At(Starting(last))), FlushSteps(db, |old(buffer)|), batch)
      ensures buffer == []
      ensures Works(db, |old(buffer)|) ==> rows == old(rows) + old(buffer) && dropped == old(dropped)
      ensures !Works(db, |old(buffer)|) ==> rows == old(rows) && dropped == (old(dropped) + |old(buffer)|) % 0x1_0000_0000_0000_0000
    {
      FlushIsAllOrNothing(At(Starting(last)), db, last, batch);
      ghost var start := At(Starting(last));
      BeginStep(start, db, last, batch);
      if !db.beginOk {
        DropBuffer();
        return;
      }
      var chunk, staged := 0, 0;
      while staged < |buffer|
        invariant staged <= |buffer| && start == At(Starting(last))
        invariant Run(start, FlushSteps(db, |buffer|), batch) == FromHere(At(Inserting(staged, last)), db, chunk, staged, batch)
        decreases |buffer| - staged
      {
        InsertStep(At(Inserting(staged, last)), db, chunk, staged, last, batch);
        if !db.insertOk(chunk) {
          DropBuffer();
          return;
        }
        chunk, staged := chunk + 1, Min(staged + CHUNK_SIZE, |buffer|);
      }
      CommitStep(At(Inserting(staged, last)), db, chunk, staged, last, batch);
      if !db.commitOk {
        DropBuffer();
        return;
      }
      rows := rows + buffer;
      buffer := [];
    }

    /** The `recv` arm: an event, nothing yet, or the end of a closed channel. */
    method OnReceive(db: Database) returns (stopped: bool)
      requires Valid()
      modifies this`channel, this`buffer, this`rows, this`dropped, this`discarded
      ensures Valid()
      ensures At(if stopped then Stopped else Idle) == Round(old(At(Idle)), Receive, db, batch)
      ensures stopped <==> old(channel) == [] && !open
      ensures old(channel) != [] ==> channel == old(channel)[1..]
      ensures old(channel) != [] && |old(buffer)| + 1 < batch ==> buffer == old(buffer) + [old(channel)[0]] && rows == old(rows)
      ensures old(channel) != [] && |old(buffer)| + 1 >= batch ==>
                buffer == [] && (Works(db, |old(buffer)| + 1) ==> rows == old(rows) + (old(buffer) + [old(channel)[0]]))
    {
      stopped := false;
      if channel != [] {
        buffer := buffer + [channel[0]];
        channel := channel[1..];
        if |buffer| >= batch {
          FlushBuffer(db, false);
        }
      } else if !open {
        if buffer != [] {
          FlushBuffer(db, true);
        }
        stopped := true;
      }
    }

    /** The timer arm. */
    method OnTick(db: Database)
      requires Valid()
      modifies this`buffer, this`rows, this`dropped, this`discarded
      ensures Valid() && At(Idle) == Round(old(At(Idle)), Tick, db, batch)
      ensures buffer == []
      ensures Works(db, |old(buffer)|) ==> rows == old(rows) + old(buffer) && dropped == old(dropped)
      ensures !Works(db, |old(buffer)|) && old(buffer) != [] ==>
                rows == old(rows) && dropped == (old(dropped) + |old(buffer)|) % 0x1_0000_0000_0000_0000
    {
      if buffer != [] {
        FlushBuffer(db, false);
      }
    }
  }
}
