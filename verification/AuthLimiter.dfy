/** Authentication-failure tracking: crates/reader/src/auth_limiter.rs. */
module AuthLimiter {
  import opened Prelude

  /** Addresses, by their position in the address order; instants, in clock ticks. */
  type Ip = int
  type Instant = nat

  datatype Entry = Entry(count: u32, start: Instant)

  datatype Limits = Limits(threshold: u32, window: nat, maxEntries: nat)

  function Bump(count: u32): u32 {
    if count == 0xFFFF_FFFF then 0 else count + 1
  }

  // ----- The oldest entry -----

  /** Heap records, ordered by window start and then by address. */
  predicate RecordLeq(a: (Instant, Ip), b: (Instant, Ip)) {
    a.0 < b.0 || (a.0 == b.0 && a.1 <= b.1)
  }

  predicate IsOldest(starts: map<Ip, Instant>, v: Ip) {
    v in starts && forall o :: o in starts ==> RecordLeq((starts[v], v), (starts[o], o))
  }

  lemma {:induction false} OldestExists(starts: map<Ip, Instant>)
    requires starts.Keys != {}
    ensures exists v :: IsOldest(starts, v)
    decreases |starts|
  {
    var keys := starts.Keys;
    assert exists w :: w in keys by { assert (forall w :: w !in keys) ==> keys == {}; }
    var w :| w in keys;
    var others := starts - {w};
    assert others.Keys == keys - {w};
    if others.Keys == {} {
      assert keys == {w} && IsOldest(starts, w);
    } else {
      OldestExists(others);
      var v :| IsOldest(others, v);
      var least := if RecordLeq((starts[v], v), (starts[w], w)) then v else w;
      forall o | o in starts ensures RecordLeq((starts[least], least), (starts[o], o)) {
        assert o == w || o in others;
      }
      assert IsOldest(starts, least);
    }
  }

  ghost function Oldest(starts: map<Ip, Instant>): (v: Ip)
    requires starts.Keys != {}
    ensures IsOldest(starts, v)
  {
    OldestExists(starts);
    var v :| IsOldest(starts, v);
    v
  }

  // ----- The tracker without a heap -----

  type Table = map<Ip, Entry>

  ghost function Starts(t: Table): (s: map<Ip, Instant>)
    ensures s.Keys == t.Keys
  {
    map ip | ip in t :: t[ip].start
  }

  /** Room for a new address: at capacity, the entry whose window is oldest goes. */
  ghost function MakeRoom(t: Table, limits: Limits): Table {
    if |t| < limits.maxEntries || t.Keys == {} then t else t - {Oldest(Starts(t))}
  }

  ghost function Failed(t: Table, ip: Ip, now: Instant, limits: Limits): Table {
    if ip !in t then MakeRoom(t, limits)[ip := Entry(1, now)]
    else if now > t[ip].start + limits.window then t[ip := Entry(1, now)]
    else t[ip := Entry(Bump(t[ip].count), t[ip].start)]
  }

  class AuthFailureTracker {
    var entries: Table
    /** A binary heap, as the multiset of its records. */
    var heap: multiset<(Instant, Ip)>
    const limits: Limits

    /** Every live entry has its record in the heap; other records are stale. */
    ghost predicate Valid()
      reads this
    {
      forall ip :: ip in entries ==> (entries[ip].start, ip) in heap
    }

    constructor (limits: Limits)
      ensures Valid() && entries == map[] && this.limits == limits
    {
      entries, heap := map[], multiset{};
      this.limits := limits;
    }

    method PopLeast() returns (least: (Instant, Ip))
      requires heap != multiset{}
      modifies this`heap
      ensures least in old(heap) && heap == old(heap) - multiset{least}
      ensures forall r :: r in old(heap) ==> RecordLeq(least, r)
    {
      LeastExists(heap);
      least :| least in heap && IsLeast(heap, least);
      heap := heap - multiset{least};
    }

    /** Pops until a live entry turns up, and removes that entry. */
    method EvictOldest()
      requires Valid()
      modifies this
      ensures Valid()
      ensures entries == if old(entries).Keys == {} then old(entries) else old(entries) - {Oldest(Starts(old(entries)))}
      ensures forall v, o :: v in old(entries) && v !in entries && o in old(entries) ==> old(entries)[v].start <= old(entries)[o].start
    {
      while heap != multiset{}
        invariant Valid() && entries == old(entries)
        decreases |heap|
      {
        ghost var before := heap;
        var victim := PopLeast();
        if victim.1 in entries && entries[victim.1].start == victim.0 {
          assert IsOldest(Starts(entries), victim.1);
          OldestIsUnique(Starts(entries), victim.1, Oldest(Starts(entries)));
          entries := entries - {victim.1};
          KeepOthers(old(entries), before, victim);
          return;
        }
        forall ip | ip in entries ensures (entries[ip].start, ip) in heap {
          assert (entries[ip].start, ip) in before && (entries[ip].start, ip) != victim;
        }
      }
    }

    /** The heap makes no difference: the table changes as the heapless tracker's does. */
    method RecordFailure(ip: Ip, now: Instant) returns (lockout: bool)
      requires Valid()
      modifies this
      ensures Valid()
      ensures entries == Failed(old(entries), ip, now, limits)
      ensures lockout <==> entries[ip].count == limits.threshold
    {
      if ip in entries {
        var entry := entries[ip];
        if now > entry.start + limits.window {
          entries := entries[ip := Entry(1, now)];
          heap := heap + multiset{(now, ip)};
          return 1 == limits.threshold;
        }
        entries := entries[ip := Entry(Bump(entry.count), entry.start)];
        return entries[ip].count == limits.threshold;
      }
      if |entries| >= limits.maxEntries {
        EvictOldest();
      }
      entries := entries[ip := Entry(1, now)];
      heap := heap + multiset{(now, ip)};
      lockout := 1 == limits.threshold;
    }

    method RecordSuccess(ip: Ip)
      requires Valid()
      modifies this`entries
      ensures Valid() && entries == old(entries) - {ip}
    {
      entries := entries - {ip};
    }
  }

  predicate IsLeast(heap: multiset<(Instant, Ip)>, least: (Instant, Ip)) {
    least in heap && forall r :: r in heap ==> RecordLeq(least, r)
  }

  lemma LeastWith(heap: multiset<(Instant, Ip)>, v: (Instant, Ip), w: (Instant, Ip)) returns (least: (Instant, Ip))
    requires IsLeast(heap, v)
    ensures IsLeast(heap + multiset{w}, least)
  {
    least := if RecordLeq(v, w) then v else w;
    forall r | r in heap + multiset{w} ensures RecordLeq(least, r) {
      assert r == w || r in heap;
    }
  }

  lemma {:induction false} LeastExists(heap: multiset<(Instant, Ip)>)
    requires heap != multiset{}
    ensures exists least :: IsLeast(heap, least)
    decreases |heap|
  {
    var w :| w in heap;
    var others := heap - multiset{w};
    assert heap == others + multiset{w};
    if others == multiset{} {
      assert heap == multiset{w};
      assert IsLeast(heap, w);
    } else {
      LeastExists(others);
      var v :| IsLeast(others, v);
      var least := LeastWith(others, v, w);
    }
  }

  lemma OldestIsUnique(starts: map<Ip, Instant>, v: Ip, w: Ip)
    requires IsOldest(starts, v) && IsOldest(starts, w)
    ensures v == w
  {}

  /** Removing the popped entry and its record leaves the other live records in the heap. */
  lemma KeepOthers(t: Table, heap: multiset<(Instant, Ip)>, victim: (Instant, Ip))
    requires forall ip :: ip in t ==> (t[ip].start, ip) in heap
    ensures forall ip :: ip in t - {victim.1} ==> (t[ip].start, ip) in heap - multiset{victim}
  {
    forall ip | ip in t - {victim.1} ensures (t[ip].start, ip) in heap - multiset{victim} {
      assert (t[ip].start, ip) != victim;
    }
  }

  // ----- Runs -----

  datatype Op = Failure(ip: Ip, now: Instant) | Success(ip: Ip)

  ghost function Next(t: Table, op: Op, limits: Limits): Table {
    match op
    case Failure(ip, now) => Failed(t, ip, now, limits)
    case Success(ip) => t - {ip}
  }

  ghost function Run(t: Table, ops: seq<Op>, limits: Limits): Table
    decreases ops
  {
    if ops == [] then t else Run(Next(t, ops[0], limits), ops[1..], limits)
  }

  lemma MakeRoomSize(t: Table, limits: Limits)
    requires |t| <= Max(limits.maxEntries, 1)
    ensures |MakeRoom(t, limits)| <= Max(limits.maxEntries, 1) - 1
    ensures |t| < limits.maxEntries ==> MakeRoom(t, limits) == t
    ensures |t| >= limits.maxEntries && t.Keys != {} ==> |MakeRoom(t, limits)| == |t| - 1
  {
    if |t| >= limits.maxEntries && t.Keys != {} {
      var v := Oldest(Starts(t));
      assert (t - {v}).Keys == t.Keys - {v};
      assert |t.Keys - {v}| == |t.Keys| - 1;
      assert |t| == |t.Keys| && |t - {v}| == |(t - {v}).Keys|;
    }
  }

  lemma PutSize(t: Table, ip: Ip, e: Entry)
    ensures |t[ip := e]| == if ip in t then |t| else |t| + 1
  {
    var put := t[ip := e];
    assert put.Keys == t.Keys + {ip};
    assert |t| == |t.Keys| && |put| == |put.Keys|;
    if ip in t { assert put.Keys == t.Keys; }
  }

  lemma CutSize(t: Table, ip: Ip)
    ensures |t - {ip}| <= |t|
  {
    var cut := t - {ip};
    assert cut.Keys == t.Keys - {ip};
    assert |t| == |t.Keys| && |cut| == |cut.Keys|;
  }

  lemma NextSize(t: Table, op: Op, limits: Limits)
    requires |t| <= Max(limits.maxEntries, 1)
    ensures |Next(t, op, limits)| <= Max(limits.maxEntries, 1)
  {
    var ip := op.ip;
    if op.Success? {
      CutSize(t, ip);
    } else if ip in t {
      PutSize(t, ip, Next(t, op, limits)[ip]);
    } else {
      MakeRoomSize(t, limits);
      PutSize(MakeRoom(t, limits), ip, Entry(1, op.now));
    }
  }

  /** Whatever happens, the table never outgrows its cap (or one entry, when the cap is zero). */
  lemma {:induction false} TableStaysBounded(t: Table, ops: seq<Op>, limits: Limits)
    requires |t| <= Max(limits.maxEntries, 1)
    ensures |Run(t, ops, limits)| <= Max(limits.maxEntries, 1)
    decreases ops
  {
    if ops != [] {
      NextSize(t, ops[0], limits);
      TableStaysBounded(Next(t, ops[0], limits), ops[1..], limits);
    }
  }

  /** `v` has the oldest window, and the smallest address among those that share it. */
  predicate FirstToGo(t: Table, v: Ip) {
    v in t && forall o :: o in t ==> t[v].start < t[o].start || (t[v].start == t[o].start && v <= o)
  }

  /**
   A failure makes room only for an address that is new to a full table, and what goes is the entry
   with the oldest window.
   */
  lemma EvictedIff(t: Table, ip: Ip, now: Instant, limits: Limits, v: Ip)
    ensures v in t && v !in Failed(t, ip, now, limits) <==> ip !in t && |t| >= limits.maxEntries && FirstToGo(t, v)
    ensures v in t && v != ip && v in Failed(t, ip, now, limits) ==> Failed(t, ip, now, limits)[v] == t[v]
  {
    if t.Keys != {} {
      var w := Oldest(Starts(t));
      assert FirstToGo(t, w);
      assert FirstToGo(t, v) ==> v == w;
    }
  }

  /** And something goes whenever such an address meets a full table that is not empty. */
  lemma RoomIsMade(t: Table, ip: Ip, now: Instant, limits: Limits)
    ensures (exists v :: v in t && v !in Failed(t, ip, now, limits)) <==> ip !in t && |t| >= limits.maxEntries && t.Keys != {}
  {
    if t.Keys != {} {
      var w := Oldest(Starts(t));
      assert FirstToGo(t, w);
      EvictedIff(t, ip, now, limits, w);
    }
    forall v | v in t && v !in Failed(t, ip, now, limits) ensures ip !in t && |t| >= limits.maxEntries {
      EvictedIff(t, ip, now, limits, v);
    }
  }

  // ----- What the table holds, address by address -----

  /** The failures of `ip` since its last success. */
  function Since(ops: seq<Op>, ip: Ip): seq<Instant> {
    if ops == [] then [] else
    var before, op := Since(ops[..|ops| - 1], ip), ops[|ops| - 1];
    if op.ip != ip then before else if op.Success? then [] else before + [op.now]
  }

  /** Where the window of the last of some failures starts: it outlasts the window length, and another starts. */
  function WindowStart(times: seq<Instant>, window: nat): Instant
    requires times != []
  {
    var at := times[|times| - 1];
    if |times| == 1 then at else
    var start := WindowStart(times[..|times| - 1], window);
    if at > start + window then at else start
  }

  /** How many of them are in that window. */
  function InLastWindow(times: seq<Instant>, window: nat): nat
    requires times != []
  {
    if |times| == 1 || times[|times| - 1] > WindowStart(times[..|times| - 1], window) + window then 1
    else InLastWindow(times[..|times| - 1], window) + 1
  }

  function Addresses(ops: seq<Op>): set<Ip> {
    set i | 0 <= i < |ops| :: ops[i].ip
  }

  predicate Remembers(t: Table, ip: Ip, times: seq<Instant>, limits: Limits) {
    && (ip in t <==> times != [])
    && (ip in t ==> t[ip] == Entry(InLastWindow(times, limits.window) % 0x1_0000_0000, WindowStart(times, limits.window)))
  }

  ghost predicate RemembersAll(t: Table, ops: seq<Op>, limits: Limits) {
    forall ip :: Remembers(t, ip, Since(ops, ip), limits)
  }

  lemma SinceStep(ops: seq<Op>, op: Op, ip: Ip)
    ensures Since(ops + [op], ip)
         == if op.ip != ip then Since(ops, ip) else if op.Success? then [] else Since(ops, ip) + [op.now]
  {
    assert (ops + [op])[..|ops|] == ops;
  }

  lemma WindowStep(times: seq<Instant>, at: Instant, window: nat)
    requires times != []
    ensures var more := times + [at]; var late := at > WindowStart(times, window) + window;
            && WindowStart(more, window) == (if late then at else WindowStart(times, window))
            && InLastWindow(more, window) == (if late then 1 else InLastWindow(times, window) + 1)
  {
    assert (times + [at])[..|times|] == times;
  }

  lemma {:induction false} SinceFailed(ops: seq<Op>, ip: Ip)
    ensures Since(ops, ip) != [] ==> ip in Addresses(ops)
  {
    if ops != [] {
      var n := |ops| - 1;
      SinceFailed(ops[..n], ip);
      assert Addresses(ops[..n]) <= Addresses(ops) && ops[n].ip in Addresses(ops);
    }
  }

  lemma {:induction false} FewerKeys(a: set<Ip>, b: set<Ip>)
    requires a <= b
    ensures |a| <= |b| && (a != b ==> |a| < |b|)
  {
    assert b == a + (b - a);
    if |b - a| == 0 { assert a == b; }
  }

  /** With room for every address there has been, an address new to the table evicts none. */
  lemma RoomEnough(t: Table, ops: seq<Op>, op: Op, limits: Limits)
    requires RemembersAll(t, ops, limits) && op.ip !in t && |Addresses(ops + [op])| <= limits.maxEntries
    ensures |t| < limits.maxEntries
  {
    var all := Addresses(ops + [op]);
    forall ip | ip in t ensures ip in all {
      assert Remembers(t, ip, Since(ops, ip), limits);
      SinceFailed(ops, ip);
      var i :| 0 <= i < |ops| && ops[i].ip == ip;
      assert (ops + [op])[i] == ops[i];
    }
    assert (ops + [op])[|ops|] == op;
    FewerKeys(t.Keys, all);
    assert |t| == |t.Keys|;
  }

  lemma RemembersFailure(t: Table, ip: Ip, times: seq<Instant>, at: Instant, limits: Limits)
    requires Remembers(t, ip, times, limits) && (ip in t || |t| < limits.maxEntries)
    ensures Remembers(Failed(t, ip, at, limits), ip, times + [at], limits)
  {
    if ip in t { WindowStep(times, at, limits.window); } else { assert times + [at] == [at]; }
  }

  lemma OthersKept(t: Table, ip: Ip, at: Instant, limits: Limits, v: Ip)
    requires v != ip && (ip in t || |t| < limits.maxEntries)
    ensures var after := Failed(t, ip, at, limits); (v in after <==> v in t) && (v in t ==> after[v] == t[v])
  {}

  lemma RemembersStep(t: Table, ops: seq<Op>, op: Op, limits: Limits)
    requires RemembersAll(t, ops, limits) && |Addresses(ops + [op])| <= limits.maxEntries
    ensures RemembersAll(Next(t, op, limits), ops + [op], limits)
  {
    if op.ip !in t { RoomEnough(t, ops, op, limits); }
    forall ip ensures Remembers(Next(t, op, limits), ip, Since(ops + [op], ip), limits) {
      SinceStep(ops, op, ip);
      assert Remembers(t, ip, Since(ops, ip), limits);
      if op.Failure? {
        if op.ip == ip { RemembersFailure(t, ip, Since(ops, ip), op.now, limits); }
        else { OthersKept(t, op.ip, op.now, limits, ip); }
      }
    }
  }

  lemma {:induction false} RemembersRun(t: Table, past: seq<Op>, ops: seq<Op>, limits: Limits)
    requires RemembersAll(t, past, limits) && |Addresses(past + ops)| <= limits.maxEntries
    ensures RemembersAll(Run(t, ops, limits), past + ops, limits)
    decreases ops
  {
    if ops == [] {
      assert past + [] == past;
    } else {
      assert past + ops == (past + [ops[0]]) + ops[1..];
      FewerAddresses(past + [ops[0]], ops[1..]);
      RemembersStep(t, past, ops[0], limits);
      RemembersRun(Next(t, ops[0], limits), past + [ops[0]], ops[1..], limits);
    }
  }

  lemma FewerAddresses(a: seq<Op>, b: seq<Op>)
    ensures |Addresses(a)| <= |Addresses(a + b)|
  {
    forall ip | ip in Addresses(a) ensures ip in Addresses(a + b) {
      var i :| 0 <= i < |a| && a[i].ip == ip;
      assert (a + b)[i] == a[i];
    }
    FewerKeys(Addresses(a), Addresses(a + b));
  }

  /**
   While the table has room for the addresses, each is tracked on its own: it is there exactly when
   it failed since its last success, and counts the failures since then that are in its window.
   */
  lemma TrackedSinceSuccess(ops: seq<Op>, limits: Limits, ip: Ip)
    requires |Addresses(ops)| <= limits.maxEntries
    ensures var t := Run(map[], ops, limits); var times := Since(ops, ip);
            && (ip in t <==> times != [])
            && (ip in t ==> t[ip] == Entry(InLastWindow(times, limits.window) % 0x1_0000_0000, WindowStart(times, limits.window)))
  {
    assert RemembersAll(map[], [], limits);
    assert [] + ops == ops;
    RemembersRun(map[], [], ops, limits);
    assert Remembers(Run(map[], ops, limits), ip, Since(ops, ip), limits);
  }

  // ----- Lockout signals, window by window -----

  /** A recorded failure, the window it fell into, and whether it signalled a lockout. */
  datatype Seen = Seen(ip: Ip, window: nat, lockout: bool)

  /** `windows` numbers the open window of each tracked address; numbers are never reused. */
  datatype History = History(windows: map<Ip, nat>, next: nat, log: seq<Seen>)

  ghost function Observe(t: Table, h: History, op: Op, limits: Limits): History
    requires h.windows.Keys == t.Keys
  {
    match op
    case Success(ip) => h.(windows := h.windows - {ip})
    case Failure(ip, now) =>
      var after := Failed(t, ip, now, limits);
      var opens := ip !in t || now > t[ip].start + limits.window;
      var id := if opens then h.next else h.windows[ip];
      var kept := map i | i in h.windows && i in after :: h.windows[i];
      History(kept[ip := id], if opens then h.next + 1 else h.next, h.log + [Seen(ip, id, after[ip].count == limits.threshold)])
  }

  function FailuresIn(log: seq<Seen>, id: nat): nat {
    if log == [] then 0
    else FailuresIn(log[..|log| - 1], id) + if log[|log| - 1].window == id then 1 else 0
  }

  /** Failure `i` of the log is the how-manieth of its window. */
  function Ordinal(log: seq<Seen>, i: nat): nat
    requires i < |log|
  {
    FailuresIn(log[..i + 1], log[i].window)
  }

  predicate CountsWindow(t: Table, h: History, ip: Ip)
    requires ip in t && ip in h.windows
  {
    h.windows[ip] < h.next && t[ip].count == FailuresIn(h.log, h.windows[ip]) % 0x1_0000_0000
  }

  predicate SignalsExactly(log: seq<Seen>, i: nat, limits: Limits)
    requires i < |log|
  {
    log[i].lockout <==> Ordinal(log, i) % 0x1_0000_0000 == limits.threshold
  }

  ghost predicate Consistent(t: Table, h: History, limits: Limits) {
    && h.windows.Keys == t.Keys
    && (forall ip :: ip in t ==> CountsWindow(t, h, ip))
    && (forall a, b :: a in h.windows && b in h.windows && a != b ==> h.windows[a] != h.windows[b])
    && (forall i :: 0 <= i < |h.log| ==> h.log[i].window < h.next)
    && (forall i :: 0 <= i < |h.log| ==> SignalsExactly(h.log, i, limits))
  }

  lemma {:induction false} FreshWindowIsEmpty(log: seq<Seen>, id: nat)
    requires forall i :: 0 <= i < |log| ==> log[i].window != id
    ensures FailuresIn(log, id) == 0
  {
    if log != [] { FreshWindowIsEmpty(log[..|log| - 1], id); }
  }

  lemma AppendCounts(log: seq<Seen>, s: Seen, id: nat)
    ensures FailuresIn(log + [s], id) == FailuresIn(log, id) + if s.window == id then 1 else 0
  {
    assert (log + [s])[..|log|] == log;
  }

  lemma AppendKeepsSignals(log: seq<Seen>, s: Seen, limits: Limits)
    requires forall i :: 0 <= i < |log| ==> SignalsExactly(log, i, limits)
    requires s.lockout <==> (FailuresIn(log, s.window) + 1) % 0x1_0000_0000 == limits.threshold
    ensures forall i :: 0 <= i < |log + [s]| ==> SignalsExactly(log + [s], i, limits)
  {
    var longer := log + [s];
    forall i | 0 <= i < |longer| ensures SignalsExactly(longer, i, limits) {
      if i < |log| {
        assert SignalsExactly(log, i, limits);
        assert longer[i] == log[i] && longer[..i + 1] == log[..i + 1];
      } else {
        assert longer[i] == s && longer[..i + 1] == longer;
        AppendCounts(log, s, s.window);
      }
    }
  }

  /** The entry a failure leaves behind counts the failures of its window. */
  lemma FailureCounts(t: Table, h: History, ip: Ip, now: Instant, limits: Limits)
    requires Consistent(t, h, limits)
    ensures var seen := Observe(t, h, Failure(ip, now), limits);
            Failed(t, ip, now, limits)[ip].count == (FailuresIn(h.log, seen.windows[ip]) + 1) % 0x1_0000_0000
  {
    assert ip in t ==> CountsWindow(t, h, ip);
    if ip !in t || now > t[ip].start + limits.window {
      FreshWindowIsEmpty(h.log, h.next);
    }
  }

  lemma FailureStep(t: Table, h: History, ip: Ip, now: Instant, limits: Limits)
    requires Consistent(t, h, limits)
    ensures Consistent(Failed(t, ip, now, limits), Observe(t, h, Failure(ip, now), limits), limits)
  {
    var after, seen := Failed(t, ip, now, limits), Observe(t, h, Failure(ip, now), limits);
    var s := seen.log[|h.log|];
    FailureCounts(t, h, ip, now, limits);
    AppendKeepsSignals(h.log, s, limits);
    forall o | o in after ensures CountsWindow(after, seen, o) {
      AppendCounts(h.log, s, seen.windows[o]);
      assert o in t ==> CountsWindow(t, h, o);
      assert o != ip ==> o in t && after[o] == t[o];
    }
  }

  lemma ConsistentStep(t: Table, h: History, op: Op, limits: Limits)
    requires Consistent(t, h, limits)
    ensures Consistent(Next(t, op, limits), Observe(t, h, op, limits), limits)
  {
    match op
    case Failure(ip, now) => FailureStep(t, h, ip, now, limits);
    case Success(ip) =>
      forall o | o in t - {ip} ensures CountsWindow(t - {ip}, Observe(t, h, op, limits), o) {
        assert CountsWindow(t, h, o);
      }
  }

  ghost function Record(t: Table, h: History, ops: seq<Op>, limits: Limits): History
    requires Consistent(t, h, limits)
    decreases ops
  {
    if ops == [] then h else
    ConsistentStep(t, h, ops[0], limits);
    Record(Next(t, ops[0], limits), Observe(t, h, ops[0], limits), ops[1..], limits)
  }

  lemma {:induction false} RecordConsistent(t: Table, h: History, ops: seq<Op>, limits: Limits)
    requires Consistent(t, h, limits)
    ensures Consistent(Run(t, ops, limits), Record(t, h, ops, limits), limits)
    decreases ops
  {
    if ops != [] {
      ConsistentStep(t, h, ops[0], limits);
      RecordConsistent(Next(t, ops[0], limits), Observe(t, h, ops[0], limits), ops[1..], limits);
    }
  }

  lemma {:induction false} FailuresGrow(log: seq<Seen>, i: nat, j: nat, id: nat)
    requires i <= j <= |log|
    ensures FailuresIn(log[..i], id) <= FailuresIn(log[..j], id)
    decreases j - i
  {
    if i < j {
      FailuresGrow(log, i, j - 1, id);
      assert log[..j] == log[..j - 1] + [log[j - 1]];
      AppendCounts(log[..j - 1], log[j - 1], id);
    }
  }

  /** The log of a tracker that starts empty. */
  ghost function Log(ops: seq<Op>, limits: Limits): seq<Seen> {
    Record(map[], History(map[], 0, []), ops, limits).log
  }

  /**
   In every run, a failure signals a lockout exactly when its position in its window is the
   threshold, modulo the 32-bit counter.
   */
  lemma LockoutAtThreshold(ops: seq<Op>, limits: Limits, i: nat)
    requires i < |Log(ops, limits)|
    ensures SignalsExactly(Log(ops, limits), i, limits)
  {
    RecordConsistent(map[], History(map[], 0, []), ops, limits);
  }

  /** So a window signals at most once in any 2^32 failures. */
  lemma LockoutOncePerWindow(ops: seq<Op>, limits: Limits, i: nat, j: nat)
    requires i < j < |Log(ops, limits)| && Log(ops, limits)[i].window == Log(ops, limits)[j].window
    ensures Ordinal(Log(ops, limits), i) < Ordinal(Log(ops, limits), j)
    ensures Log(ops, limits)[i].lockout && Log(ops, limits)[j].lockout ==>
              Ordinal(Log(ops, limits), j) >= Ordinal(Log(ops, limits), i) + 0x1_0000_0000
  {
    var log := Log(ops, limits);
    LockoutAtThreshold(ops, limits, i);
    LockoutAtThreshold(ops, limits, j);
    FailuresGrow(log, i + 1, j, log[i].window);
    assert log[..j + 1] == log[..j] + [log[j]];
    AppendCounts(log[..j], log[j], log[j].window);
  }

  // ----- The counter comes round -----

  /** `n` failures of one address at one instant. */
  function Hammer(ip: Ip, at: Instant, n: nat): seq<Op> {
    if n == 0 then [] else [Failure(ip, at)] + Hammer(ip, at, n - 1)
  }

  /** All failures of `log` are in window 0, its first. */
  predicate OneWindow(log: seq<Seen>) {
    forall i :: 0 <= i < |log| ==> log[i].window == 0
  }

  predicate Hammered(t: Table, h: History, ip: Ip, at: Instant) {
    && h.next == 1 && h.windows == map[ip := 0] && OneWindow(h.log)
    && t.Keys == {ip} && t[ip].start == at
  }

  lemma HammerStep(t: Table, h: History, ip: Ip, at: Instant, limits: Limits)
    requires Hammered(t, h, ip, at)
    ensures Hammered(Next(t, Failure(ip, at), limits), Observe(t, h, Failure(ip, at), limits), ip, at)
    ensures |Observe(t, h, Failure(ip, at), limits).log| == |h.log| + 1
  {}

  lemma {:induction false} HammerRun(t: Table, h: History, ip: Ip, at: Instant, n: nat, limits: Limits)
    requires Consistent(t, h, limits) && Hammered(t, h, ip, at)
    ensures var log := Record(t, h, Hammer(ip, at, n), limits).log; |log| == |h.log| + n && OneWindow(log)
    decreases n
  {
    if n > 0 {
      var op := Failure(ip, at);
      assert Hammer(ip, at, n)[0] == op && Hammer(ip, at, n)[1..] == Hammer(ip, at, n - 1);
      HammerStep(t, h, ip, at, limits);
      ConsistentStep(t, h, op, limits);
      HammerRun(Next(t, op, limits), Observe(t, h, op, limits), ip, at, n - 1, limits);
    }
  }

  lemma {:induction false} OneWindowOrdinals(log: seq<Seen>, i: nat)
    requires OneWindow(log) && i <= |log|
    ensures FailuresIn(log[..i], 0) == i
  {
    if i > 0 {
      OneWindowOrdinals(log, i - 1);
      assert log[..i] == log[..i - 1] + [log[i - 1]];
      AppendCounts(log[..i - 1], log[i - 1], 0);
    }
  }

  lemma HammerLog(ip: Ip, at: Instant, n: nat, limits: Limits)
    ensures |Log(Hammer(ip, at, n), limits)| == n && OneWindow(Log(Hammer(ip, at, n), limits))
  {
    if n > 0 {
      var none := History(map[], 0, []);
      var op := Failure(ip, at);
      assert Hammer(ip, at, n)[0] == op && Hammer(ip, at, n)[1..] == Hammer(ip, at, n - 1);
      ConsistentStep(map[], none, op, limits);
      HammerRun(Next(map[], op, limits), Observe(map[], none, op, limits), ip, at, n - 1, limits);
    }
  }

  /**
   One window is not limited to one signal: of any number of failures at one instant, the i-th
   signals exactly when i is the threshold modulo 2^32, so at threshold + 2^32 again.
   */
  lemma SignalsAgainAfterWrap(ip: Ip, at: Instant, n: nat, limits: Limits, i: nat)
    requires 1 <= i <= n
    ensures |Log(Hammer(ip, at, n), limits)| == n && OneWindow(Log(Hammer(ip, at, n), limits))
    ensures Log(Hammer(ip, at, n), limits)[i - 1].lockout <==> i % 0x1_0000_0000 == limits.threshold
    ensures i == limits.threshold + 0x1_0000_0000 ==> Log(Hammer(ip, at, n), limits)[i - 1].lockout
  {
    HammerLog(ip, at, n, limits);
    OneWindowOrdinals(Log(Hammer(ip, at, n), limits), i);
    LockoutAtThreshold(Hammer(ip, at, n), limits, i - 1);
  }

  // ----- How close the window comes to sliding -----

  /** Failures of `ip` at `times`, with nothing in between: does one of them signal? */
  ghost predicate SomeSignal(t: Table, ip: Ip, times: seq<Instant>, limits: Limits)
    decreases times
  {
    times != [] &&
    var after := Failed(t, ip, times[0], limits);
    after[ip].count == limits.threshold || SomeSignal(after, ip, times[1..], limits)
  }

  /** How many of the times fall into the window that is open for `ip`. */
  function InWindow(t: Table, ip: Ip, times: seq<Instant>, limits: Limits): (n: nat)
    ensures n <= |times|
  {
    if times == [] || ip !in t || times[0] > t[ip].start + limits.window then 0 else 1 + InWindow(t, ip, times[1..], limits)
  }

  predicate Rising(times: seq<Instant>) {
    forall i, j :: 0 <= i < j < |times| ==> times[i] <= times[j]
  }

  /** How many steps of the counter lie between the one after `count` and the threshold. */
  function StepsTo(count: u32, limits: Limits): nat {
    if limits.threshold > count then limits.threshold - count - 1 else limits.threshold - count - 1 + 0x1_0000_0000
  }

  /** Among the `n` values that follow `count` on a 32-bit counter is the threshold. */
  predicate Passes(count: u32, n: nat, limits: Limits) {
    StepsTo(count, limits) < n
  }

  /** Short of a wrap-around, that is an interval. */
  lemma PassesIff(count: u32, n: nat, limits: Limits)
    requires count + n < 0x1_0000_0000
    ensures Passes(count, n, limits) <==> count < limits.threshold <= count + n
  {}

  lemma PassesStep(count: u32, n: nat, limits: Limits)
    requires n > 0
    ensures Passes(count, n, limits) <==> Bump(count) == limits.threshold || Passes(Bump(count), n - 1, limits)
  {}

  /** While the window lasts, failures add up. */
  lemma {:induction false} SignalInWindow(t: Table, ip: Ip, times: seq<Instant>, limits: Limits)
    requires ip in t && forall i :: 0 <= i < |times| ==> times[i] <= t[ip].start + limits.window
    ensures SomeSignal(t, ip, times, limits) <==> Passes(t[ip].count, |times|, limits)
    decreases times
  {
    if times != [] {
      PassesStep(t[ip].count, |times|, limits);
      SignalInWindow(Failed(t, ip, times[0], limits), ip, times[1..], limits);
    }
  }

  /** Failures that open a window are counted from its start. */
  lemma SignalInNewWindow(t: Table, ip: Ip, times: seq<Instant>, limits: Limits)
    requires times != [] && Rising(times) && times[|times| - 1] <= times[0] + limits.window
    requires ip in t ==> times[0] > t[ip].start + limits.window
    ensures SomeSignal(t, ip, times, limits) <==> Passes(0, |times|, limits)
  {
    PassesStep(0, |times|, limits);
    SignalInWindow(Failed(t, ip, times[0], limits), ip, times[1..], limits);
  }

  lemma {:induction false} SameWindow(t: Table, u: Table, ip: Ip, times: seq<Instant>, limits: Limits)
    requires ip in t && ip in u && t[ip].start == u[ip].start
    ensures InWindow(t, ip, times, limits) == InWindow(u, ip, times, limits)
    decreases times
  {
    if times != [] { SameWindow(t, u, ip, times[1..], limits); }
  }

  /** The count of an address, zero while it is not tracked. */
  function CountOf(t: Table, ip: Ip): u32 {
    if ip in t then t[ip].count else 0
  }

  /**
   The documentation calls the window sliding, but it starts afresh when it expires. Failures of
   one address within one window length signal exactly when the count passes the threshold among
   those inside the running window, or among those after it; of an untracked address, all are.
   */
  lemma {:induction false} BurstSignalsIff(t: Table, ip: Ip, times: seq<Instant>, limits: Limits)
    requires times != [] && Rising(times) && times[|times| - 1] <= times[0] + limits.window
    ensures SomeSignal(t, ip, times, limits)
       <==> var n := InWindow(t, ip, times, limits);
            Passes(CountOf(t, ip), n, limits) || Passes(0, |times| - n, limits)
    decreases times
  {
    var n := InWindow(t, ip, times, limits);
    if n == 0 {
      SignalInNewWindow(t, ip, times, limits);
    } else if |times| == 1 {
      SignalInWindow(t, ip, times, limits);
    } else {
      var after := Failed(t, ip, times[0], limits);
      PassesStep(t[ip].count, n, limits);
      SameWindow(t, after, ip, times[1..], limits);
      BurstSignalsIff(after, ip, times[1..], limits);
    }
  }

  /** Short of a wrap-around: the two parts, as intervals. */
  lemma ShortBurstSignalsIff(t: Table, ip: Ip, times: seq<Instant>, limits: Limits)
    requires times != [] && Rising(times) && times[|times| - 1] <= times[0] + limits.window
    requires CountOf(t, ip) + |times| < 0x1_0000_0000
    ensures SomeSignal(t, ip, times, limits)
       <==> var n := InWindow(t, ip, times, limits);
            CountOf(t, ip) < limits.threshold <= CountOf(t, ip) + n || 1 <= limits.threshold <= |times| - n
  {
    var n, count := InWindow(t, ip, times, limits), CountOf(t, ip);
    BurstSignalsIff(t, ip, times, limits);
    PassesIff(count, n, limits);
    PassesIff(0, |times| - n, limits);
  }

  /** Three failures in three ticks, a window of ten and a threshold of three, and no signal. */
  lemma WindowDoesNotSlide(ip: Ip)
    ensures !SomeSignal(map[ip := Entry(1, 0)], ip, [9, 11, 12], Limits(3, 10, 1))
  {
    var t, limits := map[ip := Entry(1, 0)], Limits(3, 10, 1);
    assert [9, 11, 12][1..] == [11, 12];
    assert InWindow(t, ip, [11, 12], limits) == 0;
    ShortBurstSignalsIff(t, ip, [9, 11, 12], limits);
  }
}
