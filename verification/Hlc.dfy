/**
 The hybrid logical clock of crates/core/src/hlc.rs.

 A timestamp's wall time and logical counter are the high 64 and the low 32 bits of one 96-bit
 number, its ticks. Read that way, the branches of `send` and `receive` all say the same thing:
 the next ticks are the largest of "one more than what I last issued", "one more than what I
 observed" and "my physical clock, with a zero counter", modulo 2^96.
 */
module Hlc {
  import opened Prelude

  const TICKS_PER_MS := 0x1_0000_0000
  const TICK_LIMIT := 0x1_0000_0000_0000_0000_0000_0000
  const U32_MAX: u32 := 0xFFFF_FFFF
  const DEFAULT_MAX_CLOCK_SKEW_MS: u64 := 5_000

  type NodeId = s: seq<byte> | |s| == 8 witness [0, 0, 0, 0, 0, 0, 0, 0]

  datatype Timestamp = Timestamp(wall: u64, logical: u32, node: NodeId) {
    function Ticks(): nat {
      wall * TICKS_PER_MS + logical
    }

    /** The derived order: wall time, then counter, then node id. */
    predicate Less(that: Timestamp) {
      || wall < that.wall
      || (wall == that.wall && logical < that.logical)
      || (wall == that.wall && logical == that.logical && LexLess(node, that.node))
    }
  }

  datatype HlcError = ClockSkewExceeded(observed: u64, now: u64, maxSkew: u64)

  /** The timestamp of `node` with the given number of ticks, wrapped to 96 bits. */
  function AtTicks(ticks: nat, node: NodeId): (t: Timestamp)
    ensures t.node == node && t.Ticks() == ticks % TICK_LIMIT
    ensures t.Ticks() <= ticks && (ticks < TICK_LIMIT ==> t.Ticks() == ticks)
  {
    var wrapped := ticks % TICK_LIMIT;
    Timestamp(wrapped / TICKS_PER_MS, wrapped % TICKS_PER_MS, node)
  }

  /** The derived order is the order of the ticks, with the node id breaking ties. */
  lemma OrderIsTicksThenNode(a: Timestamp, b: Timestamp)
    ensures a.Less(b) <==> a.Ticks() < b.Ticks() || (a.Ticks() == b.Ticks() && LexLess(a.node, b.node))
    ensures a == b <==> a.Ticks() == b.Ticks() && a.node == b.node
  {
    if a.wall != b.wall {
      assert a.wall < b.wall ==> a.wall + 1 <= b.wall;
    }
  }

  lemma OrderIsStrictAndTotal(a: Timestamp, b: Timestamp, c: Timestamp)
    ensures a.Less(b) || a == b || b.Less(a)
    ensures a.Less(b) ==> a != b && !b.Less(a)
    ensures a.Less(b) && b.Less(c) ==> a.Less(c)
  {
    LexTotal(a.node, b.node);
    if LexLess(a.node, b.node) { LexAsymmetric(a.node, b.node); }
    if LexLess(a.node, b.node) && LexLess(b.node, c.node) { LexTransitive(a.node, b.node, c.node); }
  }

  /** A physical reading, as ticks. */
  function Reading(now: u64): nat {
    now * TICKS_PER_MS
  }

  function SentTicks(last: Timestamp, now: u64): nat {
    Max(last.Ticks() + 1, Reading(now))
  }

  function ReceivedTicks(last: Timestamp, now: u64, observed: Timestamp): nat {
    Max(SentTicks(last, now), observed.Ticks() + 1)
  }

  predicate SkewExceeded(now: u64, observed: Timestamp, maxSkew: u64) {
    observed.wall > now + maxSkew
  }

  class HlcClock {
    var last: Timestamp
    const nodeId: NodeId
    const maxSkew: u64

    ghost predicate Valid()
      reads this
    {
      last.node == nodeId
    }

    constructor (nodeId: NodeId, initialWall: u64)
      ensures Valid() && this.nodeId == nodeId && maxSkew == DEFAULT_MAX_CLOCK_SKEW_MS
      ensures last.Ticks() == Reading(initialWall)
    {
      last := Timestamp(initialWall, 0, nodeId);
      this.nodeId := nodeId;
      maxSkew := DEFAULT_MAX_CLOCK_SKEW_MS;
    }

    /** Seeding resumes from the later of the checkpoint and the physical clock. */
    constructor Seeded(nodeId: NodeId, now: u64, checkpoint: Timestamp)
      ensures Valid() && this.nodeId == nodeId && maxSkew == DEFAULT_MAX_CLOCK_SKEW_MS
      ensures last.Ticks() == Max(checkpoint.Ticks(), Reading(now))
    {
      if checkpoint.wall >= now {
        last := Timestamp(checkpoint.wall, checkpoint.logical, nodeId);
      } else {
        last := Timestamp(now, 0, nodeId);
      }
      this.nodeId := nodeId;
      maxSkew := DEFAULT_MAX_CLOCK_SKEW_MS;
    }

    /**
     The overflow handling every tie shares: add one to the counter, or carry into the wall time
     when the counter is exhausted. The carry wraps, as an optimised build computes it.
     */
    static method Bump(wall: u64, logical: u32) returns (w: u64, l: u32)
      ensures w * TICKS_PER_MS + l == (wall * TICKS_PER_MS + logical + 1) % TICK_LIMIT
    {
      if logical < U32_MAX {
        w, l := wall, logical + 1;
      } else if wall < U64_MAX {
        w, l := wall + 1, 0;
      } else {
        w, l := 0, 0;
      }
    }

    method Send(now: u64) returns (t: Timestamp)
      requires Valid()
      modifies this`last
      ensures Valid() && t == last
      ensures last == AtTicks(SentTicks(old(last), now), nodeId)
    {
      var newWall, newLogical := Max(last.wall, now), 0;
      if newWall == last.wall {
        newWall, newLogical := Bump(newWall, last.logical);
      }
      t := Timestamp(newWall, newLogical, nodeId);
      OrderIsTicksThenNode(t, AtTicks(SentTicks(last, now), nodeId));
      last := t;
    }

    /** A rejected receive changes nothing; an accepted one moves past both clocks. */
    method Receive(now: u64, observed: Timestamp) returns (r: Result<Timestamp, HlcError>)
      requires Valid()
      modifies this`last
      ensures Valid()
      ensures r.Err? <==> observed.wall > now + maxSkew
      ensures r.Err? ==> last == old(last) && r.error == ClockSkewExceeded(observed.wall, now, maxSkew)
      ensures r.Ok? ==> r.value == last && last == AtTicks(ReceivedTicks(old(last), now, observed), nodeId)
    {
      if observed.wall > now && observed.wall - now > maxSkew {
        return Err(ClockSkewExceeded(observed.wall, now, maxSkew));
      }
      var newWall, newLogical := Max(Max(last.wall, observed.wall), now), 0;
      if newWall == last.wall && newWall == observed.wall {
        newWall, newLogical := Bump(newWall, Max(last.logical, observed.logical));
      } else if newWall == last.wall {
        newWall, newLogical := Bump(newWall, last.logical);
      } else if newWall == observed.wall {
        newWall, newLogical := Bump(newWall, observed.logical);
      }
      var t := Timestamp(newWall, newLogical, nodeId);
      assert t.Ticks() == ReceivedTicks(last, now, observed) % TICK_LIMIT;
      OrderIsTicksThenNode(t, AtTicks(ReceivedTicks(last, now, observed), nodeId));
      last := t;
      r := Ok(t);
    }
  }

  /** A send moves the clock forward exactly when the 96-bit counter is not exhausted. */
  lemma SendAdvancesUnlessExhausted(last: Timestamp, now: u64)
    ensures last.Less(AtTicks(SentTicks(last, now), last.node)) <==> !(last.wall == U64_MAX && last.logical == U32_MAX)
  {
    OrderIsTicksThenNode(last, AtTicks(SentTicks(last, now), last.node));
    if LexLess(last.node, last.node) { LexAsymmetric(last.node, last.node); }
  }

  /** Earlier by wall time and counter, whatever the nodes. */
  predicate Before(a: Timestamp, b: Timestamp) {
    a.wall < b.wall || (a.wall == b.wall && a.logical < b.logical)
  }

  predicate Exhausted(t: Timestamp) {
    t.wall == U64_MAX && t.logical == U32_MAX
  }

  /** `r` is not before the reading and past each of `pasts`, and no timestamp before it is both. */
  ghost predicate FirstAfter(r: Timestamp, now: u64, pasts: set<Timestamp>) {
    && r.wall >= now && (forall p :: p in pasts ==> Before(p, r))
    && forall t: Timestamp :: t.wall >= now && (forall p :: p in pasts ==> Before(p, t)) ==> !Before(t, r)
  }

  lemma BeforeIsTicks(a: Timestamp, b: Timestamp)
    ensures Before(a, b) <==> a.Ticks() < b.Ticks()
  {
    assert a.wall < b.wall ==> a.wall + 1 <= b.wall;
    assert b.wall < a.wall ==> b.wall + 1 <= a.wall;
  }

  lemma ReadingIsTicks(t: Timestamp, now: u64)
    ensures t.wall >= now <==> t.Ticks() >= Reading(now)
  {
    assert t.wall < now ==> t.wall + 1 <= now;
  }

  lemma ExhaustedIsTicks(t: Timestamp)
    ensures Exhausted(t) <==> t.Ticks() == TICK_LIMIT - 1
  {}

  /** What a send issues is the first timestamp that is not before the reading and past the last one. */
  lemma SentIsFirst(last: Timestamp, now: u64, node: NodeId)
    requires !Exhausted(last)
    ensures FirstAfter(AtTicks(SentTicks(last, now), node), now, {last})
  {
    var r := AtTicks(SentTicks(last, now), node);
    ExhaustedIsTicks(last);
    BeforeIsTicks(last, r);
    ReadingIsTicks(r, now);
    forall t: Timestamp | t.wall >= now && (forall p :: p in {last} ==> Before(p, t)) ensures !Before(t, r) {
      assert Before(last, t);
      BeforeIsTicks(last, t);
      BeforeIsTicks(t, r);
      ReadingIsTicks(t, now);
    }
  }

  /** And what an accepted receive issues is the first that is past the observed one too. */
  lemma ReceivedIsFirst(last: Timestamp, now: u64, observed: Timestamp, node: NodeId)
    requires !Exhausted(last) && !Exhausted(observed)
    ensures FirstAfter(AtTicks(ReceivedTicks(last, now, observed), node), now, {last, observed})
  {
    var r := AtTicks(ReceivedTicks(last, now, observed), node);
    ExhaustedIsTicks(last);
    ExhaustedIsTicks(observed);
    BeforeIsTicks(last, r);
    BeforeIsTicks(observed, r);
    ReadingIsTicks(r, now);
    forall t: Timestamp | t.wall >= now && (forall p :: p in {last, observed} ==> Before(p, t)) ensures !Before(t, r) {
      assert Before(last, t) && Before(observed, t);
      BeforeIsTicks(last, t);
      BeforeIsTicks(observed, t);
      BeforeIsTicks(t, r);
      ReadingIsTicks(t, now);
    }
  }
}
