/**
 * The snowflake id generator of the unique-ids exercise
 * (maelstrom-unique-ids/pkg/snowflake/snowflake.go).
 *
 * It differs from the broadcast exercise's worker in three ways: the
 * timestamp sits above bit 24 (shifted by workerIdShift + sequenceBits, so
 * bits 22-23 stay zero), the stored sequence is the masked counter plus one
 * (so ids never end in twelve zero bits and the sequence is always odd), and
 * there is no check that the clock went backwards: an earlier reading simply
 * restarts the sequence, which can repeat an id.
 *
 * The id is a signed 64-bit integer; the clock reading is a parameter, and
 * `later` stands for the reading that waiting for the next millisecond
 * (nextMillis) returns.
 */
module SnowflakeGenerator {
  import opened Wrappers

  const SequenceMask := 4095
  const MaxNodeId := 1023
  /** 1 << workerIdShift (workerIdShift = 12). */
  const WorkerIdUnit := 0x1000
  /** 1 << timestampLeftShift (timestampLeftShift = 12 + 12 = 24). */
  const TimestampUnit := 0x100_0000
  const Epoch := 1704067200000
  const TwoTo63 := 0x8000_0000_0000_0000
  const TwoTo64 := 0x1_0000_0000_0000_0000
  /** Timestamps (relative to the epoch) whose ids stay below 2^63, so positive. */
  const TimestampSpan := 0x80_0000_0000

  /** Two's-complement wrap-around of an int64 result. */
  function WrapInt64(x: int): (r: int)
    ensures -TwoTo63 <= r < TwoTo63
    ensures (r - x) % TwoTo64 == 0
  {
    (x + TwoTo63) % TwoTo64 - TwoTo63
  }

  /**
   * The id: timestamp, node id and sequence shifted into place and OR-ed
   * (disjoint bits for a sequence below 4096: a sum), as an int64.
   */
  function Pack(timestamp: int, nodeId: int, sequence: int): int
  {
    WrapInt64((timestamp - Epoch) * TimestampUnit + nodeId * WorkerIdUnit + sequence)
  }

  predicate InRange(timestamp: int)
  {
    Epoch <= timestamp < Epoch + TimestampSpan
  }

  datatype GeneratorState = GeneratorState(nodeId: int, sequence: int, lastTimestamp: int)

  /**
   * The states the generator reaches: before the first id the sequence and
   * clock are 0; afterwards the sequence is odd and in [1, 4095].
   */
  predicate Valid(g: GeneratorState)
  {
    && 0 <= g.nodeId <= MaxNodeId
    && ((g.sequence == 0 && g.lastTimestamp == 0) || (1 <= g.sequence <= SequenceMask && g.sequence % 2 == 1))
  }

  /** NewGenerator: a negative node id is refused; otherwise nodeId & maxNodeId, sequence and clock 0. */
  function NewGeneratorState(nodeId: int): (r: Option<GeneratorState>)
    ensures r.None? <==> nodeId < 0
    ensures r.Some? ==> Valid(r.value) && r.value.nodeId == nodeId % (MaxNodeId + 1)
    ensures r.Some? ==> r.value.sequence == 0 && r.value.lastTimestamp == 0
  {
    if 0 > nodeId then None else Some(GeneratorState(nodeId % (MaxNodeId + 1), 0, 0))
  }

  /**
   * NextId with clock reading `timestamp`: in the same millisecond the
   * masked sequence advances and, when it wraps to 0, the id moves to the
   * later reading; any other reading (later or earlier) restarts it at 0.
   * Either way one is added before packing.
   */
  function Next(g: GeneratorState, timestamp: int, later: int): (r: (int, GeneratorState))
    requires Valid(g)
  {
    var (masked, t) :=
      if g.lastTimestamp == timestamp then
        var s := (g.sequence + 1) % (SequenceMask + 1);
        (s, if s == 0 then later else timestamp)
      else (0, timestamp);
    var n := GeneratorState(g.nodeId, masked + 1, t);
    (Pack(t, g.nodeId, n.sequence), n)
  }

  /**
   * One call keeps the state reachable (sequence odd, in [1, 4095]) for a
   * clock reading after the epoch; in the same millisecond it advances the
   * sequence by exactly 2 unless the masked counter wraps, and then the
   * timestamp moves past the last one; any other reading gives sequence 1.
   */
  lemma NextSpec(g: GeneratorState, timestamp: int, later: int)
    requires Valid(g) && timestamp >= Epoch && later > timestamp
    ensures var (id, n) := Next(g, timestamp, later);
      && Valid(n) && n.nodeId == g.nodeId && 1 <= n.sequence <= SequenceMask && n.sequence % 2 == 1
      && (g.lastTimestamp == timestamp && g.sequence < SequenceMask ==>
            n.sequence == g.sequence + 2 && n.lastTimestamp == timestamp)
      && (g.lastTimestamp == timestamp && g.sequence == SequenceMask ==>
            n.sequence == 1 && n.lastTimestamp > g.lastTimestamp)
      && (g.lastTimestamp != timestamp ==> n.sequence == 1 && n.lastTimestamp == timestamp)
      && id == Pack(n.lastTimestamp, n.nodeId, n.sequence)
  {
  }

  /** Without the int64 wrap, in range, the id is the plain sum of its fields. */
  lemma PackNoWrap(timestamp: int, nodeId: int, sequence: int)
    requires InRange(timestamp) && 0 <= nodeId <= MaxNodeId && 0 <= sequence <= SequenceMask
    ensures Pack(timestamp, nodeId, sequence) == (timestamp - Epoch) * TimestampUnit + nodeId * WorkerIdUnit + sequence
  {
    var x := (timestamp - Epoch) * TimestampUnit + nodeId * WorkerIdUnit + sequence;
    assert 0 <= x + TwoTo63 < TwoTo64;
    DivMod(0, x + TwoTo63, TwoTo64);
  }

  /** Ids are positive, since the sequence is at least 1 (for readings in range). */
  lemma PackPositive(timestamp: int, nodeId: int, sequence: int)
    requires InRange(timestamp) && 0 <= nodeId <= MaxNodeId && 1 <= sequence <= SequenceMask
    ensures Pack(timestamp, nodeId, sequence) > 0
  {
    PackNoWrap(timestamp, nodeId, sequence);
  }

  /**
   * The layout: the sequence in the low 12 bits, the node id in bits 12-21,
   * bits 22-23 zero and the timestamp since the epoch from bit 24.
   */
  lemma PackDecode(timestamp: int, nodeId: int, sequence: int)
    requires InRange(timestamp) && 0 <= nodeId <= MaxNodeId && 0 <= sequence <= SequenceMask
    ensures Pack(timestamp, nodeId, sequence) % WorkerIdUnit == sequence
    ensures Pack(timestamp, nodeId, sequence) / WorkerIdUnit == (timestamp - Epoch) * 0x1000 + nodeId
    ensures (Pack(timestamp, nodeId, sequence) / WorkerIdUnit) % 0x1000 == nodeId
    ensures Pack(timestamp, nodeId, sequence) / TimestampUnit == timestamp - Epoch
  {
    PackNoWrap(timestamp, nodeId, sequence);
    var t := timestamp - Epoch;
    var id := t * TimestampUnit + nodeId * WorkerIdUnit + sequence;
    assert id == (t * 0x1000 + nodeId) * WorkerIdUnit + sequence;
    DivMod(t * 0x1000 + nodeId, sequence, WorkerIdUnit);
    DivMod(t, nodeId, 0x1000);
    assert id == t * TimestampUnit + (nodeId * WorkerIdUnit + sequence);
    DivMod(t, nodeId * WorkerIdUnit + sequence, TimestampUnit);
  }

  /** In range, ids of one node are ordered by (timestamp, sequence). */
  lemma PackOrdered(t1: int, s1: int, t2: int, s2: int, nodeId: int)
    requires InRange(t1) && InRange(t2) && 0 <= nodeId <= MaxNodeId
    requires 0 <= s1 <= SequenceMask && 0 <= s2 <= SequenceMask
    requires t1 < t2 || (t1 == t2 && s1 < s2)
    ensures Pack(t1, nodeId, s1) < Pack(t2, nodeId, s2)
  {
    PackNoWrap(t1, nodeId, s1);
    PackNoWrap(t2, nodeId, s2);
    if t1 < t2 {
      assert (t2 - Epoch) * TimestampUnit >= (t1 - Epoch) * TimestampUnit + TimestampUnit;
    }
  }

  /** The id a state last issued, or 0 before the first id. */
  function LastId(g: GeneratorState): int
  {
    if g.lastTimestamp >= Epoch then Pack(g.lastTimestamp, g.nodeId, g.sequence) else 0
  }

  /** A clock reading and the reading after waiting for the next millisecond. */
  datatype Reading = Reading(timestamp: int, later: int)

  /** A call with a reading that is not behind the clock issues an id above the last one. */
  lemma NextIncreases(g: GeneratorState, r: Reading)
    requires Valid(g) && g.lastTimestamp < Epoch + TimestampSpan
    requires InRange(r.timestamp) && InRange(r.later) && r.later > r.timestamp && r.timestamp >= g.lastTimestamp
    ensures var (id, n) := Next(g, r.timestamp, r.later);
      id > LastId(g) && id == LastId(n) && Valid(n) && InRange(n.lastTimestamp)
  {
    NextSpec(g, r.timestamp, r.later);
    var (id, n) := Next(g, r.timestamp, r.later);
    PackPositive(n.lastTimestamp, n.nodeId, n.sequence);
    if g.lastTimestamp >= Epoch {
      PackOrdered(g.lastTimestamp, g.sequence, n.lastTimestamp, n.sequence, g.nodeId);
    }
  }

  /** The ids of a run of calls. */
  function Run(g: GeneratorState, readings: seq<Reading>): seq<int>
    requires Valid(g)
    decreases |readings|
  {
    if readings == [] then []
    else
      var (id, n) := Next(g, readings[0].timestamp, readings[0].later);
      if Valid(n) then [id] + Run(n, readings[1..]) else []
  }

  /**
   * Readings of a clock that does not go back behind the last timestamp
   * used: each reading is in range, its wait ends after it, and it is no
   * earlier than the timestamp the previous call left in the state. Several
   * readings in one millisecond qualify.
   */
  predicate Monotone(g: GeneratorState, readings: seq<Reading>)
    requires Valid(g)
    decreases |readings|
  {
    readings == [] ||
      var r := readings[0];
      && InRange(r.timestamp) && InRange(r.later) && r.later > r.timestamp
      && r.timestamp >= g.lastTimestamp
      && var n := Next(g, r.timestamp, r.later).1;
      && Valid(n)
      && Monotone(n, readings[1..])
  }

  predicate StrictlyIncreasing(xs: seq<int>)
  {
    forall i, j :: 0 <= i < j < |xs| ==> xs[i] < xs[j]
  }

  /**
   * With a clock that does not go back behind the last timestamp used, the
   * ids of one generator strictly increase (so they are distinct) and are
   * positive; calls in one millisecond included.
   */
  lemma {:induction false} RunIncreasing(g: GeneratorState, readings: seq<Reading>)
    requires Valid(g) && g.lastTimestamp < Epoch + TimestampSpan
    requires Monotone(g, readings)
    ensures StrictlyIncreasing(Run(g, readings))
    ensures forall i :: 0 <= i < |Run(g, readings)| ==> Run(g, readings)[i] > LastId(g) >= 0
    decreases |readings|
  {
    if readings != [] {
      var r := readings[0];
      NextIncreases(g, r);
      var (id, n) := Next(g, r.timestamp, r.later);
      RunIncreasing(n, readings[1..]);
      assert Run(g, readings) == [id] + Run(n, readings[1..]);
    }
  }

  /**
   * Three calls in the epoch's first millisecond: the readings qualify,
   * the sequence goes 1, 3, 5, and the three ids strictly increase.
   */
  lemma SameMillisecondRun()
    ensures var rs := [Reading(Epoch, Epoch + 1), Reading(Epoch, Epoch + 1), Reading(Epoch, Epoch + 1)];
      && Monotone(GeneratorState(1, 0, 0), rs)
      && Run(GeneratorState(1, 0, 0), rs) == [Pack(Epoch, 1, 1), Pack(Epoch, 1, 3), Pack(Epoch, 1, 5)]
      && StrictlyIncreasing(Run(GeneratorState(1, 0, 0), rs))
  {
    var rs := [Reading(Epoch, Epoch + 1), Reading(Epoch, Epoch + 1), Reading(Epoch, Epoch + 1)];
    var g0 := GeneratorState(1, 0, 0);
    var g1 := GeneratorState(1, 1, Epoch);
    var g2 := GeneratorState(1, 3, Epoch);
    var g3 := GeneratorState(1, 5, Epoch);
    assert Next(g0, Epoch, Epoch + 1) == (Pack(Epoch, 1, 1), g1);
    assert Next(g1, Epoch, Epoch + 1) == (Pack(Epoch, 1, 3), g2);
    assert Next(g2, Epoch, Epoch + 1) == (Pack(Epoch, 1, 5), g3);
    assert rs[1..][1..][1..] == [];
    assert Monotone(g2, rs[1..][1..]);
    assert Monotone(g1, rs[1..]);
    assert Run(g2, rs[1..][1..]) == [Pack(Epoch, 1, 5)];
    assert Run(g1, rs[1..]) == [Pack(Epoch, 1, 3), Pack(Epoch, 1, 5)];
    RunIncreasing(g0, rs);
  }

  /** Every id of a run carries the generator's node id in bits 12-21. */
  lemma {:induction false} RunCarriesNode(g: GeneratorState, readings: seq<Reading>)
    requires Valid(g)
    requires forall i :: 0 <= i < |readings| ==> InRange(readings[i].timestamp) && InRange(readings[i].later) && readings[i].later > readings[i].timestamp
    ensures forall i :: 0 <= i < |Run(g, readings)| ==> (Run(g, readings)[i] / WorkerIdUnit) % 0x1000 == g.nodeId
    decreases |readings|
  {
    if readings != [] {
      var r := readings[0];
      assert InRange(r.timestamp) && InRange(r.later) && r.later > r.timestamp;
      NextSpec(g, r.timestamp, r.later);
      var (id, n) := Next(g, r.timestamp, r.later);
      PackDecode(n.lastTimestamp, n.nodeId, n.sequence);
      RunCarriesNode(n, readings[1..]);
      assert Run(g, readings) == [id] + Run(n, readings[1..]);
    }
  }

  /** Generators with different node ids (1 and 2, say) never issue the same id. */
  lemma RunsDisjoint(g1: GeneratorState, c1: seq<Reading>, g2: GeneratorState, c2: seq<Reading>)
    requires Valid(g1) && Valid(g2) && g1.nodeId != g2.nodeId
    requires forall i :: 0 <= i < |c1| ==> InRange(c1[i].timestamp) && InRange(c1[i].later) && c1[i].later > c1[i].timestamp
    requires forall i :: 0 <= i < |c2| ==> InRange(c2[i].timestamp) && InRange(c2[i].later) && c2[i].later > c2[i].timestamp
    ensures forall i, j :: 0 <= i < |Run(g1, c1)| && 0 <= j < |Run(g2, c2)| ==> Run(g1, c1)[i] != Run(g2, c2)[j]
  {
    RunCarriesNode(g1, c1);
    RunCarriesNode(g2, c2);
  }

  /**
   * Without a regression check, a clock that goes back repeats an id: after
   * ids at the epoch and one millisecond later, a second reading at the
   * epoch issues the first id again.
   */
  lemma RegressionRepeatsId()
    ensures var g0 := GeneratorState(1, 0, 0);
      var (id1, g1) := Next(g0, Epoch, Epoch + 1);
      var (id2, g2) := Next(g1, Epoch + 1, Epoch + 2);
      var (id3, g3) := Next(g2, Epoch, Epoch + 1);
      id1 != id2 && id3 == id1
  {
    PackOrdered(Epoch, 1, Epoch + 1, 1, 1);
  }

  /** The generator object; NextId updates its sequence and last timestamp in place. */
  class Generator {
    var nodeId: int
    var sequence: int
    var lastTimestamp: int

    function Abs(): GeneratorState
      reads this
    {
      GeneratorState(nodeId, sequence, lastTimestamp)
    }

    constructor (nodeId: int)
      requires 0 <= nodeId
      ensures Abs() == GeneratorState(nodeId % (MaxNodeId + 1), 0, 0)
    {
      this.nodeId := nodeId % (MaxNodeId + 1);
      sequence := 0;
      lastTimestamp := 0;
    }

    /** NextId with the clock reading `timestamp` (and `later` for the wait). */
    method NextId(timestamp: int, later: int) returns (id: int)
      requires Valid(Abs()) && timestamp >= Epoch && later > timestamp
      modifies this
      ensures (id, Abs()) == Next(old(Abs()), timestamp, later)
      ensures Valid(Abs())
    {
      var t := timestamp;
      if lastTimestamp == t {
        sequence := (sequence + 1) % (SequenceMask + 1);
        if sequence == 0 {
          t := later;
        }
      } else {
        sequence := 0;
      }
      sequence := sequence + 1;
      lastTimestamp := t;
      id := Pack(t, nodeId, sequence);
      NextSpec(old(Abs()), timestamp, later);
    }
  }

  /** NewGenerator: no generator for a negative node id. */
  method NewGenerator(nodeId: int) returns (g: Generator?)
    ensures g == null <==> nodeId < 0
    ensures g != null ==> fresh(g) && NewGeneratorState(nodeId) == Some(g.Abs())
  {
    if 0 > nodeId {
      return null;
    }
    g := new Generator(nodeId);
  }
}
