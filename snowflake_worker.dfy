/**
 * The snowflake id worker of the broadcast exercise
 * (3c-maelstrom-broadcast/snowflake/snowflake.go).
 *
 * An id packs three fields into a 64-bit word: the milliseconds since a
 * fixed epoch above bit 22, the node id in bits 12-21 and a per-millisecond
 * sequence number in the low 12 bits. The worker refuses to issue an id when
 * the clock reading is behind the last one it used; when the sequence of
 * one millisecond is exhausted it waits for the next millisecond.
 *
 * The wall clock is not modelled: every call takes the clock reading
 * `timestamp`, and `later` stands for the reading the busy-wait (nextMillis)
 * would return, which is after `timestamp`.
 */
module SnowflakeWorker {
  import opened Wrappers

  const SequenceBits := 12
  const NodeIdBits := 10
  /** -1 ^ (-1 << sequenceBits): the low 12 bits. */
  const SequenceMask := 4095
  /** -1 ^ (-1 << nodeIdBits): the low 10 bits. */
  const MaxNodeId := 1023
  /** 1 << nodeIdShift, the node id's place value (nodeIdShift = 12). */
  const NodeIdUnit := 0x1000
  /** 1 << timestampLeftShift, the timestamp's place value (timestampLeftShift = 22). */
  const TimestampUnit := 0x40_0000
  /** Milliseconds of 2024-01-01T00:00:00Z. */
  const Epoch := 1704067200000
  const TwoTo64 := 0x1_0000_0000_0000_0000
  /** Timestamps (relative to the epoch) that fit the 42 bits above the node id. */
  const TimestampSpan := 0x400_0000_0000

  /**
   * The id: the three shifted fields OR-ed together (their bits do not
   * overlap, so the OR is a sum) and converted to uint64, which keeps the low
   * 64 bits.
   */
  function Pack(timestamp: int, nodeId: int, sequence: int): (id: int)
    ensures 0 <= id < TwoTo64
  {
    ((timestamp - Epoch) * TimestampUnit + nodeId * NodeIdUnit + sequence) % TwoTo64
  }

  /** The readings whose ids do not wrap: from the epoch, for 2^42 milliseconds. */
  predicate InRange(timestamp: int)
  {
    Epoch <= timestamp < Epoch + TimestampSpan
  }

  /** The worker's state: its node id, the current sequence and the last timestamp used. */
  datatype WorkerState = WorkerState(nodeId: int, sequence: int, lastTimestamp: int)

  predicate Valid(w: WorkerState)
  {
    0 <= w.nodeId <= MaxNodeId && 0 <= w.sequence <= SequenceMask
  }

  /** NewWorker: a negative node id is refused; otherwise nodeId & maxNodeId, sequence and clock 0. */
  function NewWorkerState(nodeId: int): (r: Option<WorkerState>)
    ensures r.None? <==> nodeId < 0
    ensures r.Some? ==> Valid(r.value) && r.value.nodeId == nodeId % (MaxNodeId + 1)
    ensures r.Some? ==> r.value.sequence == 0 && r.value.lastTimestamp == 0
  {
    if 0 > nodeId then None else Some(WorkerState(nodeId % (MaxNodeId + 1), 0, 0))
  }

  /** What one call of nextId does. */
  datatype Outcome = ClockMovedBackwards | Issued(id: int, next: WorkerState)

  /**
   * nextId with clock reading `timestamp`: an error when the clock is behind
   * the last timestamp; in the same millisecond the sequence advances modulo
   * 4096 and, when it wraps to 0, the id moves to the later reading `later`;
   * in a new millisecond the sequence restarts at 0.
   */
  function Next(w: WorkerState, timestamp: int, later: int): Outcome
    requires Valid(w)
  {
    if timestamp < w.lastTimestamp then ClockMovedBackwards
    else if w.lastTimestamp == timestamp then
      var sequence := (w.sequence + 1) % (SequenceMask + 1);
      var t := if sequence == 0 then later else timestamp;
      Issued(Pack(t, w.nodeId, sequence), WorkerState(w.nodeId, sequence, t))
    else
      Issued(Pack(timestamp, w.nodeId, 0), WorkerState(w.nodeId, 0, timestamp))
  }

  /**
   * The contract of one call: the error case and when it happens, the new
   * sequence and timestamp in each case, and the id as the packing of the
   * new state.
   */
  lemma NextSpec(w: WorkerState, timestamp: int, later: int)
    requires Valid(w) && later > timestamp
    ensures Next(w, timestamp, later).ClockMovedBackwards? <==> timestamp < w.lastTimestamp
    ensures Next(w, timestamp, later).Issued? ==>
      var n := Next(w, timestamp, later).next;
      && Valid(n) && n.nodeId == w.nodeId
      && n.lastTimestamp >= timestamp > w.lastTimestamp - 1
      && (w.lastTimestamp == timestamp ==> n.sequence == (w.sequence + 1) % 4096)
      && (w.lastTimestamp == timestamp && n.sequence == 0 ==> n.lastTimestamp > w.lastTimestamp)
      && (w.lastTimestamp == timestamp && n.sequence != 0 ==> n.lastTimestamp == timestamp)
      && (w.lastTimestamp != timestamp ==> n.sequence == 0 && n.lastTimestamp == timestamp)
      && Next(w, timestamp, later).id == Pack(n.lastTimestamp, n.nodeId, n.sequence)
  {
  }

  /** Without the uint64 conversion, in range, the id is the plain sum of its fields. */
  lemma PackNoWrap(timestamp: int, nodeId: int, sequence: int)
    requires InRange(timestamp) && 0 <= nodeId <= MaxNodeId && 0 <= sequence <= SequenceMask
    ensures Pack(timestamp, nodeId, sequence) == (timestamp - Epoch) * TimestampUnit + nodeId * NodeIdUnit + sequence
  {
    var x := (timestamp - Epoch) * TimestampUnit + nodeId * NodeIdUnit + sequence;
    assert 0 <= x < TwoTo64;
    DivMod(0, x, TwoTo64);
  }

  /**
   * Decoding: the low 12 bits are the sequence, the next 10 bits the node
   * id and the rest the timestamp since the epoch.
   */
  lemma PackDecode(timestamp: int, nodeId: int, sequence: int)
    requires InRange(timestamp) && 0 <= nodeId <= MaxNodeId && 0 <= sequence <= SequenceMask
    ensures Pack(timestamp, nodeId, sequence) % NodeIdUnit == sequence
    ensures (Pack(timestamp, nodeId, sequence) / NodeIdUnit) % (MaxNodeId + 1) == nodeId
    ensures Pack(timestamp, nodeId, sequence) / TimestampUnit == timestamp - Epoch
  {
    PackNoWrap(timestamp, nodeId, sequence);
    var t := timestamp - Epoch;
    var id := t * TimestampUnit + nodeId * NodeIdUnit + sequence;
    assert id == (t * 1024 + nodeId) * NodeIdUnit + sequence;
    DivMod(t * 1024 + nodeId, sequence, NodeIdUnit);
    DivMod(t, nodeId, 1024);
    assert id == t * TimestampUnit + (nodeId * NodeIdUnit + sequence);
    DivMod(t, nodeId * NodeIdUnit + sequence, TimestampUnit);
  }

  /** In range, ids of one node are ordered by (timestamp, sequence). */
  lemma PackOrdered(t1: int, s1: int, t2: int, s2: int, nodeId: int)
    requires InRange(t1) && InRange(t2) && 0 <= nodeId <= MaxNodeId
    requires 0 <= s1 <= SequenceMask && 0 <= s2 <= SequenceMask
    requires t1 < t2 || (t1 == t2 && s1 < s2)
    ensures Pack(t1, nodeId, s1) < Pack(t2, nodeId, s2)
  {
    PackNoWrap(t1, nodeId, s1);
    PackNoWrap(t2, nodeId, s2);
    if t1 < t2 {
      assert (t2 - Epoch) * TimestampUnit >= (t1 - Epoch) * TimestampUnit + TimestampUnit;
    }
  }

  /** Ids (in range) of workers with different node ids never coincide. */
  lemma PackSeparatesNodes(t1: int, n1: int, s1: int, t2: int, n2: int, s2: int)
    requires InRange(t1) && 0 <= n1 <= MaxNodeId && 0 <= s1 <= SequenceMask
    requires InRange(t2) && 0 <= n2 <= MaxNodeId && 0 <= s2 <= SequenceMask
    requires n1 != n2
    ensures Pack(t1, n1, s1) != Pack(t2, n2, s2)
  {
    PackDecode(t1, n1, s1);
    PackDecode(t2, n2, s2);
  }

  /** The id a state last issued, or -1 before the first id (clock still before the epoch). */
  function LastId(w: WorkerState): int
  {
    if w.lastTimestamp >= Epoch then Pack(w.lastTimestamp, w.nodeId, w.sequence) else -1
  }

  /** A clock reading and the later reading that waiting for the next millisecond would give. */
  datatype Reading = Reading(timestamp: int, later: int)

  predicate GoodReading(r: Reading)
  {
    InRange(r.timestamp) && InRange(r.later) && r.later > r.timestamp
  }

  /** A successful call issues an id above the last one, and the new state issued it. */
  lemma NextIncreases(w: WorkerState, r: Reading)
    requires Valid(w) && w.lastTimestamp < Epoch + TimestampSpan && GoodReading(r)
    requires Next(w, r.timestamp, r.later).Issued?
    ensures var o := Next(w, r.timestamp, r.later);
      o.id > LastId(w) && o.id == LastId(o.next) && Valid(o.next) && InRange(o.next.lastTimestamp)
  {
    var o := Next(w, r.timestamp, r.later);
    var n := o.next;
    if w.lastTimestamp >= Epoch {
      PackOrdered(w.lastTimestamp, w.sequence, n.lastTimestamp, n.sequence, w.nodeId);
    }
  }

  /** The ids of a run of calls; a refused call issues nothing and changes nothing. */
  function Run(w: WorkerState, readings: seq<Reading>): seq<int>
    requires Valid(w)
    decreases |readings|
  {
    if readings == [] then []
    else match Next(w, readings[0].timestamp, readings[0].later)
      case ClockMovedBackwards => Run(w, readings[1..])
      case Issued(id, n) =>
        if Valid(n) then [id] + Run(n, readings[1..]) else []
  }

  predicate StrictlyIncreasing(xs: seq<int>)
  {
    forall i, j :: 0 <= i < j < |xs| ==> xs[i] < xs[j]
  }

  /**
   * Successive ids of one worker strictly increase (so they are distinct),
   * and all lie above the last id issued before the run, for clock readings
   * in range.
   */
  lemma {:induction false} RunIncreasing(w: WorkerState, readings: seq<Reading>)
    requires Valid(w) && w.lastTimestamp < Epoch + TimestampSpan
    requires forall i :: 0 <= i < |readings| ==> GoodReading(readings[i])
    ensures StrictlyIncreasing(Run(w, readings))
    ensures forall i :: 0 <= i < |Run(w, readings)| ==> Run(w, readings)[i] > LastId(w)
    decreases |readings|
  {
    if readings != [] {
      var r := readings[0];
      assert GoodReading(r);
      match Next(w, r.timestamp, r.later)
      case ClockMovedBackwards =>
        RunIncreasing(w, readings[1..]);
      case Issued(id, n) =>
        NextIncreases(w, r);
        RunIncreasing(n, readings[1..]);
        var tail := Run(n, readings[1..]);
        assert Run(w, readings) == [id] + tail;
    }
  }

  /** Every id of a run carries the worker's node id in bits 12-21. */
  lemma {:induction false} RunCarriesNode(w: WorkerState, readings: seq<Reading>)
    requires Valid(w) && w.lastTimestamp < Epoch + TimestampSpan
    requires forall i :: 0 <= i < |readings| ==> GoodReading(readings[i])
    ensures forall i :: 0 <= i < |Run(w, readings)| ==>
      (Run(w, readings)[i] / NodeIdUnit) % (MaxNodeId + 1) == w.nodeId
    decreases |readings|
  {
    if readings != [] {
      var r := readings[0];
      assert GoodReading(r);
      match Next(w, r.timestamp, r.later)
      case ClockMovedBackwards =>
        RunCarriesNode(w, readings[1..]);
      case Issued(id, n) =>
        NextIncreases(w, r);
        PackDecode(n.lastTimestamp, n.nodeId, n.sequence);
        RunCarriesNode(n, readings[1..]);
        assert Run(w, readings) == [id] + Run(n, readings[1..]);
    }
  }

  /** Two workers with different node ids never issue the same id. */
  lemma RunsDisjoint(w1: WorkerState, c1: seq<Reading>, w2: WorkerState, c2: seq<Reading>)
    requires Valid(w1) && w1.lastTimestamp < Epoch + TimestampSpan
    requires Valid(w2) && w2.lastTimestamp < Epoch + TimestampSpan
    requires forall i :: 0 <= i < |c1| ==> GoodReading(c1[i])
    requires forall i :: 0 <= i < |c2| ==> GoodReading(c2[i])
    requires w1.nodeId != w2.nodeId
    ensures forall i, j :: 0 <= i < |Run(w1, c1)| && 0 <= j < |Run(w2, c2)| ==> Run(w1, c1)[i] != Run(w2, c2)[j]
  {
    RunCarriesNode(w1, c1);
    RunCarriesNode(w2, c2);
  }

  /** The worker object; NextId updates its sequence and last timestamp in place. */
  class Worker {
    var nodeId: int
    var sequence: int
    var lastTimestamp: int

    function Abs(): WorkerState
      reads this
    {
      WorkerState(nodeId, sequence, lastTimestamp)
    }

    constructor (nodeId: int)
      requires 0 <= nodeId
      ensures Abs() == WorkerState(nodeId % (MaxNodeId + 1), 0, 0)
    {
      this.nodeId := nodeId % (MaxNodeId + 1);
      sequence := 0;
      lastTimestamp := 0;
    }

    /**
     * nextId with the clock reading `timestamp` (and `later` for the wait
     * after an exhausted millisecond): `ok` is false, with id 0 and nothing
     * changed, when the clock moved backwards.
     */
    method NextId(timestamp: int, later: int) returns (id: int, ok: bool)
      requires Valid(Abs()) && later > timestamp
      modifies this
      ensures ok == Next(old(Abs()), timestamp, later).Issued?
      ensures ok ==> id == Next(old(Abs()), timestamp, later).id && Abs() == Next(old(Abs()), timestamp, later).next
      ensures !ok ==> id == 0 && Abs() == old(Abs())
      ensures Valid(Abs())
    {
      var t := timestamp;
      if t < lastTimestamp {
        return 0, false;
      }
      if lastTimestamp == t {
        sequence := (sequence + 1) % (SequenceMask + 1);
        if sequence == 0 {
          t := later;
        }
      } else {
        sequence := 0;
      }
      lastTimestamp := t;
      id := Pack(t, nodeId, sequence);
      ok := true;
    }
  }

  /** NewWorker: no worker for a negative node id. */
  method NewWorker(nodeId: int) returns (w: Worker?)
    ensures w == null <==> nodeId < 0
    ensures w != null ==> fresh(w) && NewWorkerState(nodeId) == Some(w.Abs())
  {
    if 0 > nodeId {
      return null;
    }
    w := new Worker(nodeId);
  }
}
