/**
 * The in-memory log store of the Kafka-style exercise
 * (5a-maelstrom-kafka/server/kafka.go).
 *
 * Every key has an append-only log (`Topic`) whose entries are addressed by
 * their offset, the index in the log. Polling a key from an offset returns a
 * bounded batch of (offset, value) pairs. Consumers commit, per key, the
 * offset they have processed, and can list those offsets back; an offset
 * never committed reads as 0.
 */
module LogStore {
  import opened Wrappers

  /** Topic.Poll returns at most this many messages. */
  const MaxPollBatch := 10

  function Min(a: int, b: int): int
  {
    if a < b then a else b
  }

  /** The batch Topic.Poll returns for `logs` from `offset`. */
  function PollWindow(logs: seq<int>, offset: nat): seq<(int, int)>
  {
    if offset >= |logs| then []
    else
      var count := Min(MaxPollBatch, |logs| - offset);
      seq(count, i requires 0 <= i < count => (offset + i, logs[offset + i]))
  }

  /**
   * Appending never changes what a poll already returned: the old batch is
   * a prefix of the new one (equal unless it was short of 10), and polling
   * the returned offset yields exactly the new entry.
   */
  lemma AddThenPoll(logs: seq<int>, val: int, offset: nat)
    ensures PollWindow(logs + [val], |logs|) == [(|logs|, val)]
    ensures |PollWindow(logs, offset)| <= |PollWindow(logs + [val], offset)|
    ensures forall i :: 0 <= i < |PollWindow(logs, offset)| ==>
      PollWindow(logs + [val], offset)[i] == PollWindow(logs, offset)[i]
  {
    var w := PollWindow(logs + [val], |logs|);
    assert |w| == 1 && w[0] == (|logs|, val);
  }

  /** The log of `key`, empty when the key has none yet. */
  function LogOf(contents: map<string, seq<int>>, key: string): seq<int>
  {
    if key in contents then contents[key] else []
  }

  /** The offset `src` committed for `key`, or 0 when it committed none. */
  function Committed(consumers: map<string, map<string, int>>, src: string, key: string): int
  {
    if src in consumers && key in consumers[src] then consumers[src][key] else 0
  }

  /** The consumer table after CommitOffsets(src, offsets). */
  function Commit(consumers: map<string, map<string, int>>, src: string, offsets: map<string, int>): map<string, map<string, int>>
  {
    var consumer := if src in consumers then consumers[src] else map[];
    consumers[src := consumer + offsets]
  }

  /**
   * A commit sets exactly the committed keys of `src`: every other key of
   * `src`, and every other consumer, reads as before.
   */
  lemma CommitThenList(consumers: map<string, map<string, int>>, src: string, offsets: map<string, int>, who: string, key: string)
    ensures Committed(Commit(consumers, src, offsets), who, key) ==
      if who == src && key in offsets then offsets[key] else Committed(consumers, who, key)
  {
  }

  /** One key's append-only log. */
  class Topic {
    var logs: seq<int>

    constructor (logs: seq<int>)
      ensures this.logs == logs
    {
      this.logs := logs;
    }

    /** Add: append `val`; its offset is the old length. */
    method Add(val: int) returns (offset: int)
      modifies this
      ensures logs == old(logs) + [val]
      ensures offset == |old(logs)| && logs[offset] == val
      ensures logs[..offset] == old(logs)
    {
      logs := logs + [val];
      offset := |logs| - 1;
    }

    /**
     * Poll: nothing at or past the end of the log; otherwise the next
     * min(10, remaining) entries, each paired with its offset. A negative
     * offset would index the log out of range.
     */
    method Poll(offset: int) returns (msgs: seq<(int, int)>)
      requires offset >= 0
      ensures offset >= |logs| ==> msgs == []
      ensures offset < |logs| ==> |msgs| == Min(MaxPollBatch, |logs| - offset)
      ensures forall i :: 0 <= i < |msgs| ==> offset + i < |logs| && msgs[i] == (offset + i, logs[offset + i])
      ensures msgs == PollWindow(logs, offset)
    {
      var maxOffset := |logs|;
      if offset >= maxOffset {
        return [];
      }
      var msgCount := Min(MaxPollBatch, maxOffset - offset);
      var a := new (int, int)[msgCount];
      for i := 0 to msgCount
        invariant forall j :: 0 <= j < i ==> a[j] == (offset + j, logs[offset + j])
      {
        a[i] := (offset + i, logs[offset + i]);
      }
      msgs := a[..];
    }
  }

  /** The store: one topic per key, and the committed offsets per consumer. */
  class Kafka {
    var logs: map<string, Topic>
    var consumers: map<string, map<string, int>>

    /** No two keys share a topic. */
    ghost predicate Valid()
      reads this
    {
      forall k1, k2 :: k1 in logs && k2 in logs && k1 != k2 ==> logs[k1] != logs[k2]
    }

    /** The log of every key. */
    ghost function Contents(): map<string, seq<int>>
      reads this, logs.Values
    {
      map k | k in logs :: logs[k].logs
    }

    /** NewKafka: no topics, no consumers. */
    constructor ()
      ensures Valid() && Contents() == map[] && consumers == map[]
      ensures logs == map[]
    {
      logs := map[];
      consumers := map[];
    }

    /**
     * The first half of Append: the key's topic, created empty for an unseen
     * key. No log changes.
     */
    method TopicFor(key: string) returns (topic: Topic)
      requires Valid()
      modifies this
      ensures Valid()
      ensures key in logs && logs[key] == topic && topic.logs == LogOf(old(Contents()), key)
      ensures Contents() == old(Contents())[key := LogOf(old(Contents()), key)]
      ensures forall k :: k in old(logs) ==> k in logs && logs[k] == old(logs[k])
      ensures logs.Keys == old(logs.Keys) + {key}
      ensures fresh(logs.Values - old(logs.Values))
      ensures consumers == old(consumers)
    {
      if key in logs {
        topic := logs[key];
        assert Contents() == old(Contents())[key := topic.logs];
      } else {
        topic := new Topic([]);
        logs := logs[key := topic];
      }
    }

    /**
     * Append: add `val` to the key's topic (created on first use). Offsets
     * are per key, so the result is the key's old log length. The other
     * keys' logs and all commits are untouched.
     */
    method Append(key: string, val: int) returns (offset: int)
      requires Valid()
      modifies this, logs.Values
      ensures Valid()
      ensures Contents() == old(Contents())[key := LogOf(old(Contents()), key) + [val]]
      ensures offset == |LogOf(old(Contents()), key)|
      ensures forall k :: k in old(logs) ==> k in logs && logs[k] == old(logs[k])
      ensures logs.Keys == old(logs.Keys) + {key}
      ensures fresh(logs.Values - old(logs.Values))
      ensures consumers == old(consumers)
    {
      var topic := TopicFor(key);
      ghost var before := Contents();
      ghost var table := logs;
      offset := topic.Add(val);
      assert logs == table;
      forall k | k in logs
        ensures Contents()[k] == before[key := before[key] + [val]][k]
      {
        if k != key {
          assert table[k] != topic;
        }
      }
    }

    /**
     * Poll: for every requested key that has a topic, that topic's Poll from
     * the requested offset; requested keys without a topic are left out.
     */
    method Poll(offsets: map<string, int>) returns (msgs: map<string, seq<(int, int)>>)
      requires forall k :: k in offsets && k in logs ==> offsets[k] >= 0
      ensures msgs.Keys == offsets.Keys * logs.Keys
      ensures forall k :: k in msgs ==> msgs[k] == PollWindow(logs[k].logs, offsets[k])
    {
      msgs := map[];
      var rest := offsets.Keys;
      while rest != {}
        invariant rest <= offsets.Keys
        invariant msgs.Keys == (offsets.Keys - rest) * logs.Keys
        invariant forall k :: k in msgs ==> msgs[k] == PollWindow(logs[k].logs, offsets[k])
        decreases |rest|
      {
        ghost var w := Pick(rest);
        var key :| key in rest;
        rest := rest - {key};
        if key !in logs {
          continue;
        }
        var messages := logs[key].Poll(offsets[key]);
        msgs := msgs[key := messages];
      }
    }

    /** CommitOffsets: record `offsets` for consumer `src`, keeping its other keys. */
    method CommitOffsets(src: string, offsets: map<string, int>)
      modifies this
      ensures consumers == Commit(old(consumers), src, offsets)
      ensures logs == old(logs)
    {
      var consumer := if src in consumers then consumers[src] else map[];
      consumer := UpdateAll(consumer, offsets);
      consumers := consumers[src := consumer];
    }

    /** ListOffsets: for every key asked for, the offset `src` committed, or 0. */
    method ListOffsets(src: string, keys: seq<string>) returns (r: map<string, int>)
      ensures r.Keys == Elems(keys)
      ensures forall k :: k in r ==> r[k] == Committed(consumers, src, k)
    {
      var consumer := if src in consumers then consumers[src] else map[];
      r := map[];
      for i := 0 to |keys|
        invariant r.Keys == Elems(keys[..i])
        invariant forall k :: k in r ==> r[k] == Committed(consumers, src, k)
      {
        ElemsPrefix(keys, i);
        var key := keys[i];
        var val := if key in consumer then consumer[key] else 0;
        r := r[key := val];
      }
      assert keys[..|keys|] == keys;
    }
  }

  /** The batches of TestTopicPoll (kafka_test.go): 16 entries 0..15 polled from 0, 9 and 20. */
  method TopicPollExample() returns (first: seq<(int, int)>, middle: seq<(int, int)>, past: seq<(int, int)>)
    ensures first == seq(10, i => (i, i))
    ensures middle == seq(7, i => (9 + i, 9 + i))
    ensures past == []
  {
    var topic := new Topic(seq(16, i => i));
    first := topic.Poll(0);
    middle := topic.Poll(9);
    past := topic.Poll(20);
  }

  /** TestKafka (kafka_test.go): offsets are per key, and Poll returns each key's batch. */
  method KafkaExample() returns (o1: int, o2: int, o3: int, polled: map<string, seq<(int, int)>>)
    ensures o1 == 0 && o2 == 0 && o3 == 1
    ensures polled == map["key1" := [(0, 1), (1, 10)], "key2" := [(0, 2)]]
  {
    var kafka := new Kafka();
    o1 := kafka.Append("key1", 1);
    assert kafka.Contents()["key1"] == [1];
    o2 := kafka.Append("key2", 2);
    assert kafka.Contents()["key1"] == [1];
    o3 := kafka.Append("key1", 10);
    assert kafka.Contents()["key1"] == [1, 10] && kafka.Contents()["key2"] == [2];
    polled := PollExample(kafka);
  }

  /** The Poll step of TestKafka, on a store holding key1 = [1, 10] and key2 = [2]. */
  method PollExample(kafka: Kafka) returns (polled: map<string, seq<(int, int)>>)
    requires kafka.logs.Keys == {"key1", "key2"}
    requires kafka.logs["key1"].logs == [1, 10] && kafka.logs["key2"].logs == [2]
    ensures polled == map["key1" := [(0, 1), (1, 10)], "key2" := [(0, 2)]]
  {
    polled := kafka.Poll(map["key1" := 0, "key2" := 0]);
    ExampleWindows();
    assert polled.Keys == {"key1", "key2"};
  }

  lemma ExampleWindows()
    ensures PollWindow([1, 10], 0) == [(0, 1), (1, 10)]
    ensures PollWindow([2], 0) == [(0, 2)]
  {
    var w := PollWindow([1, 10], 0);
    assert |w| == 2 && w[0] == (0, 1) && w[1] == (1, 10);
    var v := PollWindow([2], 0);
    assert |v| == 1 && v[0] == (0, 2);
  }
}
