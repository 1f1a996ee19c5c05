# Gossip Glomers state machines in Dafny

This project models the state machines of several Maelstrom exercises
("Gossip Glomers"), with the transport, JSON handling and goroutines taken
out, and proves properties of them. It has one module per exercise:

- `AntiEntropy` (`anti_entropy.dfy`) is the broadcast server of exercise 3c.
  The node knows a set of message ids and a neighbour list. For each
  neighbour it also keeps the set of ids it believes that neighbour holds.
  Each periodic tick sends every neighbour its delta, which is the ids it is
  not believed to hold. A node that receives gossip merges the ids and
  replies with the reverse delta. The sender's response callback fills in
  its knowledge of that neighbour.
  - The transitions are pure functions over a `State` datatype.
  - The class `Server`, which has the same three fields, is proved against
    them.
- `LogStore` (`log_store.dfy`) is the in-memory Kafka-style store of
  exercise 5a. It keeps one append-only log (`Topic`) per key. `Poll`
  returns batches of at most 10 `(offset, value)` pairs. Consumers commit
  and list offsets per key.
- `SnowflakeWorker` (`snowflake_worker.dfy`) is the snowflake id worker of
  exercise 3c. It packs 42 bits of timestamp, 10 bits of node id and 12 bits
  of sequence into a `uint64`. It refuses a clock that moved backwards.
- `SnowflakeGenerator` (`snowflake_generator.dfy`) is the unique-id
  generator. It shifts the timestamp by 24 instead of 22. It stores the
  masked sequence plus one, so the stored sequence is always odd. It has no
  clock-regression check. Its ids are `int64`.
- `FloodBroadcast` (`flood_broadcast.dfy`) is the flooding node of
  exercise 3b. It keeps its seen ids in a list and forwards an unseen id to
  every neighbour except the sender.
- `CachedCounter` (`cached_counter.dfy`) is the cached grow-only counter
  (counter-alt). It keeps a `node -> total` cache. An add bumps the node's
  own entry. A refresh overwrites the other nodes' entries with values read
  from the key/value store. A read returns the sum of the cache.
- `Wrappers` (`wrappers.dfy`) holds shared helpers: `Option`, the element
  set of a list, and the map-overwrite loop used by Kafka's `CommitOffsets`
  and the counter's refresh.

Modelling conventions:

- **Panics become preconditions.** Go panics when it writes into a nil map,
  indexes out of range, or fails a type assertion. Each of these becomes a
  precondition on the operation that would panic:
  - gossip or a response callback for a node with no knowledge entry, when
    there are ids to record;
  - a negative poll offset;
  - a topology message without this node's entry (3b);
  - a counter cache written before `Init`.
- **Errors that are returned become values.** A decode failure in the
  gossip callback becomes an `Option`, and a clock that moved backwards
  becomes `ClockMovedBackwards`.
- **Bitwise operations become arithmetic.** The ids OR together fields
  whose bits do not overlap, so the OR is written as a sum. The 64-bit
  conversion is written out explicitly: modulo 2^64 for `uint64`, and
  two's-complement wrap-around for `int64`. `x & mask` with a non-negative
  `x` is written as `x % (mask + 1)`.
- **Neighbour lists.** In 3b, the neighbour list is a variable of `main`'s
  closure. The model makes it a field of the server.

Four behaviours of the code worth knowing:

- **Self-loops are not filtered.** A node whose topology entry lists the
  node itself gets a knowledge entry for itself. It then gossips to itself
  (`AntiEntropy.SelfLoopGossiped`).
- **Response ids are not marked known.** The 3c response callback adds the
  response's ids only to `ids`, not to the neighbour's knowledge entry. The
  next tick therefore sends those ids back to the neighbour that supplied
  them (`AntiEntropy.AckClosesDelta`).
- **Gossip from a non-neighbour panics.** Gossip (or a callback) for a node
  with no knowledge entry writes into a nil map and panics, unless there is
  nothing to write.
- **A missing topology entry differs between the servers.** In 3c it reads
  as an empty neighbour list. The 3b server panics on it.

## Model

| member | source | states |
|---|---|---|
| `AntiEntropy.Server.constructor` | 3c-maelstrom-broadcast/server/server.go:31-46 | a new server knows no ids and has no neighbours and no knowledge table |
| `AntiEntropy.Server.HandleBroadcast` | 3c-maelstrom-broadcast/server/server.go:57-59 | the state becomes `Broadcast` of the old one: the id is inserted and nothing else changes; the one-entry-per-neighbour invariant is kept |
| `AntiEntropy.BroadcastIdempotent` | 3c-maelstrom-broadcast/server/server.go:57-59 | broadcast adds exactly the id; broadcasting a known id leaves the state unchanged |
| `AntiEntropy.Server.HandleRead` | 3c-maelstrom-broadcast/server/server.go:69-76 | the reply has length \|ids\|, its elements are exactly `ids`, and none is repeated |
| `AntiEntropy.Server.HandleTopology` | 3c-maelstrom-broadcast/server/server.go:94-109 | the state becomes `InstallTopology`: neighbours are this node's entry (or empty), and the table has one empty entry per neighbour |
| `AntiEntropy.TopologyResets` | 3c-maelstrom-broadcast/server/server.go:94-109 | after installation the table has exactly one empty entry per neighbour, all earlier knowledge is gone, the ids are kept, and a listed self gets an entry too |
| `AntiEntropy.Server.HandleGossip` | 3c-maelstrom-broadcast/server/server.go:127-148 | the state becomes `ReceiveGossip`; the reply's elements are exactly `GossipReply` (the delta towards the sender, taken after the merge), without repeats |
| `AntiEntropy.GossipMerges` | 3c-maelstrom-broadcast/server/server.go:127-136 | every received id joins `ids` and the sender's entry; no other entry and not the neighbour list changes |
| `AntiEntropy.GossipReplyExcludesReceived` | 3c-maelstrom-broadcast/server/server.go:138-148 | the reply never contains a just-received id and equals the post-merge `ids` minus the post-merge entry |
| `AntiEntropy.Server.Missing` | 3c-maelstrom-broadcast/server/server.go:141-146 | the list built by the delta loop holds exactly `ids - known`, each once |
| `AntiEntropy.Server.GossipTick` | 3c-maelstrom-broadcast/server/server.go:165-187 | the RPCs of one tick are exactly `Planned`, in neighbour order: destination and id set per RPC, each id list free of repeats |
| `AntiEntropy.PlannedSound` | 3c-maelstrom-broadcast/server/server.go:165-187 | every planned RPC goes to a listed neighbour and carries that neighbour's delta, which is non-empty |
| `AntiEntropy.PlannedComplete` | 3c-maelstrom-broadcast/server/server.go:165-187 | a neighbour gets an RPC in a tick if and only if its delta is non-empty |
| `AntiEntropy.Server.OnGossipResponse` | 3c-maelstrom-broadcast/server/server.go:193-229 | the state becomes `ReceiveAck`; the callback reports success exactly when the body decodes |
| `AntiEntropy.AckMarksSent` | 3c-maelstrom-broadcast/server/server.go:200-226 | the sent ids join the neighbour's entry, whether or not the body decodes; response ids join `ids` only; other entries are unchanged |
| `AntiEntropy.AckClosesDelta` | 3c-maelstrom-broadcast/server/server.go:200-226 | after a response to a tick's RPC, the neighbour's delta is exactly the response ids it was not believed to hold; with none, the next tick sends it nothing |
| `AntiEntropy.SelfLoopGossiped` | 3c-maelstrom-broadcast/server/server.go:94-109 | with self in its own topology entry and any id known, the next tick plans an RPC to itself |
| `AntiEntropy.StepGrows` | 3c-maelstrom-broadcast/server/server.go:48-230 | no event removes an id, only topology installation shrinks knowledge, and the one-entry-per-neighbour invariant is kept |
| `AntiEntropy.RunGrows` | 3c-maelstrom-broadcast/server/server.go:48-230 | over any run of events `ids` only grows and the invariant is kept; without a topology event every knowledge entry only grows |
| `AntiEntropy.PushPullExchange` | 3c-maelstrom-broadcast/server/server.go:117-226 | one gossip/reply round between two neighbours whose knowledge does not overstate leaves both with the union of their ids and keeps knowledge accurate |
| `LogStore.Topic.constructor` | 5a-maelstrom-kafka/server/kafka.go:30 | a topic holds exactly the log it is built with (empty for a new key) |
| `LogStore.Topic.Add` | 5a-maelstrom-kafka/server/kafka.go:96-103 | `val` is appended, the result is the old length (the new entry's index), and earlier entries are unchanged |
| `LogStore.Topic.Poll` | 5a-maelstrom-kafka/server/kafka.go:105-121 | nothing at or past the end; otherwise min(10, len - offset) pairs, pair i being (offset + i, Logs[offset + i]); the log is not changed |
| `LogStore.AddThenPoll` | 5a-maelstrom-kafka/server/kafka.go:96-121 | polling the offset an append returned yields exactly that entry, and an append never changes a batch already returned |
| `LogStore.Kafka.constructor` | 5a-maelstrom-kafka/server/kafka.go:16-24 | no topics and no consumers |
| `LogStore.Kafka.TopicFor` | 5a-maelstrom-kafka/server/kafka.go:27-32 | an unseen key gets a new empty topic; the logs and commits are unchanged |
| `LogStore.Kafka.Append` | 5a-maelstrom-kafka/server/kafka.go:26-37 | the key's log (empty if new) gains `val` at the end, the offset is its old length, other keys' logs and all commits are unchanged |
| `LogStore.Kafka.Poll` | 5a-maelstrom-kafka/server/kafka.go:39-53 | the result's keys are exactly the requested keys that have a topic; each value is that topic's poll from the requested offset |
| `LogStore.Kafka.CommitOffsets` | 5a-maelstrom-kafka/server/kafka.go:55-69 | the consumer table becomes `Commit`: the source's table with the given offsets written over it |
| `Wrappers.UpdateAll` | 5a-maelstrom-kafka/server/kafka.go:62-64 | the map-overwrite loop yields `m + updates`: new values for the updated keys, old ones elsewhere |
| `LogStore.CommitThenList` | 5a-maelstrom-kafka/server/kafka.go:55-89 | after a commit, the source's committed keys read the new offsets; every other key and consumer reads as before |
| `LogStore.Kafka.ListOffsets` | 5a-maelstrom-kafka/server/kafka.go:71-89 | the domain is exactly the requested keys; each value is the committed offset, or 0 when there is none; nothing changes |
| `LogStore.TopicPollExample` | 5a-maelstrom-kafka/server/kafka_test.go:53-97 | a 16-entry log polled from 0, 9 and 20 gives 10 pairs, 7 pairs, and nothing |
| `LogStore.KafkaExample` | 5a-maelstrom-kafka/server/kafka_test.go:5-50 | appends to key1, key2, key1 return 0, 0, 1, and the poll returns both keys' batches |
| `LogStore.PollExample` | 5a-maelstrom-kafka/server/kafka_test.go:20-50 | the poll step of that test on key1 = [1, 10], key2 = [2] |
| `LogStore.ExampleWindows` | 5a-maelstrom-kafka/server/kafka_test.go:16-19 | the expected batches of that test: [(0, 1), (1, 10)] for key1 and [(0, 2)] for key2 |
| `SnowflakeWorker.Pack` | 3c-maelstrom-broadcast/snowflake/snowflake.go:68-72 | the packed id is a `uint64` |
| `SnowflakeWorker.NewWorkerState` | 3c-maelstrom-broadcast/snowflake/snowflake.go:18-28 | a negative node id is refused; otherwise the node id is `nodeId & 1023`, in [0, 1023], with sequence and clock 0 |
| `SnowflakeWorker.NewWorker` | 3c-maelstrom-broadcast/snowflake/snowflake.go:18-28 | no worker exactly for a negative node id; otherwise a new worker in the state `NewWorkerState` gives |
| `SnowflakeWorker.Worker.constructor` | 3c-maelstrom-broadcast/snowflake/snowflake.go:23-27 | a worker for a non-negative node id holds `nodeId & 1023`, sequence 0 and last timestamp 0 |
| `SnowflakeWorker.NextSpec` | 3c-maelstrom-broadcast/snowflake/snowflake.go:49-73 | error exactly when the clock is behind; same millisecond: sequence + 1 mod 4096, and on wrap the timestamp moves strictly past the last; new millisecond: sequence 0; the last timestamp never decreases |
| `SnowflakeWorker.Worker.NextId` | 3c-maelstrom-broadcast/snowflake/snowflake.go:49-73 | on success issues `Next`'s id and state; on a backwards clock returns an error and changes nothing; the state stays valid, so calls can be chained |
| `SnowflakeWorker.PackNoWrap` | 3c-maelstrom-broadcast/snowflake/snowflake.go:68-72 | for timestamps within 2^42 ms of the epoch the `uint64` conversion does not wrap |
| `SnowflakeWorker.PackDecode` | 3c-maelstrom-broadcast/snowflake/snowflake.go:30-40 | the low 12 bits decode to the sequence, bits 12-21 to the node id, and the rest to timestamp - epoch |
| `SnowflakeWorker.PackOrdered` | 3c-maelstrom-broadcast/snowflake/snowflake.go:68-72 | ids of one node are ordered by (timestamp, sequence) |
| `SnowflakeWorker.PackSeparatesNodes` | 3c-maelstrom-broadcast/snowflake/snowflake.go:68-72 | ids with different node ids differ |
| `SnowflakeWorker.NextIncreases` | 3c-maelstrom-broadcast/snowflake/snowflake.go:56-72 | a successful call issues an id above the last one issued |
| `SnowflakeWorker.RunIncreasing` | 2-maelstrom-unique-ids/pkg/snowflake/snowflake_test.go:25-46 | the ids of any run of calls strictly increase, so they are distinct |
| `SnowflakeWorker.RunCarriesNode` | 3c-maelstrom-broadcast/snowflake/snowflake.go:68-72 | every id of a run carries the worker's node id in bits 12-21 |
| `SnowflakeWorker.RunsDisjoint` | 2-maelstrom-unique-ids/pkg/snowflake/snowflake_test.go:48-79 | workers with different node ids never issue the same id |
| `SnowflakeGenerator.WrapInt64` | maelstrom-unique-ids/pkg/snowflake/snowflake.go:56-60 | result in the `int64` range and congruent to the input mod 2^64 |
| `SnowflakeGenerator.NewGeneratorState` | maelstrom-unique-ids/pkg/snowflake/snowflake.go:18-26 | a negative node id is refused; otherwise the node id is `nodeId & 1023` with sequence and clock 0 |
| `SnowflakeGenerator.NewGenerator` | maelstrom-unique-ids/pkg/snowflake/snowflake.go:18-26 | no generator exactly for a negative node id; otherwise a new generator in that state |
| `SnowflakeGenerator.Generator.constructor` | maelstrom-unique-ids/pkg/snowflake/snowflake.go:23-25 | a generator for a non-negative node id holds `nodeId & 1023`, sequence 0 and last timestamp 0 |
| `SnowflakeGenerator.NextSpec` | maelstrom-unique-ids/pkg/snowflake/snowflake.go:38-61 | the stored sequence stays odd and in [1, 4095]; same millisecond: +2, or on wrap 1 with the timestamp strictly past the last; any other reading, even an earlier one: 1 |
| `SnowflakeGenerator.Generator.NextId` | maelstrom-unique-ids/pkg/snowflake/snowflake.go:38-61 | issues `Next`'s id and state, and keeps the reachable-state invariant |
| `SnowflakeGenerator.PackNoWrap` | maelstrom-unique-ids/pkg/snowflake/snowflake.go:56-60 | for timestamps within 2^39 ms of the epoch the `int64` does not wrap |
| `SnowflakeGenerator.PackPositive` | maelstrom-unique-ids/pkg/snowflake/snowflake_test.go:10-19 | ids are positive |
| `SnowflakeGenerator.PackDecode` | maelstrom-unique-ids/pkg/snowflake/snowflake.go:28-36 | the sequence is in the low 12 bits, the node id in bits 12-21, bits 22-23 are zero, and the timestamp starts at bit 24 |
| `SnowflakeGenerator.PackOrdered` | maelstrom-unique-ids/pkg/snowflake/snowflake.go:56-58 | ids of one node are ordered by (timestamp, sequence) |
| `SnowflakeGenerator.NextIncreases` | maelstrom-unique-ids/pkg/snowflake/snowflake.go:43-58 | with a reading not behind the last timestamp, the id is above the last one issued |
| `SnowflakeGenerator.RunIncreasing` | maelstrom-unique-ids/pkg/snowflake/snowflake_test.go:21-38 | with a clock that does not go back behind the last timestamp used (any number of calls per millisecond), successive ids strictly increase and are positive |
| `SnowflakeGenerator.SameMillisecondRun` | maelstrom-unique-ids/pkg/snowflake/snowflake.go:43-58 | three calls in one millisecond are admitted by that clock condition, take sequences 1, 3, 5, and issue strictly increasing ids |
| `SnowflakeGenerator.RunCarriesNode` | maelstrom-unique-ids/pkg/snowflake/snowflake.go:56-58 | every id of a run carries the generator's node id |
| `SnowflakeGenerator.RunsDisjoint` | maelstrom-unique-ids/pkg/snowflake/snowflake_test.go:40-63 | generators with different node ids never issue the same id |
| `SnowflakeGenerator.RegressionRepeatsId` | maelstrom-unique-ids/pkg/snowflake/snowflake.go:43-51 | with no regression check, a clock that goes back after a later millisecond repeats an earlier id |
| `FloodBroadcast.ForwardsMembers` | 3b-maelstrom-broadcast/main.go:43-54 | a neighbour is forwarded to if and only if it is listed and is not the sender |
| `FloodBroadcast.ForwardsAppend` | 3b-maelstrom-broadcast/main.go:43-54 | forwarding keeps the neighbours' order (it distributes over concatenation) |
| `FloodBroadcast.ForwardsDistinct` | 3b-maelstrom-broadcast/main.go:43-54 | the sender never gets its own message, and a neighbour listed once gets it once |
| `FloodBroadcast.RecordSpec` | 3b-maelstrom-broadcast/main.go:37-56 | recording keeps the list duplicate-free, adds exactly the id to its elements, and keeps earlier entries in place |
| `FloodBroadcast.RecordAllSpec` | 3b-maelstrom-broadcast/main.go:37-56 | over any run of broadcasts the seen list stays duplicate-free and holds exactly the ids broadcast |
| `FloodBroadcast.Server.constructor` | 3b-maelstrom-broadcast/main.go:22-25 | empty seen list and no neighbours |
| `FloodBroadcast.Server.Seen` | 3b-maelstrom-broadcast/main.go:125-132 | true if and only if the id occurs in the list |
| `FloodBroadcast.Server.Add` | 3b-maelstrom-broadcast/main.go:134-138 | appends the id at the end; nothing else changes |
| `FloodBroadcast.Server.Msgs` | 3b-maelstrom-broadcast/main.go:140-142 | returns the list unchanged |
| `FloodBroadcast.Server.Broadcast` | 3b-maelstrom-broadcast/main.go:37-56 | an unseen id is forwarded to `Forwards(nbrs, src)` and recorded; a seen id is forwarded to no one and changes nothing |
| `FloodBroadcast.Server.Topology` | 3b-maelstrom-broadcast/main.go:94-101 | neighbours become this node's entry, in order |
| `FloodBroadcast.DuplicateExample` | 3b-maelstrom-broadcast/main.go:27-67 | a message from n0 goes to n2 and n3; its second delivery goes nowhere and the list holds it once |
| `CachedCounter.TotalRemove` | 4-maelstrom-counter-alt/server/server.go:138-144 | the sum of the cache can take out any entry first, whatever the iteration order |
| `CachedCounter.AddRaisesTotal` | 4-maelstrom-counter-alt/server/server.go:90-96 | adding d to one entry raises the sum by exactly d |
| `CachedCounter.ZeroTotal` | 4-maelstrom-counter-alt/server/server.go:53-56 | an all-zero cache sums to 0 |
| `CachedCounter.FetchedKeys` | 4-maelstrom-counter-alt/server/server.go:112-123 | a refresh collects exactly the listed nodes other than this one |
| `CachedCounter.FetchedValue` | 4-maelstrom-counter-alt/server/server.go:112-123 | a collected node carries the value read at its last place in the list |
| `CachedCounter.RefreshKeepsSelf` | 4-maelstrom-counter-alt/server/server.go:112-129 | a refresh never changes this node's entry, nor the entry of a node not listed |
| `CachedCounter.Server.constructor` | 4-maelstrom-counter-alt/server/server.go:32-45 | the cache is not allocated yet (empty) |
| `CachedCounter.Server.Init` | 4-maelstrom-counter-alt/server/server.go:53-56 | the cache holds exactly the init node ids, each 0 |
| `CachedCounter.Server.Add` | 4-maelstrom-counter-alt/server/server.go:90-96 | a non-zero delta raises this node's entry by exactly delta; a zero delta changes nothing; no other entry changes |
| `CachedCounter.Server.Refresh` | 4-maelstrom-counter-alt/server/server.go:112-129 | the cache becomes the old one with the collected values written over it |
| `CachedCounter.Server.Read` | 4-maelstrom-counter-alt/server/server.go:134-145 | the result is the sum of all cached values |
| `CachedCounter.CounterExample` | 4-maelstrom-counter-alt/server/server.go:53-145 | after Init the counter reads 0, and after adds of 3 and 4 it reads 7 |

## Left out

- The transport and all JSON are not modelled: `Reply`, `RPC`, `Send`, `json.Unmarshal` and the `map[string]any` bodies. Handlers take decoded values instead: ids, id lists, neighbour lists and offset maps. A tick returns the RPCs it would issue, and the 3b broadcast returns the neighbours it would send to.
- The gossip reply's `Ids` field and the callback's `Messages` field do not match on the wire (3c-maelstrom-broadcast/server/server.go:150-156 and 195-197). This is not modelled. The callback takes whatever list the body decodes to, or `None`.
- 3c-maelstrom-broadcast/main.go:25-29 never registers `HandleGossip`. The model includes it anyway, as the server's peer operation.
- Concurrency is not modelled: the mutexes, goroutines and tickers. One tick or one refresh is one method call.
- The wall clock is not modelled. Clock readings are parameters. The `nextMillis` busy-wait is the parameter `later`, a reading after the current one.
- The external key/value store is not modelled. Its reads in the counter refresh are the `values` input, with 0 where a read failed. Its writes, and the `CompareAndSwap` in `Init`, are not modelled.
- The snowflake worker that 3c-maelstrom-broadcast/server/server.go:33 creates is never used and is not modelled. The error `New` returns for a negative process id is not modelled either.
- FloodBroadcast.Server.Broadcast: assumes that every `worker.NextId()` call in the 3b handler succeeds (3b-maelstrom-broadcast/main.go:48-51, 60-63). NextId fails only when the clock moves backwards. When it fails, the Go code stops forwarding and returns before recording the id.
- SnowflakeGenerator.Generator.NextId: requires the clock reading to be at least the epoch. A fresh generator read at timestamp 0 would store an even sequence, and that case is not modelled.
- SnowflakeWorker.RunIncreasing: the ordering and uniqueness lemmas (and the generator's) assume clock readings within 2^42 ms of the epoch (2^39 ms for the generator). Beyond that the 64-bit id wraps. `Pack` itself models the wrap.
- CachedCounter.Server.Add: Go's 64-bit `int` wraps around on overflow. The cache entries and their sum are unbounded integers in the model.
- 4-maelstrom-counter/server/server.go is not part of this model. Its substance is a lock built on the external store.
- Also not modelled: 5a-maelstrom-kafka/server/server.go (decode-call-reply wrappers around `Kafka`), 3a-maelstrom-broadcast/main.go, the other `main.go` files, and `Kafka`'s unused `offset` field.
- Go's map iteration order is not modelled. Loops over maps and sets pick their next key arbitrarily. The contracts hold for every order, but the order of the list `HandleRead` returns is left open.
- The 3b type assertions (`.(float64)`, `.([]any)`, `.(string)`) run on decoded values. The only failure the model keeps is a topology without this node's entry, which is a precondition.
