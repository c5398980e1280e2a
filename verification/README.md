# Key-value stores and the Crisper client, modelled in Dafny

This project models two parts of a key-value benchmarking tool.

The first part is the `KeyValueStore` interface. It has put, get and delete over byte strings. It has two in-memory
backends, one over `HashMap` and one over `BTreeMap`.

The second part is the client for the remote Crisper service, a last-writer-wins (LWW) lattice store. Each client
keeps a request counter. It builds a one-tuple `KeyRequest` for every put and get, sends it, and reads exactly one
`KeyResponse` back. A client pool constructs the clients, keeps those that were built, and hands out puts and gets
round-robin.

Files:

- `common.dfy` (module `Common`): byte strings, `Option`, the `u64` range, and the tri-state `Existence`.
- `decimal.dfy` (module `Decimal`): `u64::to_string` as `DecimalString`, and its inverse `ParseDecimal`.
- `utf8.dfy` (module `Utf8`): the byte strings `str::from_utf8` accepts. This is the precondition on keys.
- `kvs.dfy` (module `Kvs`): `src/kvs.rs`. The reference semantics is `Step` (one call) and `Run` (a sequence of
  calls). There is one class per backend, and every method is proved against `Step`.
- `crisper.dfy` (module `Crisper`): the wire messages, the request builders, reply interpretation, and the
  `Client` class (`CrisperKVSClient`).
- `crisper_pool.dfy` (module `CrisperPool`): the `Pool` class (`CrisperClientPool`) and the round-robin schedule.

How the environment is represented:

- The client's push socket is the log `sent` of every request pushed.
- The pull socket's blocking receive becomes a `reply` parameter of `Put` and `Get`. Every reply consumed is
  logged in `received`.
- `Client.Valid()` states `rid == |sent| == |received|`. This is the "one outstanding request per channel"
  discipline. It also states that request `i` carries id `DecimalString(i)`.
- The protobuf encoding of `LwwValue` is a value `LwwCodec` (an encode and a decode function). Its wire format is
  not modelled. `RoundTrips(codec)` (decode after encode gives the value back) is a hypothesis of the lemmas that
  need it.
- Whether each client construction succeeds is the `built: seq<bool>` argument of the pool constructor.
- The pool's ghost field `served` records the index picked by every selection. `Pool.Valid()` ties the cursor and
  `served` to the pure `Cursor`/`Schedule` functions.

Where the design description and the code differ, the model follows the code:

- With zero live clients, the code's `get_client` panics at the `unwrap` on line 144. It does not report a
  "pool exhausted" error. `Pool.Put` and `Pool.Get` therefore require `numClients > 0`.
- A client's `put` always answers `Existence::new(true)`, which is `Present`. It never answers `Unknown`.
- `CrisperKVSClient::new` only returns `Ok`: its failures are `unwrap` panics. So the constructor's skip branch is
  reached only through the `built` argument.

## Model

| member | source | states |
|---|---|---|
| `Common.NewExistence` | src/kvs.rs:31 | `Existence::new(b)` is a known answer, `Present` exactly when `b` |
| `Kvs.Step` | src/kvs.rs:29-41 | one call changes at most the key it names: put binds it to the value, get leaves the store alone and finds exactly the bound value, delete unbinds it; put and delete answer `Present` iff the key was bound before |
| `Kvs.Run` | src/kvs.rs:18-24 | a sequence of interface calls gives one result per call |
| `Kvs.HashMapStore.Put` | src/kvs.rs:29-32 | answers `Present` iff the key was bound; afterwards the key maps to the value; every other key keeps its binding; agrees with `Step` |
| `Kvs.HashMapStore.Get` | src/kvs.rs:34-36 | `Some(v)` iff the key maps to `v`, `None` iff unbound; the map is not modified |
| `Kvs.HashMapStore.Delete` | src/kvs.rs:38-41 | answers `Present` iff the key was bound; afterwards the key is unbound; every other key keeps its binding |
| `Kvs.BTreeMapStore.Put` | src/kvs.rs:47-50 | same contract as the hash backend's put |
| `Kvs.BTreeMapStore.Get` | src/kvs.rs:52-54 | same contract as the hash backend's get |
| `Kvs.BTreeMapStore.Delete` | src/kvs.rs:56-59 | same contract as the hash backend's delete |
| `Kvs.ReplayOnBoth` | src/kvs.rs:26-60 | a hash store and an ordered store that start equal give identical results for every operation sequence and end equal, both as `Run` predicts |
| `Kvs.RunAppend` | src/kvs.rs:18-24 | running `a + b` is running `a` and then `b` from where `a` left the store |
| `Kvs.RunLeavesOtherKeys` | src/kvs.rs:29-41 | calls on other keys never change a key's binding |
| `Kvs.PutThenGet` | src/kvs.rs:29-36 | `put(k, v)` then `get(k)` returns `Some(v)` |
| `Kvs.ReadYourWrite` | src/kvs.rs:29-41 | `put(k, v)`, any calls on other keys, then `get(k)` returns `Some(v)` |
| `Kvs.DeleteTwice` | src/kvs.rs:38-41 | a second `delete(k)` answers `Absent` and leaves the store as the first left it |
| `Decimal.DecimalString` | src/kvs/crisper.rs:54 | `rid.to_string()` is a non-empty digit string with no leading zero |
| `Decimal.ParseDecimalString` | src/kvs/crisper.rs:54 | reading back the decimal request id gives the counter |
| `Decimal.DecimalStringInjective` | src/kvs/crisper.rs:82 | two counters give the same request id only if they are equal |
| `Utf8.IsUtf8` | src/kvs/crisper.rs:35 | the keys `str::from_utf8(..).unwrap()` accepts (here and at line 69): the empty key is accepted; an accepted key never starts with a continuation byte, C0, C1 or a byte above F4, and never ends inside a multi-byte sequence |
| `Utf8.AsciiIsUtf8` | src/kvs/crisper.rs:35 | every ASCII key passes the `from_utf8` check |
| `Crisper.GetResult` | src/kvs/crisper.rs:100-107 | `None` exactly for a reply with no tuples; otherwise the value of the envelope decoded from the first tuple's payload |
| `Crisper.PutRequest` | src/kvs/crisper.rs:36-55 | the put request for counter `rid` is op 2 with exactly one tuple for the key, with lattice 1, error 0, cache size 0 and invalidate false; it replies to the fixed address; its payload is the encoded envelope (rid, value), which a lawful codec decodes back; its id is `rid` in decimal and parses back to `rid` |
| `Crisper.GetRequest` | src/kvs/crisper.rs:70-83 | the get request for counter `rid` is op 1 with exactly one tuple for the key, an empty payload and the same fixed metadata; its id is `rid` in decimal and parses back to `rid` |
| `Crisper.ReplyDecodes` | src/kvs/crisper.rs:100-104 | when `get`'s `unwrap` on the envelope succeeds: always for an empty reply, never when the first tuple's payload does not parse, always when it holds an encoded envelope and the codec is lawful |
| `Crisper.EchoedPutIsRead` | src/kvs/crisper.rs:100-107 | if the service answers a get with the tuple a put sent, the get returns the value that was put |
| `Crisper.RequestIdsIncrease` | src/kvs/crisper.rs:54-56 | on one client, earlier requests have strictly smaller ids, and no id is reused |
| `Crisper.Client.constructor` | src/kvs/crisper.rs:19-32 | a new client has counter 0 and has sent and received nothing |
| `Crisper.Client.Put` | src/kvs/crisper.rs:34-66 | sends the put request stamped with the old counter (LWW timestamp and request id); the counter goes up by exactly 1; consumes one reply; answers `Present` whatever the reply holds |
| `Crisper.Client.Get` | src/kvs/crisper.rs:68-108 | sends the get request stamped with the old counter; the counter goes up by exactly 1; consumes one reply; returns `None` iff the reply has no tuples, otherwise the first tuple's envelope value |
| `Crisper.Client.Delete` | src/kvs/crisper.rs:110-113 | answers `Unknown`; sends nothing and leaves the counter as it was |
| `CrisperPool.BindAddress` | src/kvs/crisper.rs:128 | attempt `i` binds `tcp://*:` followed by a decimal port that parses back to `7000 + i` |
| `CrisperPool.BindAddressesDistinct` | src/kvs/crisper.rs:128 | attempts `i` and `j` bind the same address `tcp://*:(7000 + i)` only if `i == j` |
| `CrisperPool.KeptIndices` | src/kvs/crisper.rs:127-133 | reference definition of the attempts that are kept, characterised by `KeptIndicesExact`; never more than were attempted |
| `CrisperPool.KeptIndicesExact` | src/kvs/crisper.rs:127-133 | the kept attempts are exactly the successful ones, in increasing order |
| `CrisperPool.Advance` | src/kvs/crisper.rs:145 | `(curr + 1) % num_clients` moves to the next client, wrapping to 0 after the last one |
| `CrisperPool.Cursor` | src/kvs/crisper.rs:143-147 | the cursor is always a valid index |
| `CrisperPool.Schedule` | src/kvs/crisper.rs:143-147 | reference definition of the clients picked by `k` selections (one per selection), characterised by `ScheduleIsRoundRobin` and `ScheduleCounts` |
| `CrisperPool.CursorIsModular` | src/kvs/crisper.rs:145 | after `k` selections the cursor is `k mod n` |
| `CrisperPool.ScheduleIsRoundRobin` | src/kvs/crisper.rs:143-147 | selection `j` picks client `j mod n`: 0, 1, ..., n - 1, 0, ... |
| `CrisperPool.ScheduleCounts` | src/kvs/crisper.rs:143-147 | over `k` selections, client `i` is picked `k / n` times, plus once more when `i < k mod n` |
| `CrisperPool.ScheduleIsFair` | src/kvs/crisper.rs:143-147 | each client is picked between `floor(k / n)` and `ceil(k / n)` times |
| `CrisperPool.Pool.constructor` | src/kvs/crisper.rs:124-140 | keeps only the clients that were built, in attempt order, each bound at `7000 + its attempt index` with counter 0; `num_clients` is the number kept; the cursor is 0 |
| `CrisperPool.Pool.GetClient` | src/kvs/crisper.rs:143-147 | with at least one client: returns the client at the cursor and advances the cursor modulo the count, so it stays in range |
| `CrisperPool.Pool.Put` | src/kvs/crisper.rs:154-156 | the client at the cursor does the put and its answer is returned; the cursor advances; no other client changes |
| `CrisperPool.Pool.Get` | src/kvs/crisper.rs:158-160 | the client at the cursor does the get and its result is returned unchanged; the cursor advances; no other client changes |
| `CrisperPool.Pool.Delete` | src/kvs/crisper.rs:163-165 | answers `Unknown` without selecting a client; the cursor and every counter stay as they were |
| `CrisperPool.ServedRoundRobin` | src/kvs/crisper.rs:143-160 | in a live pool, the `j`-th put or get went to client `j mod n`, and the cursor is the number of calls so far mod `n` |

## Left out

- ZeroMQ context and sockets: connecting, binding, `send` and the blocking `recv_bytes` are network I/O. A request
  that is sent is appended to `sent`. The reply that is received is a parameter. A client that never gets a reply
  blocks forever in the source; the model has no counterpart for that.
- The protobuf encoding of `KeyRequest` and `KeyResponse`: requests are logged as values and replies arrive as
  values. The `unwrap` on decoding a reply therefore cannot fail in the model.
- The byte-level protobuf format of `LwwValue`: the codec is a parameter. Its round trip is a hypothesis
  (`RoundTrips`), not a proved fact.
- `KeyResponse` fields other than `tuples`: the client never reads them.
- Reply/request-id correlation: the source never checks it (the TODO at crisper.rs:92). The model, like the source,
  takes the next reply as the answer.
- `unwrap` panics become preconditions: keys must be UTF-8 (`IsUtf8`); a get's first reply tuple must decode
  (`ReplyDecodes`); the pool must have a client (`numClients > 0`).
- Crisper.Client.Put: requires `rid + 1 < 2^64`, because the overflow of `self.rid += 1` at crisper.rs:56 (a panic in
  debug builds, a wrap to 0 in release builds) is not modelled.
- Crisper.Client.Get: requires `rid + 1 < 2^64` for the same reason, at crisper.rs:84.
- CrisperPool.Pool.Put: requires the selected client's `rid + 1 < 2^64`, inherited from `Crisper.Client.Put`.
- CrisperPool.Pool.Get: requires the selected client's `rid + 1 < 2^64`, inherited from `Crisper.Client.Get`.
- The dead `client_id` field, the dead `payload` local in `get`, the unused `key_resp` in `put`, and the
  `println!` of the client count.
- The `cannyls`, `fs`, `rocksdb` and `sled` backends: they wrap external stores, and their sources are not part
  of this model.
- Hashing and key ordering inside `HashMap` and `BTreeMap`: neither is observable through the interface, so both
  backends are mathematical maps.
- `crate::Result` errors: none of the modelled operations returns `Err`, so the `Result` wrapper is dropped.
- Socket bind failures, e.g. a port above 65535 or one already in use: the code panics on these. The model covers
  them only through `built`.
