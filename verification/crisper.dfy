/** The client of the remote last-writer-wins key-value service: the wire
    messages it builds and reads, and one client with its request counter.
    The push/pull sockets are replaced by a log of the requests pushed
    (`sent`) and a log of the replies pulled (`received`); the reply that the
    blocking receive returns is a parameter of `Put` and `Get`. */
module Crisper {
  import opened Common
  import opened Decimal
  import opened Utf8

  /** `LwwValue`: a value stamped with the issuing client's counter. */
  datatype LwwValue = LwwValue(timestamp: nat, value: Bytes)

  /** The protobuf encoding of `LwwValue`, as a pair of functions: `decode`
      answers `None` for bytes that do not parse. Its wire format is not part
      of this model; `RoundTrips` is the one law the client relies on. */
  datatype LwwCodec = LwwCodec(encode: LwwValue -> Bytes, decode: Bytes -> Option<LwwValue>)

  ghost predicate RoundTrips(codec: LwwCodec) {
    forall v :: codec.decode(codec.encode(v)) == Some(v)
  }

  /** `KeyTuple`: one key's part of a request or response. The key is a
      `String`, kept here as its UTF-8 bytes. */
  datatype KeyTuple = KeyTuple(
    key: Bytes,
    latticeType: nat,
    error: nat,
    payload: Bytes,
    addressCacheSize: nat,
    invalidate: bool)

  /** `KeyRequest`. `op` is the protobuf field `type`. */
  datatype KeyRequest = KeyRequest(op: nat, tuples: seq<KeyTuple>, responseAddress: string, requestId: string)

  /** `KeyResponse`, reduced to the one field the client reads. */
  datatype KeyResponse = KeyResponse(tuples: seq<KeyTuple>)

  const GET_REQUEST: nat := 1
  const PUT_REQUEST: nat := 2
  const LWW_LATTICE: nat := 1
  const NO_ERROR: nat := 0
  const RESPONSE_ADDRESS: string := "tcp://localhost:7777"

  /** The tuple both operations send: LWW lattice, no error, no cache hint. */
  function RequestTuple(key: Bytes, payload: Bytes): KeyTuple {
    KeyTuple(key, LWW_LATTICE, NO_ERROR, payload, 0, false)
  }

  /** The request `put` sends when the counter is `rid`: a put of exactly one
      LWW tuple for `key`, whose payload is the envelope (rid, value), with
      `rid` again as the request id. */
  function PutRequest(codec: LwwCodec, rid: nat, key: Bytes, value: Bytes): (req: KeyRequest)
    ensures WellFormedRequest(req) && req.op == PUT_REQUEST
    ensures |req.tuples| == 1 && req.tuples[0].key == key
    ensures req.tuples[0].payload == codec.encode(LwwValue(rid, value))
    ensures RoundTrips(codec) ==> codec.decode(req.tuples[0].payload) == Some(LwwValue(rid, value))
    ensures req.requestId == DecimalString(rid) && ParseDecimal(req.requestId) == rid
  {
    ParseDecimalString(rid);
    KeyRequest(PUT_REQUEST, [RequestTuple(key, codec.encode(LwwValue(rid, value)))], RESPONSE_ADDRESS, DecimalString(rid))
  }

  /** The request `get` sends when the counter is `rid`: a get of exactly one
      LWW tuple for `key` with an empty payload, `rid` as the request id. */
  function GetRequest(rid: nat, key: Bytes): (req: KeyRequest)
    ensures WellFormedRequest(req) && req.op == GET_REQUEST
    ensures |req.tuples| == 1 && req.tuples[0].key == key && req.tuples[0].payload == []
    ensures req.requestId == DecimalString(rid) && ParseDecimal(req.requestId) == rid
  {
    ParseDecimalString(rid);
    KeyRequest(GET_REQUEST, [RequestTuple(key, [])], RESPONSE_ADDRESS, DecimalString(rid))
  }

  /** The fixed shape of every request the client sends: a get or a put of
      exactly one LWW tuple, replies to the fixed address, decimal id. */
  predicate WellFormedRequest(req: KeyRequest) {
    && (req.op == GET_REQUEST || req.op == PUT_REQUEST)
    && |req.tuples| == 1
    && req.tuples[0].latticeType == LWW_LATTICE
    && req.tuples[0].error == NO_ERROR
    && req.tuples[0].addressCacheSize == 0
    && !req.tuples[0].invalidate
    && (req.op == GET_REQUEST ==> req.tuples[0].payload == [])
    && req.responseAddress == RESPONSE_ADDRESS
    && AllDigits(req.requestId)
  }

  /** `get` can only finish when the first tuple of a non-empty reply holds an
      envelope (otherwise its `unwrap` panics). */
  predicate ReplyDecodes(codec: LwwCodec, reply: KeyResponse): (ok: bool)
    // an empty reply never reaches the `unwrap`
    ensures reply.tuples == [] ==> ok
    // a first tuple whose payload does not parse makes `get` panic
    ensures reply.tuples != [] && codec.decode(reply.tuples[0].payload).None? ==> !ok
    // a first tuple carrying an encoded envelope is accepted
    ensures RoundTrips(codec) && reply.tuples != [] && (exists v :: reply.tuples[0].payload == codec.encode(v)) ==> ok
  {
    reply.tuples != [] ==> codec.decode(reply.tuples[0].payload).Some?
  }

  /** What `get` makes of a reply: nothing for an empty reply, otherwise the
      value in the envelope carried by the first tuple. */
  function GetResult(codec: LwwCodec, reply: KeyResponse): (r: Option<Bytes>)
    requires ReplyDecodes(codec, reply)
    ensures r.None? <==> reply.tuples == []
    ensures r.Some? ==> exists t :: codec.decode(reply.tuples[0].payload) == Some(LwwValue(t, r.value))
  {
    if |reply.tuples| > 0 then
      var envelope := codec.decode(reply.tuples[0].payload).value;
      assert codec.decode(reply.tuples[0].payload) == Some(LwwValue(envelope.timestamp, envelope.value));
      Some(envelope.value)
    else None
  }

  /** If the service answers a get with the tuple a put sent, the get returns
      the value that was put. */
  lemma EchoedPutIsRead(codec: LwwCodec, rid: nat, key: Bytes, value: Bytes)
    requires RoundTrips(codec)
    ensures var reply := KeyResponse(PutRequest(codec, rid, key, value).tuples);
            ReplyDecodes(codec, reply) && GetResult(codec, reply) == Some(value)
  {
    assert codec.decode(codec.encode(LwwValue(rid, value))) == Some(LwwValue(rid, value));
  }

  /** Requests logged with ids 0, 1, 2, ... */
  ghost predicate NumberedFromZero(sent: seq<KeyRequest>) {
    forall i | 0 <= i < |sent| :: sent[i].requestId == DecimalString(i)
  }

  /** On one client, request ids increase strictly and are never reused. */
  lemma RequestIdsIncrease(sent: seq<KeyRequest>, i: nat, j: nat)
    requires NumberedFromZero(sent)
    requires i < j < |sent|
    ensures AllDigits(sent[i].requestId) && AllDigits(sent[j].requestId)
    ensures ParseDecimal(sent[i].requestId) < ParseDecimal(sent[j].requestId)
    ensures sent[i].requestId != sent[j].requestId
  {
    ParseDecimalString(i);
    ParseDecimalString(j);
  }

  /** `CrisperKVSClient`: one push/pull channel to the service and its
      request counter `rid`. */
  class Client {
    const endpoint: string
    const bindAddress: string
    const codec: LwwCodec
    var rid: nat
    var sent: seq<KeyRequest>
    var received: seq<KeyResponse>

    /** Every request got exactly one reply before the next was sent, the
        counter counts the requests, request `i` has id `i`, and the counter
        stays within `u64`. */
    ghost predicate Valid()
      reads this
    {
      && rid == |sent| == |received|
      && rid < U64_LIMIT
      && NumberedFromZero(sent)
    }

    /** `CrisperKVSClient::new`: connects the push socket to `endpoint`,
        binds the pull socket at `bindAddress`, counter at 0. */
    constructor (endpoint: string, bindAddress: string, codec: LwwCodec)
      ensures Valid()
      ensures this.endpoint == endpoint && this.bindAddress == bindAddress && this.codec == codec
      ensures rid == 0 && sent == [] && received == []
    {
      this.endpoint := endpoint;
      this.bindAddress := bindAddress;
      this.codec := codec;
      rid := 0;
      sent := [];
      received := [];
    }

    /** Sends a put stamped with the current counter, raises the counter,
        waits for `reply`, and answers `Present` whatever the reply says. */
    method Put(key: Bytes, value: Bytes, reply: KeyResponse) returns (e: Existence)
      requires Valid()
      requires IsUtf8(key)
      requires rid + 1 < U64_LIMIT
      modifies this
      ensures Valid()
      ensures rid == old(rid) + 1
      ensures sent == old(sent) + [PutRequest(codec, old(rid), key, value)]
      ensures received == old(received) + [reply]
      ensures e == Present
    {
      var request := PutRequest(codec, rid, key, value);
      rid := rid + 1;
      sent := sent + [request];
      received := received + [reply];
      e := NewExistence(true);
    }

    /** Sends a get stamped with the current counter, raises the counter,
        waits for `reply`, and answers what the reply holds for the key. */
    method Get(key: Bytes, reply: KeyResponse) returns (r: Option<Bytes>)
      requires Valid()
      requires IsUtf8(key)
      requires rid + 1 < U64_LIMIT
      requires ReplyDecodes(codec, reply)
      modifies this
      ensures Valid()
      ensures rid == old(rid) + 1
      ensures sent == old(sent) + [GetRequest(old(rid), key)]
      ensures received == old(received) + [reply]
      ensures r.None? <==> reply.tuples == []
      ensures r == GetResult(codec, reply)
    {
      var request := GetRequest(rid, key);
      rid := rid + 1;
      sent := sent + [request];
      received := received + [reply];
      if |reply.tuples| > 0 {
        var envelope := codec.decode(reply.tuples[0].payload).value;
        r := Some(envelope.value);
      } else {
        r := None;
      }
    }

    /** The service has no deletion: the answer is always `Unknown`, and
        nothing is sent. */
    method Delete(key: Bytes) returns (e: Existence)
      ensures e == Unknown
    {
      e := Unknown;
    }
  }
}
