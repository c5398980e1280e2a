/** `CrisperClientPool`: the clients that could be built, and a round-robin
    cursor that picks which one serves the next put or get. */
module CrisperPool {
  import opened Common
  import opened Decimal
  import opened Utf8
  import opened Crisper

  /** The first local port; client `i` binds its pull socket at `BASE_PORT + i`. */
  const BASE_PORT: nat := 7000

  /** The pull-socket address of attempt `i`: any interface, port 7000 + i. */
  function BindAddress(i: nat): (addr: string)
    ensures |addr| > 8 && addr[..8] == "tcp://*:"
    ensures AllDigits(addr[8..]) && ParseDecimal(addr[8..]) == BASE_PORT + i
  {
    ParseDecimalString(BASE_PORT + i);
    assert ("tcp://*:" + DecimalString(BASE_PORT + i))[8..] == DecimalString(BASE_PORT + i);
    "tcp://*:" + DecimalString(BASE_PORT + i)
  }

  /** Different attempts bind different addresses. */
  lemma BindAddressesDistinct(i: nat, j: nat)
    ensures BindAddress(i) == BindAddress(j) <==> i == j
  {
    if BindAddress(i) == BindAddress(j) {
      assert BindAddress(i)[8..] == DecimalString(BASE_PORT + i);
      assert BindAddress(j)[8..] == DecimalString(BASE_PORT + j);
      DecimalStringInjective(BASE_PORT + i, BASE_PORT + j);
    }
  }

  /** The attempt indices whose construction succeeded, in order. */
  function KeptIndices(built: seq<bool>): (r: seq<nat>)
    ensures |r| <= |built|
  {
    if built == [] then []
    else KeptIndices(built[..|built| - 1]) + (if built[|built| - 1] then [|built| - 1] else [])
  }

  /** Exactly the successful attempts are kept, in increasing order. */
  lemma {:induction false} KeptIndicesExact(built: seq<bool>)
    ensures forall j | 0 <= j < |KeptIndices(built)| :: KeptIndices(built)[j] < |built| && built[KeptIndices(built)[j]]
    ensures forall j, l | 0 <= j < l < |KeptIndices(built)| :: KeptIndices(built)[j] < KeptIndices(built)[l]
    ensures forall i | 0 <= i < |built| && built[i] :: i in KeptIndices(built)
  {
    if built != [] {
      var prefix := built[..|built| - 1];
      KeptIndicesExact(prefix);
      assert forall i | 0 <= i < |prefix| :: prefix[i] == built[i];
    }
  }

  /** `(curr + 1) % num_clients`: the cursor's next position, which wraps
      to 0 after the last client. */
  function Advance(curr: nat, n: nat): (next: nat)
    requires curr < n
    ensures next == if curr + 1 < n then curr + 1 else 0
  {
    ModNext(curr, n);
    (curr + 1) % n
  }

  lemma ModNext(c: nat, n: nat)
    requires c < n
    ensures (c + 1) % n == if c + 1 < n then c + 1 else 0
  {
    if c + 1 < n {
      DivModUnique(c + 1, n, 0, c + 1);
    } else {
      DivModUnique(c + 1, n, 1, 0);
    }
  }

  /** The cursor after the first `k` selections on a pool of `n` clients. */
  function Cursor(n: nat, k: nat): (c: nat)
    requires n > 0
    ensures c < n
  {
    if k == 0 then 0 else Advance(Cursor(n, k - 1), n)
  }

  /** The clients picked by the first `k` selections, in order. */
  function Schedule(n: nat, k: nat): (s: seq<nat>)
    requires n > 0
    ensures |s| == k
  {
    if k == 0 then [] else Schedule(n, k - 1) + [Cursor(n, k - 1)]
  }

  lemma MulNonnegative(a: int, b: int)
    requires a >= 0 && b >= 0
    ensures a * b >= 0
  {
  }

  lemma MulSubtract(a: int, b: int, n: int)
    ensures (a - b) * n == a * n - b * n
  {
  }

  /** Quotient and remainder are determined by `k == q * n + r, 0 <= r < n`. */
  lemma DivModUnique(k: int, n: int, q: int, r: int)
    requires n > 0 && 0 <= r < n && k == q * n + r
    ensures k / n == q && k % n == r
  {
    var d, m := k / n, k % n;
    assert k == d * n + m;
    if d > q {
      MulSubtract(d, q + 1, n);
      MulNonnegative(d - q - 1, n);
      assert false;
    } else if d < q {
      MulSubtract(q, d + 1, n);
      MulNonnegative(q - d - 1, n);
      assert false;
    }
  }

  /** One step past `m`: the remainder grows by one or wraps to 0, and the
      quotient grows exactly when it wraps. */
  lemma DivModNext(n: nat, m: nat)
    requires n > 0
    ensures m % n + 1 < n ==> (m + 1) / n == m / n && (m + 1) % n == m % n + 1
    ensures m % n + 1 == n ==> (m + 1) / n == m / n + 1 && (m + 1) % n == 0
  {
    var q, r := m / n, m % n;
    assert m == q * n + r;
    if r + 1 < n {
      DivModUnique(m + 1, n, q, r + 1);
    } else {
      assert m + 1 == (q + 1) * n;
      DivModUnique(m + 1, n, q + 1, 0);
    }
  }

  /** The cursor after `k` selections is `k mod n`. */
  lemma {:induction false} CursorIsModular(n: nat, k: nat)
    requires n > 0
    ensures Cursor(n, k) == k % n
  {
    if k > 0 {
      CursorIsModular(n, k - 1);
      DivModNext(n, k - 1);
    }
  }

  /** Selection `j` picks client `j mod n`: 0, 1, ..., n - 1, 0, ... */
  lemma {:induction false} ScheduleIsRoundRobin(n: nat, k: nat)
    requires n > 0
    ensures forall j | 0 <= j < k :: Schedule(n, k)[j] == j % n
  {
    if k > 0 {
      ScheduleIsRoundRobin(n, k - 1);
      CursorIsModular(n, k - 1);
    }
  }

  /** Over `k` selections, client `i` is picked `k / n` times, plus once
      more when `i < k mod n`. */
  lemma {:induction false} ScheduleCounts(n: nat, k: nat, i: nat)
    requires 0 <= i < n
    ensures multiset(Schedule(n, k))[i] == k / n + (if i < k % n then 1 else 0)
  {
    if k == 0 {
      DivModUnique(0, n, 0, 0);
    } else {
      ScheduleCounts(n, k - 1, i);
      CursorIsModular(n, k - 1);
      DivModNext(n, k - 1);
      var before := multiset(Schedule(n, k - 1))[i];
      var r := Cursor(n, k - 1);
      assert multiset(Schedule(n, k)) == multiset(Schedule(n, k - 1)) + multiset{r};
      assert multiset(Schedule(n, k))[i] == before + (if i == r then 1 else 0);
    }
  }

  /** Fairness: every client is picked `floor(k / n)` or `ceil(k / n)` times. */
  lemma ScheduleIsFair(n: nat, k: nat, i: nat)
    requires 0 <= i < n
    ensures k / n <= multiset(Schedule(n, k))[i] <= (k + n - 1) / n
  {
    ScheduleCounts(n, k, i);
    CeilingDiv(k, n);
  }

  /** Rounding the quotient up adds one exactly when there is a remainder. */
  lemma CeilingDiv(k: nat, n: nat)
    requires n > 0
    ensures (k + n - 1) / n == k / n + (if k % n > 0 then 1 else 0)
  {
    var q, r := k / n, k % n;
    assert k == q * n + r;
    MulSubtract(q + 1, 1, n);
    if r > 0 {
      DivModUnique(k + n - 1, n, q + 1, r - 1);
    } else {
      DivModUnique(k + n - 1, n, q, n - 1);
    }
  }

  class Pool {
    var numClients: nat
    var clients: seq<Client>
    var curr: nat
    /** The clients the pool is made of. */
    ghost var Repr: set<Client>
    /** The index picked by every selection so far. */
    ghost var served: seq<nat>

    /** The clients are distinct and valid, `numClients` is their count, and
        the cursor sits where round-robin from 0 puts it. */
    ghost predicate Valid()
      reads this, Repr
    {
      && numClients == |clients|
      && (forall i | 0 <= i < |clients| :: clients[i] in Repr)
      && (forall i, j | 0 <= i < j < |clients| :: clients[i] != clients[j])
      && (forall i | 0 <= i < |clients| :: clients[i].Valid())
      && (numClients == 0 ==> curr == 0 && served == [])
      && (numClients > 0 ==> curr == Cursor(numClients, |served|) && served == Schedule(numClients, |served|))
    }

    /** `CrisperClientPool::new`: attempts `n` clients, client `i` bound at
        port 7000 + i; `built[i]` says whether that attempt succeeded. Only
        the successful ones are kept, in order, and the cursor starts at 0. */
    constructor (n: nat, endpoint: string, built: seq<bool>, codec: LwwCodec)
      requires |built| == n
      ensures Valid() && fresh(Repr)
      ensures numClients == |KeptIndices(built)| && curr == 0 && served == []
      ensures forall j | 0 <= j < |clients| ::
                && clients[j].bindAddress == BindAddress(KeptIndices(built)[j])
                && clients[j].endpoint == endpoint
                && clients[j].codec == codec
                && clients[j].rid == 0 && clients[j].sent == []
    {
      var kept: seq<Client> := [];
      for i := 0 to n
        invariant |kept| == |KeptIndices(built[..i])|
        invariant forall j | 0 <= j < |kept| ::
                    && fresh(kept[j]) && kept[j].Valid()
                    && kept[j].bindAddress == BindAddress(KeptIndices(built[..i])[j])
                    && kept[j].endpoint == endpoint
                    && kept[j].codec == codec
                    && kept[j].rid == 0 && kept[j].sent == []
        invariant forall j, l | 0 <= j < l < |kept| :: kept[j] != kept[l]
      {
        assert built[..i + 1][..i] == built[..i];
        if built[i] {
          var client := new Client(endpoint, BindAddress(i), codec);
          kept := kept + [client];
        }
      }
      assert built[..n] == built;
      numClients := |kept|;
      clients := kept;
      curr := 0;
      Repr := set j | 0 <= j < |kept| :: kept[j];
      served := [];
    }

    /** `get_client`: the client at the cursor; the cursor moves one step,
        wrapping at the end. With no clients the source's `unwrap` panics. */
    method GetClient() returns (c: Client)
      requires Valid()
      requires numClients > 0
      modifies this`curr, this`served
      ensures Valid()
      ensures c == clients[old(curr)]
      ensures curr == Advance(old(curr), numClients)
      ensures served == old(served) + [old(curr)]
    {
      c := clients[curr];
      served := served + [curr];
      curr := (curr + 1) % numClients;
    }

    /** Puts through the selected client and returns its answer. */
    method Put(key: Bytes, value: Bytes, reply: KeyResponse) returns (e: Existence)
      requires Valid()
      requires numClients > 0
      requires IsUtf8(key)
      requires clients[curr].rid + 1 < U64_LIMIT
      modifies this`curr, this`served, clients[curr]
      ensures Valid()
      ensures curr == Advance(old(curr), numClients)
      ensures served == old(served) + [old(curr)]
      ensures var c := clients[old(curr)];
              && c.rid == old(c.rid) + 1
              && c.sent == old(c.sent) + [PutRequest(c.codec, old(c.rid), key, value)]
              && c.received == old(c.received) + [reply]
      ensures forall j | 0 <= j < |clients| && j != old(curr) :: unchanged(clients[j])
      ensures e == Present
    {
      var c := GetClient();
      e := c.Put(key, value, reply);
    }

    /** Gets through the selected client and returns its answer. */
    method Get(key: Bytes, reply: KeyResponse) returns (r: Option<Bytes>)
      requires Valid()
      requires numClients > 0
      requires IsUtf8(key)
      requires clients[curr].rid + 1 < U64_LIMIT
      requires ReplyDecodes(clients[curr].codec, reply)
      modifies this`curr, this`served, clients[curr]
      ensures Valid()
      ensures curr == Advance(old(curr), numClients)
      ensures served == old(served) + [old(curr)]
      ensures var c := clients[old(curr)];
              && c.rid == old(c.rid) + 1
              && c.sent == old(c.sent) + [GetRequest(old(c.rid), key)]
              && c.received == old(c.received) + [reply]
              && r == GetResult(c.codec, reply)
      ensures forall j | 0 <= j < |clients| && j != old(curr) :: unchanged(clients[j])
    {
      var c := GetClient();
      r := c.Get(key, reply);
    }

    /** Deletion is answered by the pool itself: `Unknown`, with no client
        selected and the cursor left where it was. */
    method Delete(key: Bytes) returns (e: Existence)
      ensures e == Unknown
    {
      e := Unknown;
    }
  }

  /** In a pool of `n > 0` clients the `j`-th put or get went to client
      `j mod n`, and the cursor is the number of calls so far mod `n`. */
  lemma ServedRoundRobin(p: Pool)
    requires p.Valid() && p.numClients > 0
    ensures forall j | 0 <= j < |p.served| :: p.served[j] == j % p.numClients
    ensures p.curr == |p.served| % p.numClients
  {
    ScheduleIsRoundRobin(p.numClients, |p.served|);
    CursorIsModular(p.numClients, |p.served|);
  }
}
