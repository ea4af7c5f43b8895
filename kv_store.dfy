/**
 * The UDP key/value store of protohacker4. A datagram containing `=` is an insert, split at its
 * first `=` into key and value; any other datagram is a query for the key it spells, answered with
 * `key=value` to the sender. The key `version` is fixed to `1.0`.
 */
module KvStore {
  import opened Bytes

  const BUFF_SIZE: nat := 1000
  const VERSION_KEY: Bytes := Lit("version")
  const VERSION_VALUE: Bytes := Lit("1.0")

  /** A datagram and the address of its peer (the sender of a request, the target of a reply). */
  datatype Datagram = Datagram(payload: Bytes, peer: nat)

  function Min(a: nat, b: nat): nat
  {
    if a < b then a else b
  }

  /** `index_of_equal`: the first `=` among the first `sz` bytes of `buff`. */
  method IndexOfEqual(buff: array<byte>, sz: nat) returns (r: Option<nat>)
    requires sz <= buff.Length
    ensures r == FirstIndex(buff[..sz], EQUALS)
    ensures r.Some? ==> r.value < sz && buff[r.value] == EQUALS
    ensures r.Some? <==> exists i :: 0 <= i < sz && buff[i] == EQUALS
  {
    var i := 0;
    while i < sz
      invariant i <= sz
      invariant EQUALS !in buff[..i]
    {
      if buff[i] == EQUALS {
        break;
      }
      assert buff[..i + 1] == buff[..i] + [buff[i]];
      i := i + 1;
    }
    if i == sz {
      r := None;
      assert buff[..sz] == buff[..i];
    } else {
      r := Some(i);
      assert buff[..sz][..i] == buff[..i];
      FirstIndexIs(buff[..sz], EQUALS, i);
    }
  }

  /** The text `query` formats: `key=value`, with the empty value for a missing key. */
  function Reply(store: map<Bytes, Bytes>, key: Bytes): Bytes
  {
    key + [EQUALS] + (if key in store then store[key] else [])
  }

  /** A reply to a key without `=` splits back, at its first `=`, into that key and its value. */
  lemma ReplySplits(store: map<Bytes, Bytes>, key: Bytes)
    requires EQUALS !in key
    ensures var r := Reply(store, key);
      && FirstIndex(r, EQUALS) == Some(|key|)
      && r[..|key|] == key
      && r[|key| + 1..] == (if key in store then store[key] else [])
  {
    var r := Reply(store, key);
    assert r[..|key|] == key;
    FirstIndexIs(r, EQUALS, |key|);
  }

  /** The store after `insert` of the datagram `data` whose first `=` is at `eq`. */
  function Inserted(store: map<Bytes, Bytes>, data: Bytes, eq: nat): (s: map<Bytes, Bytes>)
    requires eq < |data|
    ensures data[..eq] == VERSION_KEY ==> s == store
    ensures data[..eq] != VERSION_KEY ==> s.Keys == store.Keys + {data[..eq]} && s[data[..eq]] == data[eq + 1..]
    ensures forall k :: k in store && k != data[..eq] ==> k in s && s[k] == store[k]
  {
    if data[..eq] == VERSION_KEY then store else store[data[..eq] := data[eq + 1..]]
  }

  /** One datagram's effect: the reply it gets, if any, and the store afterwards. */
  function Handle(store: map<Bytes, Bytes>, data: Bytes): (r: (Option<Bytes>, map<Bytes, Bytes>))
    ensures r.0.None? <==> EQUALS in data
    ensures r.0.Some? ==> r.1 == store
    ensures r.0.Some? ==> var full := Reply(store, data);
      r.0.value == full[..Min(BUFF_SIZE, |full|)]
  {
    match FirstIndex(data, EQUALS)
    case Some(eq) => (None, Inserted(store, data, eq))
    case None =>
      var full := Reply(store, data);
      (Some(full[..Min(BUFF_SIZE, |full|)]), store)
  }

  /** `recv_from` into the 1000-byte buffer keeps at most 1000 bytes of a datagram. */
  function Received(payload: Bytes): (d: Bytes)
    ensures |d| == Min(|payload|, BUFF_SIZE) && d <= payload
  {
    payload[..Min(|payload|, BUFF_SIZE)]
  }

  /** The server over a sequence of datagrams: the replies it sends and the final store. */
  function Session(store: map<Bytes, Bytes>, packets: seq<Datagram>): (r: (seq<Datagram>, map<Bytes, Bytes>))
    decreases |packets|
  {
    if packets == [] then ([], store)
    else
      var (reply, next) := Handle(store, Received(packets[0].payload));
      var (more, last) := Session(next, packets[1..]);
      ((if reply.Some? then [Datagram(reply.value, packets[0].peer)] else []) + more, last)
  }

  /** `version` keeps the value `1.0` whatever the datagrams are. */
  lemma {:induction false} VersionAlwaysOne(store: map<Bytes, Bytes>, packets: seq<Datagram>)
    requires VERSION_KEY in store && store[VERSION_KEY] == VERSION_VALUE
    ensures var last := Session(store, packets).1;
      VERSION_KEY in last && last[VERSION_KEY] == VERSION_VALUE
    decreases |packets|
  {
    if packets != [] {
      VersionAlwaysOne(Handle(store, Received(packets[0].payload)).1, packets[1..]);
    }
  }

  /** The datagrams that are queries once received. */
  function Queries(packets: seq<Datagram>): (q: seq<Datagram>)
    ensures |q| <= |packets|
    decreases |packets|
  {
    if packets == [] then []
    else (if EQUALS in Received(packets[0].payload) then [] else [packets[0]]) + Queries(packets[1..])
  }

  /** Inserts get no reply; every query gets exactly one, in order, addressed to its sender. */
  lemma {:induction false} OneReplyPerQuery(store: map<Bytes, Bytes>, packets: seq<Datagram>)
    ensures var sent := Session(store, packets).0;
      && |sent| == |Queries(packets)|
      && forall i :: 0 <= i < |sent| ==> sent[i].peer == Queries(packets)[i].peer && |sent[i].payload| <= BUFF_SIZE
    decreases |packets|
  {
    if packets != [] {
      OneReplyPerQuery(Handle(store, Received(packets[0].payload)).1, packets[1..]);
    }
  }

  /**
   * An insert of `key=value` followed by a query for `key` answers `key=value`, truncated to the
   * buffer; the value may itself contain `=`. A query for `version` is answered as before the insert.
   */
  lemma InsertThenQuery(store: map<Bytes, Bytes>, key: Bytes, value: Bytes)
    requires EQUALS !in key
    ensures var data := key + [EQUALS] + value;
      var after := Handle(store, data).1;
      var expected := if key == VERSION_KEY then Reply(store, key) else data;
      Handle(after, key).0 == Some(expected[..Min(BUFF_SIZE, |expected|)])
  {
    var data := key + [EQUALS] + value;
    assert data[..|key|] == key;
    FirstIndexIs(data, EQUALS, |key|);
    assert data[|key| + 1..] == value;
  }

  class KeyValueStore {
    var store: map<Bytes, Bytes>

    /** The version entry `main` installs before serving. */
    ghost predicate Valid()
      reads this
    {
      VERSION_KEY in store && store[VERSION_KEY] == VERSION_VALUE
    }

    constructor ()
      ensures store == map[VERSION_KEY := VERSION_VALUE] && Valid()
    {
      store := map[VERSION_KEY := VERSION_VALUE];
    }

    /** `insert`: key before the `=`, value after; `version` is never written. */
    method Insert(buff: Bytes, eqPos: nat)
      requires eqPos < |buff|
      modifies this
      ensures store == Inserted(old(store), buff, eqPos)
      ensures old(Valid()) ==> Valid()
    {
      var key := buff[..eqPos];
      var value := buff[eqPos + 1..];
      if key == VERSION_KEY {
        return;
      }
      store := store[key := value];
    }

    /** `query`: format `key=value` into `buff`, keeping at most its 1000 bytes. */
    method Query(key: Bytes, buff: array<byte>) returns (total: nat)
      requires buff.Length == BUFF_SIZE
      modifies buff
      ensures total == Min(BUFF_SIZE, |Reply(store, key)|)
      ensures buff[..total] == Reply(store, key)[..total]
      ensures buff[total..] == old(buff[total..])
    {
      var value := if key in store then store[key] else [];
      var result := key + [EQUALS] + value;
      total := Min(BUFF_SIZE, |result|);
      CopyInto(buff, 0, result[..total]);
      assert buff[..total] == result[..total];
    }
  }

  /** Zero the first `sz` bytes of `buff`, as the loop at the end of each turn of `main` does. */
  method ResetPrefix(buff: array<byte>, sz: nat)
    requires sz <= buff.Length
    modifies buff
    ensures forall i :: 0 <= i < sz ==> buff[i] == 0
    ensures forall i :: sz <= i < buff.Length ==> buff[i] == old(buff[i])
  {
    var i := 0;
    while i < sz
      invariant i <= sz
      invariant forall j :: 0 <= j < i ==> buff[j] == 0
      invariant forall j :: sz <= j < buff.Length ==> buff[j] == old(buff[j])
    {
      buff[i] := 0;
      i := i + 1;
    }
  }

  /**
   * One turn of `main`: receive the datagram into `recvBuff`, insert or answer it, then zero what
   * was received. Returns the reply sent, if any.
   */
  method Turn(kv: KeyValueStore, recvBuff: array<byte>, sendBuff: array<byte>, packet: Datagram)
    returns (reply: Option<Datagram>)
    requires recvBuff.Length == BUFF_SIZE && sendBuff.Length == BUFF_SIZE && recvBuff != sendBuff
    requires forall i :: 0 <= i < BUFF_SIZE ==> recvBuff[i] == 0
    modifies kv, recvBuff, sendBuff
    ensures forall i :: 0 <= i < BUFF_SIZE ==> recvBuff[i] == 0
    ensures var (r, next) := Handle(old(kv.store), Received(packet.payload));
      && kv.store == next
      && (reply.Some? <==> r.Some?)
      && (reply.Some? ==> reply.value == Datagram(r.value, packet.peer))
  {
    var data := Received(packet.payload);
    var sz := |data|;
    CopyInto(recvBuff, 0, data);
    assert recvBuff[..sz] == data;
    assert forall i :: sz <= i < BUFF_SIZE ==> recvBuff[i] == recvBuff[..][i] == 0;
    var eqPos := IndexOfEqual(recvBuff, sz);
    if eqPos.Some? {
      kv.Insert(recvBuff[..sz], eqPos.value);
      reply := None;
    } else {
      var n := kv.Query(recvBuff[..sz], sendBuff);
      reply := Some(Datagram(sendBuff[..n], packet.peer));
    }
    ResetPrefix(recvBuff, sz);
  }

  /**
   * The loop of `main` over the datagrams `packets`, starting from the store `main` initialises:
   * the replies sent, in order, and the store at the end.
   */
  method Serve(packets: seq<Datagram>) returns (sent: seq<Datagram>, last: map<Bytes, Bytes>)
    ensures (sent, last) == Session(map[VERSION_KEY := VERSION_VALUE], packets)
  {
    var kv := new KeyValueStore();
    var recvBuff := new byte[BUFF_SIZE](_ => 0);
    var sendBuff := new byte[BUFF_SIZE](_ => 0);
    ghost var total := Session(kv.store, packets);
    sent := [];
    var k := 0;
    assert packets[k..] == packets && sent + total.0 == total.0;
    while k < |packets|
      invariant k <= |packets| && recvBuff.Length == BUFF_SIZE && sendBuff.Length == BUFF_SIZE
      invariant forall i :: 0 <= i < BUFF_SIZE ==> recvBuff[i] == 0
      invariant total.0 == sent + Session(kv.store, packets[k..]).0
      invariant total.1 == Session(kv.store, packets[k..]).1
    {
      ghost var store0 := kv.store;
      var reply := Turn(kv, recvBuff, sendBuff, packets[k]);
      TurnAdvancesSession(store0, packets[k..], reply, kv.store);
      assert packets[k..][1..] == packets[k + 1..];
      var here: seq<Datagram> := if reply.Some? then [reply.value] else [];
      ghost var later := Session(kv.store, packets[k + 1..]).0;
      assert total.0 == sent + (here + later);
      AppendAssoc(sent, here, later);
      sent := sent + here;
      k := k + 1;
    }
    last := kv.store;
    assert packets[k..] == [];
    assert sent + [] == sent;
  }

  /** A turn that handled the first datagram leaves the session of the remaining ones to run. */
  lemma TurnAdvancesSession(store: map<Bytes, Bytes>, packets: seq<Datagram>, reply: Option<Datagram>,
                            next: map<Bytes, Bytes>)
    requires packets != []
    requires var (r, after) := Handle(store, Received(packets[0].payload));
      && next == after
      && (reply.Some? <==> r.Some?)
      && (reply.Some? ==> reply.value == Datagram(r.value, packets[0].peer))
    ensures Session(store, packets).0 == (if reply.Some? then [reply.value] else []) + Session(next, packets[1..]).0
    ensures Session(store, packets).1 == Session(next, packets[1..]).1
  {
  }
}
