/** The servers' handlers: decode, echo, and record in the sender's own store. */
module SonarServer {
  import opened Machine
  import opened Salts
  import opened SonarCodec
  import C = SpanClient
  import opened StatTable
  import S = BucketStore

  /** A received datagram: payload, sender, and the local port and time it arrived at. */
  datatype Datagram = Datagram(data: seq<u8>, remote: string, remotePort: u16, port: u16, now: i64)

  /** The two operations of a valid datagram, in order. */
  function Recording(d: Datagram, msgLen: int): (S.Operation, S.Operation) {
    var h := Decode(d.data);
    ( S.OpPut(d.remotePort, d.port, h.seqNo, h.ts),
      S.OpReceivedAndFix(h.seqNo, h.ts, WrapI64(d.now - h.ts), S.LastSpan(h.lastSent, h.lastSrc, h.lastDst),
                         HasBitflip(d.data, msgLen)) )
  }

  /** The table after one datagram. */
  function Handle(v: View, cfg: S.Config, msgLen: int, d: Datagram): (v': View)
    ensures v.Keys <= v'.Keys
  {
    if !IsValid(d.data) then v else
      var (put, fix) := Recording(d, msgLen);
      OnPeer(OnPeer(WithPeer(v, d.remote), d.remote, cfg, put), d.remote, cfg, fix)
  }

  class Server {
    const msgLen: int
    const table: Table

    /** Starts with an empty store for each configured client. */
    constructor (cfg: S.Config, msgLen: int, clients: seq<string>)
      ensures table.Valid() && table.State() == Prepared(clients) && table.cfg == cfg && this.msgLen == msgLen
      ensures fresh(table) && fresh(table.stats.Values)
    {
      this.msgLen := msgLen;
      table := new Table(cfg);
      new;
      table.Prepare(clients);
    }

    /** Echoes a valid datagram unchanged and records it; ignores anything else. */
    method HandlePacket(d: Datagram) returns (echo: Option<seq<u8>>)
      requires table.Valid()
      modifies table, table.stats.Values, table.Objects()
      ensures table.Valid()
      ensures echo == if IsValid(d.data) then Some(d.data) else None
      ensures table.State() == Handle(old(table.State()), table.cfg, msgLen, d)
    {
      if !IsValid(d.data) {
        return None;
      }
      echo := Some(d.data);
      var (put, fix) := Recording(d, msgLen);
      table.GetOrCreate(d.remote);
      PutThenFix(d.remote, put, fix);
    }

    method PutThenFix(remote: string, put: S.Operation, fix: S.Operation)
      requires table.Valid() && remote in table.stats
      modifies table.stats[remote], table.stats[remote].buckets.Values
      ensures table.Valid()
      ensures table.State() == OnPeer(OnPeer(old(table.State()), remote, table.cfg, put), remote, table.cfg, fix)
    {
      table.Do(remote, put);
      table.Do(remote, fix);
    }
  }

  /** A probe that arrives intact is recorded as the client counted it: its pair, number and time, its
      report on the previous span, and no bit flip. */
  lemma IntactProbeIsRecorded(x: C.Probe, msgLen: int, remote: string, now: i64)
    requires x.ts < 0x8000_0000_0000_0000
    ensures var h := Header(x.seqNo, x.ts, x.last.count, x.last.src, x.last.dst);
            var data := Encoded(h, Salt(x.seqNo, Length(msgLen) - HEADER), msgLen);
      && IsValid(data)
      && Recording(Datagram(data, remote, x.pair.src, x.pair.dst, now), msgLen)
         == (S.OpPut(x.pair.src, x.pair.dst, x.seqNo, x.ts),
             S.OpReceivedAndFix(x.seqNo, x.ts, WrapI64(now - x.ts), x.last, false))
  {
    DecodeEncoded(Header(x.seqNo, x.ts, x.last.count, x.last.src, x.last.dst), Salt(x.seqNo, Length(msgLen) - HEADER), msgLen);
  }

  /** The store of a sender, empty before it is first seen. */
  function StoreOf(v: View, key: string): S.Store { if key in v then v[key] else S.EMPTY_STORE }

  /** What an arrival leaves in its sender's store: in the bucket of the probe's span, its entry with the
      pair it was sent on, its send time and the measured time; the bucket before repaired with its report
      if this is the bucket's first arrival; and nothing else changed. */
  predicate Stored(s: S.Store, s': S.Store, cfg: S.Config, x: C.Probe, rtt: i64) {
    var id := S.BucketOf(x.ts, cfg);
    && s'.buckets.Keys == s.buckets.Keys + {id}
    && (forall k :: k in s.buckets && k != id && k != id - 1 ==> s'.buckets[k] == s.buckets[k])
    && (id - 1 in s.buckets ==> S.RepairedBy(s.buckets[id - 1], s'.buckets[id - 1], !S.Before(s, id, cfg).fixed, x.last))
    && S.OnlyEntry(S.Before(s, id, cfg).(fixed := true), s'.buckets[id], x.seqNo)
    && var r := s'.buckets[id].requests[x.seqNo];
       r.clientPort == x.pair.src && r.serverPort == x.pair.dst && r.ts == x.ts && r.rtt == rtt && !r.hasBitflip
  }

  lemma PutThenFixStores(s: S.Store, cfg: S.Config, x: C.Probe, rtt: i64)
    requires x.ts < 0x8000_0000_0000_0000
    ensures Stored(s, S.ReceivedAndFix(S.Put(s, cfg, x.pair.src, x.pair.dst, x.seqNo, x.ts), cfg, x.seqNo, x.ts, rtt, x.last, false), cfg, x, rtt)
  {
    var s1 := S.Put(s, cfg, x.pair.src, x.pair.dst, x.seqNo, x.ts);
    S.PutEffect(s, cfg, x.pair.src, x.pair.dst, x.seqNo, x.ts);
    S.ReceivedAndFixEffect(s1, cfg, x.seqNo, x.ts, rtt, x.last, false);
    StoredTwice(s, s1, S.ReceivedAndFix(s1, cfg, x.seqNo, x.ts, rtt, x.last, false), cfg, x, rtt);
  }

  /** From what each of the two operations changes. */
  lemma StoredTwice(s: S.Store, s1: S.Store, s': S.Store, cfg: S.Config, x: C.Probe, rtt: i64)
    requires var id := S.BucketOf(x.ts, cfg);
      && S.OnlyBucket(s, s1, id) && S.OnlyEntry(S.Before(s, id, cfg), s1.buckets[id], x.seqNo)
      && var r := s1.buckets[id].requests[x.seqNo]; r.clientPort == x.pair.src && r.serverPort == x.pair.dst && r.ts == x.ts
    requires var id := S.BucketOf(x.ts, cfg);
      && s'.buckets.Keys == s1.buckets.Keys + {id}
      && (forall k :: k in s1.buckets && k != id && k != id - 1 ==> s'.buckets[k] == s1.buckets[k])
      && (id - 1 in s1.buckets ==> S.RepairedBy(s1.buckets[id - 1], s'.buckets[id - 1], !S.Before(s1, id, cfg).fixed, x.last))
      && S.OnlyEntry(S.Before(s1, id, cfg).(fixed := true), s'.buckets[id], x.seqNo)
      && s'.buckets[id].requests[x.seqNo] == s1.buckets[id].requests[x.seqNo].(rtt := rtt, hasBitflip := false)
    ensures Stored(s, s', cfg, x, rtt)
  {
  }

  /** The bytes of a probe, as the client sends them. */
  function ProbeBytes(x: C.Probe, msgLen: int): seq<u8>
    requires x.ts < 0x8000_0000_0000_0000
  {
    Encoded(Header(x.seqNo, x.ts, x.last.count, x.last.src, x.last.dst), Salt(x.seqNo, Length(msgLen) - HEADER), msgLen)
  }

  /** Handling an intact probe is put, then receivedAndFix, on the store of its sender. */
  lemma IntactProbeIsHandled(v: View, cfg: S.Config, msgLen: int, x: C.Probe, remote: string, now: i64)
    requires x.ts < 0x8000_0000_0000_0000
    ensures Handle(v, cfg, msgLen, Datagram(ProbeBytes(x, msgLen), remote, x.pair.src, x.pair.dst, now))
         == v[remote := S.ReceivedAndFix(S.Put(StoreOf(v, remote), cfg, x.pair.src, x.pair.dst, x.seqNo, x.ts),
                                         cfg, x.seqNo, x.ts, WrapI64(now - x.ts), x.last, false)]
  {
    IntactProbeIsRecorded(x, msgLen, remote, now);
    var v1 := WithPeer(v, remote);
    assert v1[remote] == StoreOf(v, remote);
  }

  /** So is any valid datagram, with the fields decoded from it; it is marked as flipped exactly when it has the
      configured length and another tail than the salt of its number. */
  lemma DatagramIsHandled(v: View, cfg: S.Config, msgLen: int, d: Datagram)
    requires |d.data| >= 32 && d.data[..8] == [67, 72, 65, 79, 79, 65, 72, 67]
    ensures var h, own := Decode(d.data), StoreOf(v, d.remote);
            var flipped := |d.data| == msgLen && d.data[32..] != Salt(h.seqNo, |d.data| - 32);
      Handle(v, cfg, msgLen, d)
      == v[d.remote := S.ReceivedAndFix(S.Put(own, cfg, d.remotePort, d.port, h.seqNo, h.ts), cfg, h.seqNo, h.ts, WrapI64(d.now - h.ts),
                                        S.LastSpan(h.lastSent, h.lastSrc, h.lastDst), flipped)]
  {
    FlippedIff(d.data, msgLen);
    var v1 := WithPeer(v, d.remote);
    assert v1[d.remote] == StoreOf(v, d.remote);
  }

  /** On any table, an intact probe changes the store of its sender alone, and that as it should. */
  lemma IntactProbeIsStored(v: View, cfg: S.Config, msgLen: int, x: C.Probe, remote: string, now: i64)
    requires x.ts < 0x8000_0000_0000_0000
    ensures var v' := Handle(v, cfg, msgLen, Datagram(ProbeBytes(x, msgLen), remote, x.pair.src, x.pair.dst, now));
      && v'.Keys == v.Keys + {remote} && (forall k :: k in v && k != remote ==> v'[k] == v[k])
      && Stored(StoreOf(v, remote), v'[remote], cfg, x, WrapI64(now - x.ts))
  {
    IntactProbeIsHandled(v, cfg, msgLen, x, remote, now);
    PutThenFixStores(StoreOf(v, remote), cfg, x, WrapI64(now - x.ts));
  }

  /** A datagram that is too short or has another magic changes nothing. */
  lemma OthersChangeNothing(v: View, cfg: S.Config, msgLen: int, d: Datagram)
    requires |d.data| < 32 || d.data[..8] != [67, 72, 65, 79, 79, 65, 72, 67]
    ensures Handle(v, cfg, msgLen, d) == v
  {
  }

  // ----- peers do not interfere -----

  function Run(v: View, cfg: S.Config, msgLen: int, ds: seq<Datagram>): (v': View) {
    if ds == [] then v else Handle(Run(v, cfg, msgLen, ds[..|ds| - 1]), cfg, msgLen, ds[|ds| - 1])
  }

  /** The datagrams of one sender, in order. */
  function From(ds: seq<Datagram>, remote: string): (own: seq<Datagram>) {
    if ds == [] then [] else
      var own := From(ds[..|ds| - 1], remote);
      if ds[|ds| - 1].remote == remote then own + [ds[|ds| - 1]] else own
  }

  /** What a sender's store holds depends on its own datagrams alone, whatever others send in between. */
  lemma {:induction false} PeersDoNotInterfere(v: View, cfg: S.Config, msgLen: int, ds: seq<Datagram>, remote: string)
    ensures var all, own := Run(v, cfg, msgLen, ds), Run(v, cfg, msgLen, From(ds, remote));
      (remote in all <==> remote in own) && (remote in all ==> all[remote] == own[remote])
  {
    if ds != [] {
      var init, d := ds[..|ds| - 1], ds[|ds| - 1];
      PeersDoNotInterfere(v, cfg, msgLen, init, remote);
      if d.remote == remote {
        var own := From(init, remote);
        assert (own + [d])[..|own|] == own;
      }
    }
  }
}

module KuiniuServer {
  import opened Machine
  import opened KuiniuCodec
  import opened Salts
  import opened ByteOrder
  import opened StatTable
  import E = Echo
  import S = BucketStore

  function ToIp(b: seq<u8>): (ip: E.Ip)
    requires |b| == 4
  {
    E.Ip(b[0], b[1], b[2], b[3])
  }

  function IpBytes(ip: E.Ip): (b: seq<u8>)
    ensures |b| == 4 && ToIp(b) == ip
  {
    [ip.a, ip.b, ip.c, ip.d]
  }

  /** What the echo's sender is asked to send. */
  datatype Outgoing = Outgoing(src: E.Ip, dst: E.Ip, srcPort: u16, dstPort: u16, payload: seq<u8>)

  function Recording(data: seq<u8>, msgLen: int): S.Operation {
    var h := Decode(data);
    S.OpReceivedAndFix(h.seqNo, h.ts, 0, S.LastSpan(h.lastSent, h.lastSrc, h.lastDst), HasBitflip(data, msgLen))
  }

  /** The packet is a probe of some other node. */
  predicate Accepted(local: set<string>, data: seq<u8>) {
    IsValid(data) && E.Text(ToIp(Decode(data).srcIP)) !in local
  }

  function Handle(v: View, cfg: S.Config, msgLen: int, local: set<string>, data: seq<u8>): View {
    if !Accepted(local, data) then v else
      var key := E.Text(ToIp(Decode(data).srcIP));
      OnPeer(WithPeer(v, key), key, cfg, Recording(data, msgLen))
  }

  function EchoOf(gpu: E.Ip, data: seq<u8>): Outgoing
    requires IsValid(data)
  {
    var h := Decode(data);
    Outgoing(gpu, ToIp(h.srcIP), h.dstPort, h.srcPort, data)
  }

  class Server {
    const msgLen: int
    const gpus: seq<E.Address>
    const localGPUSet: set<string>
    const table: Table

    /** Starts with an empty store for each configured remote address, as written. */
    constructor (cfg: S.Config, msgLen: int, gpus: seq<E.Address>, remotes: seq<string>)
      ensures table.Valid() && table.State() == Prepared(remotes) && table.cfg == cfg && this.msgLen == msgLen
      ensures fresh(table) && fresh(table.stats.Values)
      ensures this.gpus == gpus && localGPUSet == set i | 0 <= i < |gpus| :: gpus[i].text
    {
      this.msgLen, this.gpus := msgLen, gpus;
      localGPUSet := set i | 0 <= i < |gpus| :: gpus[i].text;
      table := new Table(cfg);
      new;
      table.Prepare(remotes);
    }

    /** Skips packets that started on this node; records and echoes every other valid one. */
    method HandlePacket(data: seq<u8>, gpuIndex: nat) returns (echo: Option<Outgoing>)
      requires table.Valid() && gpuIndex < |gpus|
      modifies table, table.stats.Values, table.Objects()
      ensures table.Valid()
      ensures echo == if Accepted(localGPUSet, data) then Some(EchoOf(gpus[gpuIndex].ip, data)) else None
      ensures table.State() == Handle(old(table.State()), table.cfg, msgLen, localGPUSet, data)
    {
      if !IsValid(data) {
        return None;
      }
      var h := Decode(data);
      var clientGPUIP := E.Text(ToIp(h.srcIP));
      if clientGPUIP in localGPUSet {
        return None;
      }
      table.GetOrCreate(clientGPUIP);
      table.Do(clientGPUIP, Recording(data, msgLen));
      echo := Some(Outgoing(gpus[gpuIndex].ip, ToIp(h.srcIP), h.dstPort, h.srcPort, data));
    }
  }

  /** The payload bytes of a packet of the echo protocol, with the fields that protocol leaves open. */
  function PayloadBytes(p: E.Payload, ts: i64, last: S.LastSpan, salt: seq<u8>, msgLen: int): seq<u8> {
    Encoded(Header(p.seqNo, ts, last.count, IpBytes(p.srcIP), IpBytes(p.dstIP), p.srcPort, p.dstPort, last.src, last.dst), salt, msgLen)
  }

  /** On the wire the handler does what the echo protocol says: the same packets are echoed, to the
      same address and ports, and the echo carries the same payload. */
  lemma HandlerRefinesEcho(n: E.Node, gpu: nat, p: E.Packet, ts: i64, last: S.LastSpan, salt: seq<u8>, msgLen: int)
    requires gpu < |n.gpus| && n.isServer
    ensures var data, out := PayloadBytes(p.payload, ts, last, salt, msgLen), E.Handle(n, gpu, p);
      && (Accepted(E.LocalSet(n), data) <==> out.Some?)
      && (out.Some? ==>
            var e := EchoOf(n.gpus[gpu].ip, data);
            && e.src == out.value.src && e.dst == out.value.dst && e.srcPort == out.value.srcPort && e.dstPort == out.value.dstPort
            && e.payload == PayloadBytes(out.value.payload, ts, last, salt, msgLen))
  {
    var q := p.payload;
    DecodeEncoded(Header(q.seqNo, ts, last.count, IpBytes(q.srcIP), IpBytes(q.dstIP), q.srcPort, q.dstPort, last.src, last.dst), salt, msgLen);
  }

  /** A valid packet of another node is recorded under its source address with the fields decoded from it;
      it is marked as flipped exactly when it has the configured length and another tail than its salt. */
  lemma PacketIsHandled(v: View, cfg: S.Config, msgLen: int, local: set<string>, data: seq<u8>)
    requires |data| >= 44 && data[..8] == [75, 85, 73, 78, 73, 85, 84, 67]
    requires E.Text(E.Ip(data[28], data[29], data[30], data[31])) !in local
    ensures var h, key := Decode(data), E.Text(E.Ip(data[28], data[29], data[30], data[31]));
            var s := if key in v then v[key] else S.EMPTY_STORE;
            var flipped := |data| == msgLen && data[44..] != Salt(h.seqNo, |data| - 44);
      Handle(v, cfg, msgLen, local, data)
      == v[key := S.ReceivedAndFix(s, cfg, h.seqNo, h.ts, 0, S.LastSpan(h.lastSent, h.lastSrc, h.lastDst), flipped)]
  {
    FlippedIff(data, msgLen);
    var key := E.Text(E.Ip(data[28], data[29], data[30], data[31]));
    assert WithPeer(v, key)[key] == if key in v then v[key] else S.EMPTY_STORE;
  }

  predicate HasOtherTail(seqNo: u64, tail: seq<u8>) { tail != Salt(seqNo, |tail|) }

  /** What the handler reads from a payload with the given tail. */
  lemma PayloadIsRead(p: E.Payload, ts: i64, last: S.LastSpan, tail: seq<u8>, msgLen: int)
    requires |tail| == Length(msgLen) - HEADER
    ensures var data := PayloadBytes(p, ts, last, tail, msgLen);
      && IsValid(data) && ToIp(Decode(data).srcIP) == p.srcIP
      && Recording(data, msgLen) == S.OpReceivedAndFix(p.seqNo, ts, 0, last, HasOtherTail(p.seqNo, tail))
  {
    DecodeEncoded(Header(p.seqNo, ts, last.count, IpBytes(p.srcIP), IpBytes(p.dstIP), p.srcPort, p.dstPort, last.src, last.dst), tail, msgLen);
  }

  /** A payload of another node is recorded in the store under its source address, as it was counted there:
      number, send time, no measured time, its own report, and a bit flip exactly when the tail is not the salt. */
  lemma ProbeIsRecorded(
    v: View, cfg: S.Config, msgLen: int, local: set<string>, p: E.Payload, ts: i64, last: S.LastSpan, tail: seq<u8>)
    requires E.Text(p.srcIP) !in local && |tail| == Length(msgLen) - HEADER
    ensures var key := E.Text(p.srcIP);
            var s := if key in v then v[key] else S.EMPTY_STORE;
      Handle(v, cfg, msgLen, local, PayloadBytes(p, ts, last, tail, msgLen))
      == v[key := S.ReceivedAndFix(s, cfg, p.seqNo, ts, 0, last, HasOtherTail(p.seqNo, tail))]
  {
    PayloadIsRead(p, ts, last, tail, msgLen);
    var key := E.Text(p.srcIP);
    assert WithPeer(v, key)[key] == if key in v then v[key] else S.EMPTY_STORE;
  }

  /** A packet of this node's own, or one that is not valid, changes no store. */
  lemma OthersChangeNothing(v: View, cfg: S.Config, msgLen: int, local: set<string>, data: seq<u8>)
    requires |data| < 44 || data[..8] != [75, 85, 73, 78, 73, 85, 84, 67] || E.Text(E.Ip(data[28], data[29], data[30], data[31])) in local
    ensures Handle(v, cfg, msgLen, local, data) == v
  {
  }
}
