/** The echo protocol of kuiniu nodes: which packets travel, and when they stop. */
module Echo {
  import opened Machine
  import opened PortKeys

  /** An IPv4 address. */
  datatype Ip = Ip(a: u8, b: u8, c: u8, d: u8)

  /** The canonical text of an address. */
  function Text(ip: Ip): (s: string) {
    Decimal(ip.a) + "." + (Decimal(ip.b) + "." + (Decimal(ip.c) + "." + Decimal(ip.d)))
  }

  /** No two addresses have the same text. */
  lemma TextInjective(x: Ip, y: Ip)
    requires Text(x) == Text(y)
    ensures x == y
  {
    var x3, y3 := Decimal(x.c) + "." + Decimal(x.d), Decimal(y.c) + "." + Decimal(y.d);
    var x2, y2 := Decimal(x.b) + "." + x3, Decimal(y.b) + "." + y3;
    SplitUnique(Decimal(x.a), x2, Decimal(y.a), y2, '.');
    SplitUnique(Decimal(x.b), x3, Decimal(y.b), y3, '.');
    SplitUnique(Decimal(x.c), Decimal(x.d), Decimal(y.c), Decimal(y.d), '.');
    DecimalInjective(x.a, y.a);
    DecimalInjective(x.b, y.b);
    DecimalInjective(x.c, y.c);
    DecimalInjective(x.d, y.d);
  }

  lemma FourFields(a: string, b: string, c: string, d: string)
    requires '.' !in a && '.' !in b && '.' !in c && '.' !in d
    ensures Fields(a + "." + (b + "." + (c + "." + d)), '.') == [a, b, c, d]
  {
    FieldsFirst(a, b + ['.'] + (c + ['.'] + d), '.');
    FieldsFirst(b, c + ['.'] + d, '.');
    FieldsFirst(c, d, '.');
    FieldsLast(d, '.');
  }

  /** The text is four decimal numbers with dots in between; reading them gives the address back. */
  lemma ReadText(ip: Ip)
    ensures var f := Fields(Text(ip), '.');
      |f| == 4 && Read(f[0]) == ip.a && Read(f[1]) == ip.b && Read(f[2]) == ip.c && Read(f[3]) == ip.d
  {
    FourFields(Decimal(ip.a), Decimal(ip.b), Decimal(ip.c), Decimal(ip.d));
    ReadDecimal(ip.a);
    ReadDecimal(ip.b);
    ReadDecimal(ip.c);
    ReadDecimal(ip.d);
  }

  /** A configured address: its text, and what parsing it gave. */
  datatype Address = Address(text: string, ip: Ip)

  /** A node probes `remotes[i]` from `gpus[i]` if it is a client, and echoes if it is a server. */
  datatype Node = Node(gpus: seq<Address>, remotes: seq<Address>, isClient: bool, isServer: bool)

  type Network = seq<Node>

  datatype Payload = Payload(srcIP: Ip, dstIP: Ip, srcPort: u16, dstPort: u16, seqNo: u64)

  /** A packet in flight. `hops` counts the handlers that sent it on; no handler can read it. */
  datatype Packet = Packet(src: Ip, dst: Ip, srcPort: u16, dstPort: u16, payload: Payload, hops: nat)

  type State = multiset<Packet>

  /** The texts a node takes for its own. */
  function LocalSet(n: Node): set<string> {
    set i | 0 <= i < |n.gpus| :: n.gpus[i].text
  }

  /** The server's handler: nothing for a packet that started here, an echo to the payload's source otherwise. */
  function Handle(n: Node, gpu: nat, p: Packet): (out: Option<Packet>)
    requires gpu < |n.gpus|
  {
    if !n.isServer || Text(p.payload.srcIP) in LocalSet(n) then None else
      Some(Packet(n.gpus[gpu].ip, p.payload.srcIP, p.payload.dstPort, p.payload.srcPort, p.payload, p.hops + 1))
  }

  function Probe(n: Node, pair: nat, srcPort: u16, dstPort: u16, seqNo: u64): Packet
    requires pair < |n.gpus| && pair < |n.remotes|
  {
    var src, dst := n.gpus[pair].ip, n.remotes[pair].ip;
    Packet(src, dst, srcPort, dstPort, Payload(src, dst, srcPort, dstPort, seqNo), 0)
  }

  datatype Step =
    | Send(node: nat, pair: nat, srcPort: u16, dstPort: u16, seqNo: u64)
    | Drop(packet: Packet)
    | Duplicate(packet: Packet)
    | Deliver(packet: Packet, node: nat, gpu: nat)

  /** Packets reach only nodes that list the destination among their local addresses. */
  predicate Enabled(net: Network, s: State, step: Step) {
    match step
    case Send(n, i, _, _, _) => n < |net| && net[n].isClient && i < |net[n].gpus| && i < |net[n].remotes|
    case Drop(p) => p in s
    case Duplicate(p) => p in s
    case Deliver(p, n, i) => p in s && n < |net| && i < |net[n].gpus| && net[n].gpus[i].ip == p.dst
  }

  function Do(net: Network, s: State, step: Step): State
    requires Enabled(net, s, step)
  {
    match step
    case Send(n, i, sp, dp, q) => s + multiset{Probe(net[n], i, sp, dp, q)}
    case Drop(p) => s - multiset{p}
    case Duplicate(p) => s + multiset{p}
    case Deliver(p, n, i) =>
      var rest := s - multiset{p};
      match Handle(net[n], i, p)
      case None => rest
      case Some(e) => rest + multiset{e}
  }

  /** The steps, in order, lead from one state to another. */
  predicate Runs(net: Network, s: State, steps: seq<Step>, s': State)
    decreases |steps|
  {
    if steps == [] then s == s' else
      Enabled(net, s, steps[0]) && Runs(net, Do(net, s, steps[0]), steps[1..], s')
  }

  ghost predicate Reachable(net: Network, s: State) {
    exists steps :: Runs(net, multiset{}, steps, s)
  }

  // ----- what is in flight -----

  /** A pair (local, remote) that some client probes. */
  predicate Probes(net: Network, n: nat, i: nat, src: Ip, dst: Ip) {
    && n < |net| && net[n].isClient && i < |net[n].gpus| && i < |net[n].remotes|
    && net[n].gpus[i].ip == src && net[n].remotes[i].ip == dst
  }

  ghost predicate Probed(net: Network, src: Ip, dst: Ip) {
    exists n: nat, i: nat :: Probes(net, n, i, src, dst)
  }

  /** Node `n` echoes packets of origin `src` that arrive for `dst`. */
  predicate EchoesAt(net: Network, n: nat, i: nat, src: Ip, dst: Ip) {
    n < |net| && i < |net[n].gpus| && net[n].gpus[i].ip == dst && net[n].isServer && Text(src) !in LocalSet(net[n])
  }

  ghost predicate Echoes(net: Network, src: Ip, dst: Ip) {
    exists n: nat, i: nat :: EchoesAt(net, n, i, src, dst)
  }

  predicate IsProbe(p: Packet) {
    p.hops == 0 && p.src == p.payload.srcIP && p.dst == p.payload.dstIP
    && p.srcPort == p.payload.srcPort && p.dstPort == p.payload.dstPort
  }

  predicate IsEcho(p: Packet) {
    p.hops > 0 && p.dst == p.payload.srcIP && p.srcPort == p.payload.dstPort && p.dstPort == p.payload.srcPort
    && p.src == if p.hops == 1 then p.payload.dstIP else p.payload.srcIP
  }

  /** An original probe, or an echo on its way back to where the probe started. */
  ghost predicate PacketOk(net: Network, p: Packet) {
    && Probed(net, p.payload.srcIP, p.payload.dstIP)
    && (IsProbe(p) || (IsEcho(p) && Echoes(net, p.payload.srcIP, p.payload.dstIP)))
  }

  ghost predicate AllOk(net: Network, s: State) {
    forall p: Packet :: p in s ==> PacketOk(net, p)
  }

  lemma SentOk(net: Network, n: nat, i: nat, sp: u16, dp: u16, q: u64)
    requires n < |net| && net[n].isClient && i < |net[n].gpus| && i < |net[n].remotes|
    ensures PacketOk(net, Probe(net[n], i, sp, dp, q))
  {
    assert Probes(net, n, i, net[n].gpus[i].ip, net[n].remotes[i].ip);
  }

  lemma HandledOk(net: Network, p: Packet, n: nat, i: nat)
    requires PacketOk(net, p) && n < |net| && i < |net[n].gpus| && net[n].gpus[i].ip == p.dst
    ensures Handle(net[n], i, p).Some? ==> PacketOk(net, Handle(net[n], i, p).value) && Handle(net[n], i, p).value.payload == p.payload
  {
    if Handle(net[n], i, p).Some? && IsProbe(p) {
      assert EchoesAt(net, n, i, p.payload.srcIP, p.payload.dstIP);
    }
  }

  lemma StepKeepsOk(net: Network, s: State, step: Step)
    requires AllOk(net, s) && Enabled(net, s, step)
    ensures AllOk(net, Do(net, s, step))
  {
    match step
    case Send(n, i, sp, dp, q) => SentOk(net, n, i, sp, dp, q);
    case Deliver(p, n, i) => HandledOk(net, p, n, i);
    case _ =>
  }

  lemma {:induction false} RunKeepsOk(net: Network, s: State, steps: seq<Step>, s': State)
    requires AllOk(net, s) && Runs(net, s, steps, s')
    ensures AllOk(net, s')
    decreases |steps|
  {
    if steps != [] {
      StepKeepsOk(net, s, steps[0]);
      RunKeepsOk(net, Do(net, s, steps[0]), steps[1..], s');
    }
  }

  /** In every reachable state each packet is an original probe, or an echo for the payload's source. */
  lemma ReachableOk(net: Network, s: State)
    requires Reachable(net, s)
    ensures AllOk(net, s)
  {
    var steps :| Runs(net, multiset{}, steps, s);
    RunKeepsOk(net, multiset{}, steps, s);
  }

  // ----- no echo is echoed -----

  /** No handler sends an echo on, whatever happens. */
  ghost predicate NoEchoIsEchoed(net: Network) {
    forall s: State, p: Packet, n: nat, i: nat ::
      Reachable(net, s) && p.hops > 0 && Enabled(net, s, Deliver(p, n, i)) ==> Handle(net[n], i, p).None?
  }

  /** A probing address whose probes come back knows itself: wherever its echoes arrive, it is in the local set. */
  ghost predicate GuardsHold(net: Network) {
    forall src, dst :: Probed(net, src, dst) && Echoes(net, src, dst) ==> !Echoes(net, src, src)
  }

  lemma {:induction false} RunsAppend(net: Network, s: State, steps: seq<Step>, s': State, step: Step)
    requires Runs(net, s, steps, s') && Enabled(net, s', step)
    ensures Runs(net, s, steps + [step], Do(net, s', step))
    decreases |steps|
  {
    if steps == [] {
      assert Runs(net, Do(net, s, step), [step][1..], Do(net, s', step));
    } else {
      assert (steps + [step])[1..] == steps[1..] + [step];
      RunsAppend(net, Do(net, s, steps[0]), steps[1..], s', step);
    }
  }

  lemma ReachableStep(net: Network, s: State, step: Step)
    requires Reachable(net, s) && Enabled(net, s, step)
    ensures Reachable(net, Do(net, s, step))
  {
    var steps :| Runs(net, multiset{}, steps, s);
    RunsAppend(net, multiset{}, steps, s, step);
  }

  lemma ProbeReachable(net: Network, n: nat, i: nat) returns (s: State)
    requires n < |net| && net[n].isClient && i < |net[n].gpus| && i < |net[n].remotes|
    ensures Reachable(net, s) && Probe(net[n], i, 0, 0, 0) in s
  {
    assert Runs(net, multiset{}, [], multiset{});
    ReachableStep(net, multiset{}, Send(n, i, 0, 0, 0));
    s := Do(net, multiset{}, Send(n, i, 0, 0, 0));
  }

  /** A probe that was echoed, with the echo in flight. */
  lemma EchoReachable(net: Network, src: Ip, dst: Ip) returns (s: State, e: Packet)
    requires Probed(net, src, dst) && Echoes(net, src, dst)
    ensures Reachable(net, s) && e in s && e.hops == 1 && e.payload.srcIP == src && e.payload.dstIP == dst && e.dst == src
  {
    var n: nat, i: nat :| Probes(net, n, i, src, dst);
    var m: nat, j: nat :| EchoesAt(net, m, j, src, dst);
    var p := Probe(net[n], i, 0, 0, 0);
    var s0 := ProbeReachable(net, n, i);
    ReachableStep(net, s0, Deliver(p, m, j));
    s, e := Do(net, s0, Deliver(p, m, j)), Handle(net[m], j, p).value;
  }

  /** An echo that a handler sends on shows a guard that fails. */
  lemma EchoedEcho(net: Network, s: State, p: Packet, n: nat, i: nat)
    requires Reachable(net, s) && p.hops > 0 && Enabled(net, s, Deliver(p, n, i)) && Handle(net[n], i, p).Some?
    ensures !GuardsHold(net)
  {
    ReachableOk(net, s);
    assert PacketOk(net, p);
    assert EchoesAt(net, n, i, p.payload.srcIP, p.payload.srcIP);
    assert Probed(net, p.payload.srcIP, p.payload.dstIP) && Echoes(net, p.payload.srcIP, p.payload.dstIP);
  }

  /** A guard that fails lets some run send an echo on. */
  lemma FailingGuard(net: Network, src: Ip, dst: Ip)
    requires Probed(net, src, dst) && Echoes(net, src, dst) && Echoes(net, src, src)
    ensures !NoEchoIsEchoed(net)
  {
    var s, e := EchoReachable(net, src, dst);
    var k: nat, l: nat :| EchoesAt(net, k, l, src, src);
    assert Enabled(net, s, Deliver(e, k, l)) && Handle(net[k], l, e).Some?;
  }

  /** No echo is ever echoed exactly when the guards hold. */
  lemma NoEchoIsEchoedIff(net: Network)
    ensures NoEchoIsEchoed(net) <==> GuardsHold(net)
  {
    if !NoEchoIsEchoed(net) {
      var s: State, p: Packet, n: nat, i: nat :|
        Reachable(net, s) && p.hops > 0 && Enabled(net, s, Deliver(p, n, i)) && Handle(net[n], i, p).Some?;
      EchoedEcho(net, s, p, n, i);
    }
    if !GuardsHold(net) {
      var src, dst :| Probed(net, src, dst) && Echoes(net, src, dst) && Echoes(net, src, src);
      FailingGuard(net, src, dst);
    }
  }

  /** Every configured local address is written canonically. */
  predicate Canonical(net: Network) {
    forall n, i :: 0 <= n < |net| && 0 <= i < |net[n].gpus| ==> net[n].gpus[i].text == Text(net[n].gpus[i].ip)
  }

  /** Canonical configuration makes the guards hold. */
  lemma CanonicalGuards(net: Network)
    requires Canonical(net)
    ensures GuardsHold(net)
  {
    forall src: Ip, n: nat, i: nat ensures !EchoesAt(net, n, i, src, src) {
      if n < |net| && i < |net[n].gpus| && net[n].gpus[i].ip == src {
        assert net[n].gpus[i].text in LocalSet(net[n]);
      }
    }
  }

  // ----- traffic dies out -----

  function Weight(p: Packet): nat { if p.hops == 0 then 2 else 1 }

  /** Twice the probes plus the echoes in flight. */
  ghost function Measure(s: State): (m: nat)
    decreases |s|
  {
    if s == multiset{} then 0 else
      var p :| p in s;
      Weight(p) + Measure(s - multiset{p})
  }

  lemma {:induction false} MeasureWithout(s: State, p: Packet)
    requires p in s
    ensures Measure(s) == Weight(p) + Measure(s - multiset{p})
    decreases |s|
  {
    var q :| q in s && Measure(s) == Weight(q) + Measure(s - multiset{q});
    if q != p {
      var rest := s - multiset{p} - multiset{q};
      MeasureWithout(s - multiset{q}, p);
      MeasureWithout(s - multiset{p}, q);
      assert s - multiset{q} - multiset{p} == rest;
    }
  }

  lemma MeasureWith(s: State, p: Packet)
    ensures Measure(s + multiset{p}) == Weight(p) + Measure(s)
  {
    MeasureWithout(s + multiset{p}, p);
    assert s + multiset{p} - multiset{p} == s;
  }

  /** A step that neither starts a probe nor duplicates a packet. */
  predicate Quiet(step: Step) { step.Drop? || step.Deliver? }

  predicate AllQuiet(steps: seq<Step>) { forall i :: 0 <= i < |steps| ==> Quiet(steps[i]) }

  lemma HandledIsProbe(net: Network, s: State, p: Packet, n: nat, i: nat)
    requires GuardsHold(net) && Reachable(net, s) && Enabled(net, s, Deliver(p, n, i)) && Handle(net[n], i, p).Some?
    ensures Weight(p) == 2 && Weight(Handle(net[n], i, p).value) == 1
  {
    NoEchoIsEchoedIff(net);
    assert p.hops == 0;
  }

  lemma QuietStepShrinks(net: Network, s: State, step: Step)
    requires GuardsHold(net) && Reachable(net, s) && Enabled(net, s, step) && Quiet(step)
    ensures Measure(Do(net, s, step)) < Measure(s)
  {
    var p := step.packet;
    MeasureWithout(s, p);
    if step.Deliver? && Handle(net[step.node], step.gpu, p).Some? {
      MeasureWith(s - multiset{p}, Handle(net[step.node], step.gpu, p).value);
      HandledIsProbe(net, s, p, step.node, step.gpu);
    }
  }

  lemma {:induction false} QuietRunIsShort(net: Network, s: State, steps: seq<Step>, s': State)
    requires GuardsHold(net) && Reachable(net, s) && AllQuiet(steps) && Runs(net, s, steps, s')
    ensures |steps| <= Measure(s)
    decreases |steps|
  {
    if steps != [] {
      QuietStepShrinks(net, s, steps[0]);
      ReachableStep(net, s, steps[0]);
      QuietRunIsShort(net, Do(net, s, steps[0]), steps[1..], s');
    }
  }

  /** Once clients stop and the network no longer duplicates, at most Measure(s) steps are left. */
  ghost predicate TrafficDiesOut(net: Network) {
    forall s: State, steps: seq<Step>, s': State ::
      Reachable(net, s) && AllQuiet(steps) && Runs(net, s, steps, s') ==> |steps| <= Measure(s)
  }

  /** A node that does not know its own address answers itself for ever. */
  lemma {:induction false} EndlessEcho(net: Network, s: State, e: Packet, k: nat, l: nat, n: nat) returns (steps: seq<Step>, s': State)
    requires e in s && EchoesAt(net, k, l, e.payload.srcIP, e.dst) && e.dst == e.payload.srcIP
    ensures |steps| == n && AllQuiet(steps) && Runs(net, s, steps, s')
    decreases n
  {
    if n == 0 {
      steps, s' := [], s;
    } else {
      var step := Deliver(e, k, l);
      var rest;
      rest, s' := EndlessEcho(net, Do(net, s, step), Handle(net[k], l, e).value, k, l, n - 1);
      steps := [step] + rest;
      assert steps[1..] == rest;
    }
  }

  /** Traffic dies out exactly when the guards hold. */
  lemma TrafficDiesOutIff(net: Network)
    ensures TrafficDiesOut(net) <==> GuardsHold(net)
  {
    if GuardsHold(net) {
      forall s: State, steps: seq<Step>, s': State | Reachable(net, s) && AllQuiet(steps) && Runs(net, s, steps, s')
        ensures |steps| <= Measure(s)
      {
        QuietRunIsShort(net, s, steps, s');
      }
    } else {
      var src, dst :| Probed(net, src, dst) && Echoes(net, src, dst) && Echoes(net, src, src);
      var s, e := EchoReachable(net, src, dst);
      var k: nat, l: nat :| EchoesAt(net, k, l, src, src);
      var steps, s' := EndlessEcho(net, s, e, k, l, Measure(s) + 1);
    }
  }

  lemma SelfEchoNeverDiesOut(net: Network, n: nat, m: nat, k: nat, src: Ip, dst: Ip)
    requires Probes(net, n, 0, src, dst) && EchoesAt(net, m, 0, src, dst) && EchoesAt(net, k, 0, src, src)
    ensures !TrafficDiesOut(net)
  {
    assert Probed(net, src, dst) && Echoes(net, src, dst) && Echoes(net, src, src);
    TrafficDiesOutIff(net);
  }

  /** Two nodes in both roles, one of them writing its address as an IPv4-mapped IPv6 address. */
  function MappedNetwork(x: Ip, y: Ip): Network {
    [ Node([Address("::ffff:" + Text(x), x)], [Address(Text(y), y)], true, true),
      Node([Address(Text(y), y)], [Address(Text(x), x)], true, true) ]
  }

  lemma MappedAddressNeverDiesOut()
    ensures !TrafficDiesOut(MappedNetwork(Ip(10, 0, 0, 1), Ip(10, 0, 0, 2)))
  {
    var x, y := Ip(10, 0, 0, 1), Ip(10, 0, 0, 2);
    var net := MappedNetwork(x, y);
    TextStartsWithDigit(x);
    TextsDiffer();
    assert ("::ffff:" + Text(x))[0] == ':';
    SelfEchoNeverDiesOut(net, 0, 1, 0, x, y);
  }

  lemma TextStartsWithDigit(ip: Ip)
    ensures Text(ip)[0] != ':'
  {
    DecimalHasNoColon(ip.a);
    assert Text(ip)[0] == Decimal(ip.a)[0];
  }

  lemma {:induction false} DecimalHasNoColon(n: nat)
    ensures Decimal(n)[0] != ':'
  {
    if n >= 10 {
      DecimalHasNoColon(n / 10);
      assert Decimal(n)[0] == Decimal(n / 10)[0];
    } else {
      assert Decimal(n)[0] == "0123456789"[n];
    }
  }

  lemma TextsDiffer()
    ensures Text(Ip(10, 0, 0, 1)) != Text(Ip(10, 0, 0, 2))
  {
    assert Decimal(1) == "1" && Decimal(2) == "2";
    var s, t := Text(Ip(10, 0, 0, 1)), Text(Ip(10, 0, 0, 2));
    assert s[|s| - 1] == '1' && t[|t| - 1] == '2';
  }

  // ----- which pair an echo is credited to -----

  /** The first pair with the given remote address. */
  function FirstPeer(remotes: seq<Address>, ip: Ip): (i: nat)
    ensures i <= |remotes|
    ensures i < |remotes| ==> remotes[i].ip == ip
    ensures forall j :: 0 <= j < i ==> remotes[j].ip != ip
  {
    if remotes == [] || remotes[0].ip == ip then 0 else 1 + FirstPeer(remotes[1..], ip)
  }

  method FindPeer(remotes: seq<Address>, ip: Ip) returns (i: nat)
    ensures i == FirstPeer(remotes, ip)
  {
    i := 0;
    while i < |remotes|
      invariant i <= |remotes|
      invariant FirstPeer(remotes, ip) == i + FirstPeer(remotes[i..], ip)
    {
      if remotes[i].ip == ip {
        return;
      }
      i := i + 1;
    }
  }

  /** Every address belongs to one node, in one place. */
  predicate AddressesUnique(net: Network) {
    forall n, i, m, j | 0 <= n < |net| && 0 <= m < |net| && 0 <= i < |net[n].gpus| && 0 <= j < |net[m].gpus| ::
      net[n].gpus[i].ip == net[m].gpus[j].ip ==> n == m && i == j
  }

  /** In every reachable state, an echo that can be delivered to node `n` on its address `l` is credited
      to pair `l`, the pair that sent the probe. */
  ghost predicate EchoesCredited(net: Network, n: nat)
    requires n < |net|
  {
    forall s: State, p: Packet, l: nat ::
      Reachable(net, s) && p.hops > 0 && Enabled(net, s, Deliver(p, n, l)) ==> FirstPeer(net[n].remotes, p.payload.dstIP) == l
  }

  /** No pair of node `n` whose probes come back shares its remote address with an earlier pair. */
  ghost predicate EchoedRemotesDistinct(net: Network, n: nat)
    requires n < |net| && |net[n].remotes| == |net[n].gpus|
  {
    forall i, j :: 0 <= i < j < |net[n].remotes| && Echoes(net, net[n].gpus[j].ip, net[n].remotes[j].ip)
      ==> net[n].remotes[i].ip != net[n].remotes[j].ip
  }

  /** An echo delivered to a node started there, from the pair whose local address it arrived at. */
  lemma EchoCameFrom(net: Network, s: State, p: Packet, n: nat, l: nat)
    requires AddressesUnique(net) && Reachable(net, s) && p.hops > 0 && Enabled(net, s, Deliver(p, n, l))
    requires |net[n].remotes| == |net[n].gpus|
    ensures net[n].remotes[l].ip == p.payload.dstIP && net[n].gpus[l].ip == p.payload.srcIP
    ensures Echoes(net, p.payload.srcIP, p.payload.dstIP)
  {
    ReachableOk(net, s);
    assert PacketOk(net, p);
    var m: nat, j: nat :| Probes(net, m, j, p.payload.srcIP, p.payload.dstIP);
  }

  lemma SharedRemoteMiscredits(net: Network, n: nat, i: nat, j: nat)
    requires n < |net| && net[n].isClient && |net[n].remotes| == |net[n].gpus| && i < j < |net[n].remotes|
    requires Echoes(net, net[n].gpus[j].ip, net[n].remotes[j].ip) && net[n].remotes[i].ip == net[n].remotes[j].ip
    ensures !EchoesCredited(net, n)
  {
    assert Probes(net, n, j, net[n].gpus[j].ip, net[n].remotes[j].ip);
    var s, e := EchoReachable(net, net[n].gpus[j].ip, net[n].remotes[j].ip);
    assert Enabled(net, s, Deliver(e, n, j));
    assert FirstPeer(net[n].remotes, e.payload.dstIP) <= i;
  }

  /** Every echo of every run is credited to the pair that sent the probe, exactly when no pair whose
      probes come back shares its remote address with an earlier one. */
  lemma EchoesCreditedIff(net: Network, n: nat)
    requires n < |net| && net[n].isClient && |net[n].remotes| == |net[n].gpus| && AddressesUnique(net)
    ensures EchoesCredited(net, n) <==> EchoedRemotesDistinct(net, n)
  {
    if EchoedRemotesDistinct(net, n) {
      forall s: State, p: Packet, l: nat | Reachable(net, s) && p.hops > 0 && Enabled(net, s, Deliver(p, n, l))
        ensures FirstPeer(net[n].remotes, p.payload.dstIP) == l
      {
        EchoCameFrom(net, s, p, n, l);
        FirstPeerAt(net[n].remotes, l);
      }
    } else {
      var i, j :| 0 <= i < j < |net[n].remotes| && Echoes(net, net[n].gpus[j].ip, net[n].remotes[j].ip)
        && net[n].remotes[i].ip == net[n].remotes[j].ip;
      SharedRemoteMiscredits(net, n, i, j);
    }
  }

  lemma FirstPeerAt(remotes: seq<Address>, l: nat)
    requires l < |remotes|
    ensures FirstPeer(remotes, remotes[l].ip) <= l
    ensures FirstPeer(remotes, remotes[l].ip) < l ==> remotes[FirstPeer(remotes, remotes[l].ip)].ip == remotes[l].ip
  {
  }
}
