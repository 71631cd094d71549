/** Traceroute: how a probe is tagged, and which reply is matched to which probe. */
module ProbeIdentity {
  import opened Machine
  import opened Bpf

  datatype Proto = ICMP | UDP | TCP

  datatype Conf = Conf(proto: Proto, pid: u16, srcPort: u16, port: u16, fixedDstPort: bool, maxHops: int, queries: int)

  /** The two 16-bit fields a reply is recognised by: id and seq, or both ports. */
  datatype Tag = Tag(first: u16, second: u16)

  /** One probe of a run. */
  datatype Probe = Probe(dst: seq<u8>, ttl: int, number: int)

  predicate InRun(p: Probe, c: Conf) { 1 <= p.ttl <= c.maxHops && 0 <= p.number < c.queries }

  function EphemeralSrcPort(pid: u16, ttl: int, number: int): (port: u16)
    ensures 33000 <= port <= 62999
  {
    33000 + (pid + ttl % 0x1_0000 * 16 + number % 0x1_0000) % 0x1_0000 % 30000
  }

  function SrcPort(c: Conf, ttl: int, number: int): u16 {
    if c.srcPort != 0 then c.srcPort else EphemeralSrcPort(c.pid, ttl, number)
  }

  function DstPort(c: Conf, ttl: int): u16 {
    match c.proto
    case TCP => c.port
    case _ => if c.fixedDstPort then c.port else (c.port + ttl % 0x1_0000) % 0x1_0000
  }

  /** What buildProbe writes into the fields. */
  function TagOf(c: Conf, ttl: int, number: int): Tag {
    if c.proto.ICMP? then Tag(c.pid, ttl % 0x1_0000 * 256 % 0x1_0000 + number % 256)
    else Tag(SrcPort(c, ttl, number), DstPort(c, ttl))
  }

  /** The fields on the wire for the hops of a run: process id, and hop and probe number in a byte each; or a
      configured source port, and a destination port that moves with the hop unless it is fixed or for TCP. */
  lemma TagFields(c: Conf, ttl: nat, number: nat)
    requires ttl <= 255 && number <= 255
    ensures c.proto == ICMP ==> TagOf(c, ttl, number) == Tag(c.pid, 256 * ttl + number)
    ensures c.proto != ICMP && c.srcPort != 0 ==> TagOf(c, ttl, number).first == c.srcPort
    ensures c.proto == TCP || (c.proto == UDP && c.fixedDstPort) ==> TagOf(c, ttl, number).second == c.port
    ensures c.proto == UDP && !c.fixedDstPort ==>
      var port := TagOf(c, ttl, number).second; port == c.port + ttl || port == c.port + ttl - 0x1_0000
  {
    SmallFields(c.port, ttl, number);
  }

  lemma SmallFields(port: u16, ttl: nat, number: nat)
    requires ttl <= 255 && number <= 255
    ensures ttl % 0x1_0000 * 256 % 0x1_0000 == 256 * ttl && number % 256 == number
    ensures var p := (port + ttl % 0x1_0000) % 0x1_0000; p == port + ttl || p == port + ttl - 0x1_0000
  {
  }

  // ----- tags identify probes -----

  /** No two probes of a run carry the same tag. */
  ghost predicate TagsUnique(c: Conf) {
    forall t, n, t', n' | 1 <= t <= c.maxHops && 0 <= n < c.queries && 1 <= t' <= c.maxHops && 0 <= n' < c.queries ::
      TagOf(c, t, n) == TagOf(c, t', n') ==> t == t' && n == n'
  }

  /** The number of queries each way of tagging can tell apart. */
  function Distinguishable(c: Conf): (most: int) {
    match c.proto
    case ICMP => 256
    case _ =>
      var perHop := c.proto.UDP? && !c.fixedDstPort;
      if c.srcPort != 0 then if perHop || c.maxHops <= 1 then 1 else 0
      else if perHop || c.maxHops <= 1 then 5536 else 16
  }

  /** Neither modulus confuses offsets less than 5536 apart. */
  lemma OffsetsDiffer(x: nat, d: nat)
    requires 0 < d < 5536
    ensures x % 0x1_0000 % 30000 != (x + d) % 0x1_0000 % 30000
  {
    var v, w := x % 0x1_0000, (x + d) % 0x1_0000;
    assert w == v + d || w == v + d - 0x1_0000;
    if w == v + d { OtherRemainder(v, d); } else { OtherRemainder(w, 0x1_0000 - d); }
  }

  lemma OtherRemainder(v: nat, d: nat)
    ensures d % 30000 != 0 ==> (v + d) % 30000 != v % 30000
  {
  }

  lemma SameOffset(x: nat, k: nat, k': nat)
    requires (x + k) % 0x1_0000 % 30000 == (x + k') % 0x1_0000 % 30000 && -5536 < k - k' < 5536
    ensures k == k'
  {
    if k < k' { OffsetsDiffer(x + k, k' - k); }
    if k' < k { OffsetsDiffer(x + k', k - k'); }
  }

  lemma EphemeralAt(pid: u16, t: int, n: int)
    requires 0 <= t <= 255 && 0 <= n < 0x1_0000
    ensures EphemeralSrcPort(pid, t, n) == 33000 + (pid + (t * 16 + n)) % 0x1_0000 % 30000
  {
  }

  /** The ephemeral port is injective below 16 probes a hop, whatever the process id. */
  lemma EphemeralInjective(pid: u16, t: int, n: int, t': int, n': int)
    requires 1 <= t <= 255 && 1 <= t' <= 255 && 0 <= n < 16 && 0 <= n' < 16
    requires EphemeralSrcPort(pid, t, n) == EphemeralSrcPort(pid, t', n')
    ensures t == t' && n == n'
  {
    EphemeralAt(pid, t, n);
    EphemeralAt(pid, t', n');
    SameOffset(pid, t * 16 + n, t' * 16 + n');
  }

  /** Within one hop, up to 5536 probes are told apart. */
  lemma EphemeralInjectiveInHop(pid: u16, t: int, n: int, n': int)
    requires 1 <= t <= 255 && 0 <= n < 5536 && 0 <= n' < 5536
    requires EphemeralSrcPort(pid, t, n) == EphemeralSrcPort(pid, t, n')
    ensures n == n'
  {
    EphemeralAt(pid, t, n);
    EphemeralAt(pid, t, n');
    SameOffset(pid, t * 16 + n, t * 16 + n');
  }

  lemma IcmpTagsUnique(t: int, n: int, t': int, n': int)
    requires 1 <= t <= 255 && 1 <= t' <= 255 && 0 <= n < 256 && 0 <= n' < 256
    requires t % 0x1_0000 * 256 % 0x1_0000 + n % 256 == t' % 0x1_0000 * 256 % 0x1_0000 + n' % 256
    ensures t == t' && n == n'
  {
  }

  lemma DstPortsUnique(port: u16, t: int, t': int)
    requires 1 <= t <= 255 && 1 <= t' <= 255
    requires (port + t % 0x1_0000) % 0x1_0000 == (port + t' % 0x1_0000) % 0x1_0000
    ensures t == t'
  {
  }

  lemma PortTagsUnique(c: Conf, t: int, n: int, t': int, n': int)
    requires c.maxHops <= 255 && c.queries <= Distinguishable(c) && !c.proto.ICMP?
    requires 1 <= t <= c.maxHops && 0 <= n < c.queries && 1 <= t' <= c.maxHops && 0 <= n' < c.queries
    requires SrcPort(c, t, n) == SrcPort(c, t', n') && DstPort(c, t) == DstPort(c, t')
    ensures t == t' && n == n'
  {
    if c.proto.UDP? && !c.fixedDstPort { DstPortsUnique(c.port, t, t'); }
    if c.srcPort == 0 && Distinguishable(c) == 16 {
      EphemeralInjective(c.pid, t, n, t', n');
    } else if c.srcPort == 0 {
      assert t == t';
      EphemeralInjectiveInHop(c.pid, t, n, n');
    }
  }

  lemma TagsUniqueUpTo(c: Conf, t: int, n: int, t': int, n': int)
    requires c.maxHops <= 255 && c.queries <= Distinguishable(c)
    requires 1 <= t <= c.maxHops && 0 <= n < c.queries && 1 <= t' <= c.maxHops && 0 <= n' < c.queries
    requires TagOf(c, t, n) == TagOf(c, t', n')
    ensures t == t' && n == n'
  {
    if c.proto.ICMP? { IcmpTagsUnique(t, n, t', n'); } else { PortTagsUnique(c, t, n, t', n'); }
  }

  /** Two probes that collide for some process id, once there are more queries than that. */
  function Collision(c: Conf): (r: (u16, int, int, int, int)) {
    if c.proto.ICMP? then (c.pid, 1, 0, 1, 256)
    else if Distinguishable(c) == 16 then (c.pid, 1, 16, 2, 0)
    else if Distinguishable(c) == 5536 then (59984, 1, 0, 1, 5536)
    else if Distinguishable(c) == 1 then (c.pid, 1, 0, 1, 1)
    else (c.pid, 1, 0, 2, 0)
  }

  lemma EphemeralCollisions(pid: u16)
    ensures EphemeralSrcPort(pid, 1, 16) == EphemeralSrcPort(pid, 2, 0)
    ensures EphemeralSrcPort(59984, 1, 0) == EphemeralSrcPort(59984, 1, 5536) == 33000
  {
  }

  lemma CollisionCollides(c: Conf)
    requires 1 <= c.maxHops && Distinguishable(c) < c.queries && 1 <= c.queries
    ensures var (pid, t, n, t', n') := Collision(c); var c' := c.(pid := pid);
      && 1 <= t <= c.maxHops && 1 <= t' <= c.maxHops && 0 <= n < c.queries && 0 <= n' < c.queries
      && TagOf(c', t, n) == TagOf(c', t', n') && (t, n) != (t', n')
  {
    EphemeralCollisions(c.pid);
    var d := Distinguishable(c);
    assert d == 256 || d == 16 || d == 5536 || d == 1 || d == 0;
  }

  /** Tags are unique for every process id exactly up to that number of queries. */
  lemma TagsUniqueIff(c: Conf)
    requires 1 <= c.maxHops <= 255 && 1 <= c.queries
    ensures (forall pid: u16 :: TagsUnique(c.(pid := pid))) <==> c.queries <= Distinguishable(c)
  {
    if c.queries <= Distinguishable(c) {
      forall pid: u16 ensures TagsUnique(c.(pid := pid)) {
        var c' := c.(pid := pid);
        assert Distinguishable(c') == Distinguishable(c);
        forall t, n, t', n' | 1 <= t <= c.maxHops && 0 <= n < c.queries && 1 <= t' <= c.maxHops && 0 <= n' < c.queries
          && TagOf(c', t, n) == TagOf(c', t', n')
          ensures t == t' && n == n'
        {
          TagsUniqueUpTo(c', t, n, t', n');
        }
      }
    } else {
      CollisionCollides(c);
      var (pid, t, n, t', n') := Collision(c);
      assert !TagsUnique(c.(pid := pid));
    }
  }

  // ----- matching replies -----

  datatype Family = V4 | V6

  /** A received packet: an Echo Reply, an ICMP error with what it quotes, a TCP segment, or anything else. */
  datatype Reply =
    | EchoReply(src: seq<u8>, tag: Tag)
    | IcmpError(src: seq<u8>, load: seq<u8>)
    | TcpReply(src: seq<u8>)
    | Other

  /** Where the quoted packet starts, the address in it, and its least length. */
  function QuoteAt(f: Family): nat { if f.V4? then 0 else 4 }

  function DstAt(f: Family): nat { if f.V4? then 16 else 28 }

  function AddrLen(f: Family): nat { if f.V4? then 4 else 16 }

  function HeaderLen(f: Family): nat { if f.V4? then 20 else 40 }

  /** Where the quoted transport header is taken to start. */
  function InnerAt(f: Family, load: seq<u8>): (off: nat)
    requires |load| >= QuoteAt(f) + HeaderLen(f)
    ensures off <= |load|
  {
    match f
    case V6 => 44
    case V4 =>
      var ihl: nat := load[0] % 16 * 4;
      if ihl < 20 || |load| < ihl then 20 else ihl
  }

  function TagAt(proto: Proto): nat { if proto.ICMP? then 4 else 0 }

  predicate MatchEmbedded(f: Family, c: Conf, sent: Probe, load: seq<u8>) {
    && |load| >= QuoteAt(f) + HeaderLen(f)
    && load[DstAt(f)..DstAt(f) + AddrLen(f)] == sent.dst
    && var off := InnerAt(f, load) + TagAt(c.proto);
       |load| < off + 4 || Tag(Be16(load, off), Be16(load, off + 2)) == TagOf(c, sent.ttl, sent.number)
  }

  predicate Matches(f: Family, c: Conf, sent: Probe, reply: Reply) {
    match reply
    case TcpReply(src) => c.proto.TCP? && src == sent.dst
    case EchoReply(src, tag) => c.proto.ICMP? && src == sent.dst && tag == TagOf(c, sent.ttl, sent.number)
    case IcmpError(_, load) => MatchEmbedded(f, c, sent, load)
    case Other => false
  }

  /** A reply of any other kind, an Echo Reply to a UDP or TCP probe, a segment to an ICMP or UDP probe,
      and a direct reply from elsewhere match no probe. */
  lemma OthersMatchNothing(f: Family, c: Conf, p: Probe, reply: Reply)
    requires reply.Other? || (reply.EchoReply? && (c.proto == UDP || c.proto == TCP)) || (reply.TcpReply? && (c.proto == ICMP || c.proto == UDP))
      || ((reply.EchoReply? || reply.TcpReply?) && reply.src != p.dst)
    ensures !Matches(f, c, p, reply)
  {
  }

  /** What an IPv4 error is compared with: the quoted destination at bytes 16 to 19, and behind the quoted
      header its bytes 4 to 7 for ICMP, or its two ports. */
  lemma QuotedV4(c: Conf, p: Probe, src: seq<u8>, load: seq<u8>)
    requires |load| >= 28 && |load| >= load[0] % 16 * 4 + 8
    ensures var ihl := if load[0] % 16 < 5 then 20 else load[0] % 16 * 4;
      Matches(V4, c, p, IcmpError(src, load)) <==>
        && load[16..20] == p.dst
        && (c.proto == ICMP ==> Tag(Be16(load, ihl + 4), Be16(load, ihl + 6)) == TagOf(c, p.ttl, p.number))
        && (c.proto != ICMP ==> Tag(Be16(load, ihl), Be16(load, ihl + 2)) == TagOf(c, p.ttl, p.number))
  {
  }

  /** For IPv6, behind four unused bytes: the destination at bytes 28 to 43, and the rest from byte 44. */
  lemma QuotedV6(c: Conf, p: Probe, src: seq<u8>, load: seq<u8>)
    requires |load| >= 52
    ensures Matches(V6, c, p, IcmpError(src, load)) <==>
      && load[28..44] == p.dst
      && (c.proto == ICMP ==> Tag(Be16(load, 48), Be16(load, 50)) == TagOf(c, p.ttl, p.number))
      && (c.proto != ICMP ==> Tag(Be16(load, 44), Be16(load, 46)) == TagOf(c, p.ttl, p.number))
  {
  }

  /** The reply the destination of an ICMP probe sends. */
  function EchoOf(c: Conf, p: Probe): Reply { EchoReply(p.dst, TagOf(c, p.ttl, p.number)) }

  /** An ICMP error quotes the probe: its whole IP header and at least eight bytes behind it. */
  predicate Quotes(f: Family, c: Conf, p: Probe, load: seq<u8>) {
    && |load| >= QuoteAt(f) + HeaderLen(f)
    && var inner := if f.V4? then load[0] % 16 * 4 else 44;
    && (f.V4? ==> inner >= 20)
    && |load| >= inner + 8
    && load[DstAt(f)..DstAt(f) + AddrLen(f)] == p.dst
    && Tag(Be16(load, inner + TagAt(c.proto)), Be16(load, inner + TagAt(c.proto) + 2)) == TagOf(c, p.ttl, p.number)
  }

  ghost predicate CausedBy(f: Family, c: Conf, p: Probe, reply: Reply) {
    || (c.proto.ICMP? && reply == EchoOf(c, p))
    || (reply.IcmpError? && Quotes(f, c, p, reply.load))
  }

  /** A reply matches the probe that caused it and no other probe of the run. */
  lemma MatchesOnlyItsProbe(f: Family, c: Conf, p: Probe, q: Probe, reply: Reply)
    requires 1 <= c.maxHops <= 255 && c.queries <= Distinguishable(c)
    requires InRun(p, c) && InRun(q, c) && CausedBy(f, c, p, reply)
    ensures Matches(f, c, q, reply) <==> q == p
  {
    if q.dst == p.dst && TagOf(c, p.ttl, p.number) == TagOf(c, q.ttl, q.number) {
      TagsUniqueUpTo(c, p.ttl, p.number, q.ttl, q.number);
    }
  }

  /** A shorter quote with the header intact matches every probe to that destination. */
  lemma ShortQuoteMatchesAll(f: Family, c: Conf, p: Probe, load: seq<u8>)
    requires |load| >= QuoteAt(f) + HeaderLen(f) && |load| < InnerAt(f, load) + TagAt(c.proto) + 4
    ensures MatchEmbedded(f, c, p, load) <==> load[DstAt(f)..DstAt(f) + AddrLen(f)] == p.dst
  {
  }

  /** So does a direct TCP reply: the destination answers for all of them. */
  lemma TcpReplyMatchesAll(f: Family, c: Conf, p: Probe, q: Probe)
    requires c.proto.TCP? && p.dst == q.dst
    ensures Matches(f, c, p, TcpReply(p.dst)) && Matches(f, c, q, TcpReply(p.dst))
  {
  }
}
