/** The filters of the reading sockets, and the split of a port range among readers. */
module PortFilters {
  import opened Machine
  import opened Bpf
  import opened Odometer

  const UDP := 17
  const ACCEPT := 0xffff

  /** sonar: over an IPv4 packet. */
  function PortRangeFilter(minPort: u32, maxPort: u32, tos: u32): (prog: seq<Instr>) {
    [ LoadIndirect(9, 1),
      JumpIf(Equal, UDP, 0, 4),
      LoadIndirect(1, 1),
      JumpIf(Equal, tos, 0, 4),
      LoadAbsolute(22, 2),
      JumpIf(GreaterOrEqual, minPort, 0, 2),
      JumpIf(LessOrEqual, maxPort, 0, 1),
      Ret(ACCEPT),
      Ret(0) ]
  }

  /** evr: one destination port over an IPv4 packet. */
  function InnerPortFilter(innerPort: u32, tos: u32): (prog: seq<Instr>) {
    [ LoadIndirect(9, 1),
      JumpIf(Equal, UDP, 0, 5),
      LoadIndirect(1, 1),
      JumpIf(Equal, tos, 0, 3),
      LoadAbsolute(22, 2),
      JumpIf(Equal, innerPort, 0, 1),
      Ret(ACCEPT),
      Ret(0) ]
  }

  /** sonar6: over a UDP header, the IPv6 header being stripped. */
  function PortRangeFilter6(minPort: u32, maxPort: u32): (prog: seq<Instr>) {
    [ LoadAbsolute(2, 2),
      JumpIf(GreaterOrEqual, minPort, 0, 2),
      JumpIf(LessOrEqual, maxPort, 0, 1),
      Ret(ACCEPT),
      Ret(0) ]
  }

  /** What both IPv4 filters are for: UDP with the given TOS. */
  predicate UdpWithTos(p: Packet, tos: u32) {
    |p| > 9 && p[9] == 17 && p[1] == tos
  }

  /** The 16 bits at offset 22, the destination port when the IPv4 header has 20 bytes. */
  predicate PortIn(p: Packet, off: nat, minPort: u32, maxPort: u32) {
    off + 2 <= |p| && minPort <= Be16(p, off) <= maxPort
  }

  /** The last four instructions: both bounds, accept, reject. */
  lemma BoundsTail(prog: seq<Instr>, pc: nat, regs: Registers, p: Packet, minPort: u32, maxPort: u32)
    requires pc + 4 == |prog|
    requires prog[pc] == JumpIf(GreaterOrEqual, minPort, 0, 2) && prog[pc + 1] == JumpIf(LessOrEqual, maxPort, 0, 1)
    requires prog[pc + 2] == Ret(ACCEPT) && prog[pc + 3] == Ret(0)
    ensures Exec(prog, pc, regs, p) != 0 <==> minPort <= regs.a <= maxPort
    ensures Exec(prog, pc + 1, regs, p) != 0 <==> regs.a <= maxPort
  {
    Returns(prog, pc + 2, regs, p, ACCEPT);
    Returns(prog, pc + 3, regs, p, 0);
    Goes(prog, pc + 1, regs, p, regs, if regs.a <= maxPort then 0 else 1);
    Goes(prog, pc, regs, p, regs, if regs.a >= minPort then 0 else 2);
  }

  /** The exact meaning of sonar's program: a packet that is not UDP is compared by protocol number
      with the upper port bound, since that jump lands one test early. */
  lemma PortRangeFilterIsPredicate(p: Packet, minPort: u32, maxPort: u32, tos: u32)
    ensures Accepts(PortRangeFilter(minPort, maxPort, tos), p)
       <==> |p| > 9 && if p[9] == UDP then UdpWithTos(p, tos) && PortIn(p, 22, minPort, maxPort) else p[9] <= maxPort
  {
    var prog := PortRangeFilter(minPort, maxPort, tos);
    LoadsByteAtIndex(prog, 0, START, p, 9);
    if |p| > 9 {
      var r1 := START.(a := p[9]);
      BoundsTail(prog, 5, r1, p, minPort, maxPort);
      Goes(prog, 1, r1, p, r1, if p[9] == UDP then 0 else 4);
      if p[9] == UDP {
        LoadsByteAtIndex(prog, 2, r1, p, 1);
        PortRangeFilterTos(prog, p, minPort, maxPort, tos);
      }
    }
  }

  lemma PortRangeFilterTos(prog: seq<Instr>, p: Packet, minPort: u32, maxPort: u32, tos: u32)
    requires prog == PortRangeFilter(minPort, maxPort, tos) && |p| > 9
    ensures Exec(prog, 3, START.(a := p[1]), p) != 0 <==> p[1] == tos && PortIn(p, 22, minPort, maxPort)
  {
    var r3 := START.(a := p[1]);
    Goes(prog, 3, r3, p, r3, if p[1] == tos then 0 else 4);
    if p[1] == tos {
      LoadsHalf(prog, 4, r3, p, 22, 22);
      if |p| >= 24 {
        BoundsTail(prog, 5, r3.(a := Be16(p, 22)), p, minPort, maxPort);
      }
    } else {
      Returns(prog, 8, r3, p, 0);
    }
  }

  /** sonar's program does what it is for on a packet exactly when the packet is not a stray one of a
      protocol numbered at most maxPort; the socket only delivers UDP. */
  lemma PortRangeFilterRightIff(p: Packet, minPort: u32, maxPort: u32, tos: u32)
    ensures (Accepts(PortRangeFilter(minPort, maxPort, tos), p) <==> UdpWithTos(p, tos) && PortIn(p, 22, minPort, maxPort))
       <==> |p| <= 9 || p[9] == UDP || p[9] > maxPort
  {
    PortRangeFilterIsPredicate(p, minPort, maxPort, tos);
  }

  lemma InnerPortFilterIsPredicate(p: Packet, innerPort: u32, tos: u32)
    ensures Accepts(InnerPortFilter(innerPort, tos), p) <==> UdpWithTos(p, tos) && PortIn(p, 22, innerPort, innerPort)
  {
    var prog := InnerPortFilter(innerPort, tos);
    LoadsByteAtIndex(prog, 0, START, p, 9);
    if |p| > 9 {
      var r1 := START.(a := p[9]);
      Returns(prog, 7, r1, p, 0);
      Goes(prog, 1, r1, p, r1, if p[9] == UDP then 0 else 5);
      if p[9] == UDP {
        LoadsByteAtIndex(prog, 2, r1, p, 1);
        InnerPortFilterTos(prog, p, innerPort, tos);
      }
    }
  }

  lemma InnerPortFilterTos(prog: seq<Instr>, p: Packet, innerPort: u32, tos: u32)
    requires prog == InnerPortFilter(innerPort, tos) && |p| > 9
    ensures Exec(prog, 3, START.(a := p[1]), p) != 0 <==> p[1] == tos && PortIn(p, 22, innerPort, innerPort)
  {
    var r3 := START.(a := p[1]);
    Returns(prog, 7, r3, p, 0);
    Goes(prog, 3, r3, p, r3, if p[1] == tos then 0 else 3);
    if p[1] == tos {
      LoadsHalf(prog, 4, r3, p, 22, 22);
      if |p| >= 24 {
        var r5 := r3.(a := Be16(p, 22));
        Returns(prog, 6, r5, p, ACCEPT);
        Returns(prog, 7, r5, p, 0);
        Goes(prog, 5, r5, p, r5, if r5.a == innerPort then 0 else 1);
      }
    }
  }

  lemma PortRangeFilter6IsPredicate(p: Packet, minPort: u32, maxPort: u32)
    ensures Accepts(PortRangeFilter6(minPort, maxPort), p) <==> PortIn(p, 2, minPort, maxPort)
  {
    var prog := PortRangeFilter6(minPort, maxPort);
    LoadsHalf(prog, 0, START, p, 2, 2);
    if |p| >= 4 {
      BoundsTail(prog, 1, START.(a := Be16(p, 2)), p, minPort, maxPort);
    }
  }

  // ----- the split among readers -----

  /** Consecutive ranges, none empty, from the first port to the last. */
  predicate Consecutive(readers: seq<PortRange>, first: int, last: int) {
    && readers != []
    && readers[0].min == first && readers[|readers| - 1].max == last
    && (forall i :: 0 <= i < |readers| ==> readers[i].min <= readers[i].max)
    && (forall i :: 0 <= i < |readers| - 1 ==> readers[i].max + 1 == readers[i + 1].min)
  }

  const READERS := 8

  /** All readers but the last have `share` ports, the last at most as many. */
  predicate EqualShares(readers: seq<PortRange>, share: int) {
    forall i :: 0 <= i < |readers| ==>
      var size := readers[i].max - readers[i].min + 1; size <= share && (i < |readers| - 1 ==> size == share)
  }

  predicate Full(r: PortRange, share: int) { r.max - r.min + 1 == share }

  lemma AppendShare(readers: seq<PortRange>, r: PortRange, share: int)
    requires EqualShares(readers, share) && (readers != [] ==> Full(readers[|readers| - 1], share)) && r.max - r.min + 1 <= share
    ensures EqualShares(readers + [r], share)
  {
  }

  lemma ShareOf(n: int)
    requires n >= 1
    ensures var g := if n < 8 then n else 8; (n + g - 1) / g == if n <= 8 then 1 else (n + 7) / 8
  {
    if n <= 8 { DivModUnique(n + n - 1, n, 1, n - 1); }
  }

  lemma ShareIsCeiling(n: int, g: int)
    requires n >= 1 && g >= 1
    ensures var share := (n + g - 1) / g; share >= 1 && share * g >= n
  {
    var share := (n + g - 1) / g;
    assert n + g - 1 == share * g + (n + g - 1) % g;
    if share <= 0 { MulAtMost(share, g); assert false; }
  }

  lemma MulAtMost(share: int, g: int)
    requires share <= 0 && g >= 1
    ensures share * g <= 0
  {
  }

  lemma FewerReaders(k: int, share: int, g: int, n: int)
    requires share >= 1 && k * share < n <= share * g
    ensures k < g
  {
    MulGap(k + 1, g, share);
    assert (k + 1) * share == k * share + share;
  }

  lemma NextShare(k: int, share: int)
    ensures (k + 1) * share == k * share + share
  {
  }

  lemma AppendReader(readers: seq<PortRange>, first: int, r: PortRange)
    requires r.min <= r.max && if readers == [] then r.min == first else Consecutive(readers, first, r.min - 1)
    ensures Consecutive(readers + [r], first, r.max)
  {
  }

  /** One reader per share of the client ports. */
  method ServeRead(pr: PortRange) returns (readers: seq<PortRange>)
    requires pr.min <= pr.max
    ensures 1 <= |readers| <= READERS && Consecutive(readers, pr.min, pr.max)
    ensures var n := pr.max - pr.min + 1; EqualShares(readers, if n <= 8 then 1 else (n + 7) / 8)
  {
    var portCount := pr.max - pr.min + 1;
    var gcount := if portCount < READERS then portCount else READERS;
    var share := (portCount + gcount - 1) / gcount;
    ShareIsCeiling(portCount, gcount);
    ShareOf(portCount);
    readers := [];
    var i := pr.min;
    ghost var done := 0;
    while i <= pr.max
      invariant i == pr.min + done && done == |readers| * share
      invariant |readers| <= gcount
      invariant readers == [] || Consecutive(readers, pr.min, if i <= pr.max then i - 1 else pr.max)
      invariant EqualShares(readers, share)
      invariant readers != [] && i <= pr.max ==> Full(readers[|readers| - 1], share)
      decreases pr.max + 1 - i
    {
      FewerReaders(|readers|, share, gcount, portCount);
      var upper := i + share - 1;
      if upper > pr.max {
        upper := pr.max;
      }
      AppendReader(readers, pr.min, PortRange(i, upper));
      AppendShare(readers, PortRange(i, upper), share);
      readers := readers + [PortRange(i, upper)];
      NextShare(|readers| - 1, share);
      i, done := i + share, done + share;
    }
  }

  predicate InReader(r: PortRange, port: int) { r.min <= port <= r.max }

  lemma {:induction false} ReadersAscend(readers: seq<PortRange>, first: int, last: int, i: nat, j: nat)
    requires Consecutive(readers, first, last) && i < j < |readers|
    ensures readers[i].max < readers[j].min
  {
    if i + 1 < j { ReadersAscend(readers, first, last, i, j - 1); }
  }

  lemma {:induction false} SomeReader(readers: seq<PortRange>, first: int, last: int, port: int, n: nat) returns (i: nat)
    requires Consecutive(readers, first, last) && n < |readers| && first <= port <= readers[n].max
    ensures i <= n && InReader(readers[i], port)
  {
    if readers[n].min <= port { i := n; } else { i := SomeReader(readers, first, last, port, n - 1); }
  }

  /** What a reading socket sees: IPv4 packets of one TOS, or IPv6 payloads. */
  datatype Family = V4(tos: u32) | V6

  /** The program of one reader. */
  function ReaderFilter(r: PortRange, family: Family): (prog: seq<Instr>) {
    match family
    case V4(tos) => PortRangeFilter(r.min % WORD, r.max % WORD, tos)
    case V6 => PortRangeFilter6(r.min % WORD, r.max % WORD)
  }

  predicate ReaderAccepts(r: PortRange, family: Family, p: Packet) {
    Accepts(ReaderFilter(r, family), p)
  }

  /** A UDP packet as the socket delivers it: with a 20-byte IPv4 header, or without the IPv6 header. */
  predicate PlainUdp(p: Packet, family: Family) {
    match family
    case V4(_) => |p| >= 28 && p[0] == 0x45 && p[9] == UDP
    case V6 => |p| >= 8
  }

  /** Its destination port. */
  function Destination(p: Packet, family: Family): (port: u16)
    requires PlainUdp(p, family)
  {
    Be16(p, if family.V4? then 22 else 2)
  }

  /** The packet is one the client asked for. */
  predicate Wanted(pr: PortRange, family: Family, p: Packet)
    requires PlainUdp(p, family)
  {
    (family.V4? ==> p[1] == family.tos) && InReader(pr, Destination(p, family))
  }

  /** The number of readers that get a packet. */
  function Takers(readers: seq<PortRange>, family: Family, p: Packet): (n: nat) {
    if readers == [] then 0 else
      var m := Takers(readers[..|readers| - 1], family, p);
      if ReaderAccepts(readers[|readers| - 1], family, p) then m + 1 else m
  }

  lemma {:induction false} TakersIsOne(readers: seq<PortRange>, family: Family, p: Packet, n: nat)
    requires n < |readers| && forall i :: 0 <= i < |readers| ==> (ReaderAccepts(readers[i], family, p) <==> i == n)
    ensures Takers(readers, family, p) == 1
  {
    var init := readers[..|readers| - 1];
    if n == |readers| - 1 { TakersIsNone(init, family, p); } else { TakersIsOne(init, family, p, n); }
  }

  lemma {:induction false} TakersIsNone(readers: seq<PortRange>, family: Family, p: Packet)
    requires forall i :: 0 <= i < |readers| ==> !ReaderAccepts(readers[i], family, p)
    ensures Takers(readers, family, p) == 0
  {
    if readers != [] { TakersIsNone(readers[..|readers| - 1], family, p); }
  }

  lemma ReaderIsPredicate(r: PortRange, family: Family, p: Packet)
    requires PlainUdp(p, family) && 0 <= r.min <= r.max <= 0xffff
    ensures ReaderAccepts(r, family, p) <==> Wanted(r, family, p)
  {
    match family
    case V4(tos) => PortRangeFilterIsPredicate(p, r.min, r.max, tos);
    case V6 => PortRangeFilter6IsPredicate(p, r.min, r.max);
  }

  lemma ReadersWithin(readers: seq<PortRange>, first: int, last: int, i: nat)
    requires Consecutive(readers, first, last) && i < |readers|
    ensures first <= readers[i].min <= readers[i].max <= last
  {
    if i > 0 { ReadersAscend(readers, first, last, 0, i); }
    if i < |readers| - 1 { ReadersAscend(readers, first, last, i, |readers| - 1); }
  }

  /** Every UDP packet goes to exactly one reader if it is wanted, and to none otherwise. */
  lemma ExactlyOneReader(readers: seq<PortRange>, pr: PortRange, family: Family, p: Packet)
    requires Consecutive(readers, pr.min, pr.max) && 0 <= pr.min && pr.max <= 0xffff && PlainUdp(p, family)
    ensures Takers(readers, family, p) == if Wanted(pr, family, p) then 1 else 0
  {
    var port := Destination(p, family);
    forall i | 0 <= i < |readers|
      ensures pr.min <= readers[i].min <= readers[i].max <= pr.max
      ensures ReaderAccepts(readers[i], family, p) <==> Wanted(readers[i], family, p)
    {
      ReadersWithin(readers, pr.min, pr.max, i);
      ReaderIsPredicate(readers[i], family, p);
    }
    if Wanted(pr, family, p) {
      var n := SomeReader(readers, pr.min, pr.max, port, |readers| - 1);
      forall i | 0 <= i < |readers| && i != n ensures !InReader(readers[i], port) {
        if i < n { ReadersAscend(readers, pr.min, pr.max, i, n); } else { ReadersAscend(readers, pr.min, pr.max, n, i); }
      }
      TakersIsOne(readers, family, p, n);
    } else {
      TakersIsNone(readers, family, p);
    }
  }
}
