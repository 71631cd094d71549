/** The packet filters of the probing clients, each equal to a predicate on the packet. */
module Filters {
  import opened Machine
  import opened Bpf

  // ----- lidar: raw instructions over an Ethernet frame -----

  const ETHERNET := 14

  function ProbeFilter(serverPort: u32, srcPort: u16, portCount: u16): (raw: seq<Raw>) {
    var last: u32 := (srcPort + portCount) % 0x1_0000;
    [ Raw(0x30, 0, 0, ETHERNET),
      Raw(0x54, 0, 0, 0x0f),
      Raw(0x24, 0, 0, 4),
      Raw(0x02, 0, 0, 0),
      Raw(0x04, 0, 0, ETHERNET),
      Raw(0x07, 0, 0, 0),
      Raw(0x48, 0, 0, 0),
      Raw(0x15, 0, 6, serverPort),
      Raw(0x60, 0, 0, 0),
      Raw(0x04, 0, 0, ETHERNET),
      Raw(0x07, 0, 0, 0),
      Raw(0x48, 0, 0, 2),
      Raw(0x35, 0, 1, srcPort),
      Raw(0x35, 0, 1, last),
      Raw(0x06, 0, 0, 0),
      Raw(0x06, 0, 0, 0xffff) ]
  }

  /** Where the transport header starts: after the Ethernet header and an IPv4 header of any length. */
  function TransportAt(frame: Packet): (off: nat)
    requires |frame| > 14
  {
    14 + frame[14] % 16 * 4
  }

  /** The frame reaches past both port fields. */
  predicate HasPorts(frame: Packet) {
    |frame| > 14 && |frame| >= TransportAt(frame) + 4
  }

  /** What the program computes, the 16-bit upper bound included. */
  predicate ProbeFilterAccepts(frame: Packet, serverPort: u32, srcPort: u16, portCount: u16) {
    && HasPorts(frame)
    && Be16(frame, TransportAt(frame)) == serverPort
    && srcPort <= Be16(frame, TransportAt(frame) + 2) < (srcPort + portCount) % 0x1_0000
  }

  /** The decoded program. */
  ghost predicate IsProbeFilter(prog: seq<Instr>, serverPort: u32, srcPort: u16, portCount: u16) {
    && |prog| == 16
    && prog[0] == LoadAbsolute(ETHERNET, 1) && prog[1] == AndConst(15) && prog[2] == MulConst(4)
    && prog[3] == StoreScratch(0) && prog[4] == AddConst(ETHERNET) && prog[5] == Tax
    && prog[6] == LoadIndirect(0, 2) && prog[7] == JumpIf(Equal, serverPort, 0, 6)
    && prog[8] == LoadScratch(0) && prog[9] == AddConst(ETHERNET) && prog[10] == Tax
    && prog[11] == LoadIndirect(2, 2) && prog[12] == JumpIf(GreaterOrEqual, srcPort, 0, 1)
    && prog[13] == JumpIf(GreaterOrEqual, (srcPort + portCount) % 0x1_0000, 0, 1)
    && prog[14] == Ret(0) && prog[15] == Ret(0xffff)
  }

  lemma ProbeFilterDecoded(serverPort: u32, srcPort: u16, portCount: u16)
    ensures IsProbeFilter(DecodeAll(ProbeFilter(serverPort, srcPort, portCount)), serverPort, srcPort, portCount)
  {
  }

  /** Up to the index register: it points at the transport header. */
  lemma ProbeFilterHeader(prog: seq<Instr>, f: Packet, serverPort: u32, srcPort: u16, portCount: u16)
    requires IsProbeFilter(prog, serverPort, srcPort, portCount) && |f| > ETHERNET
    ensures var len := f[ETHERNET] % 16 * 4;
      Exec(prog, 0, START, f) == Exec(prog, 6, Registers(ETHERNET + len, ETHERNET + len, map[0 := len]), f)
  {
    var b: nat := f[ETHERNET];
    var len := b % 16 * 4;
    var r3, r4 := Registers(len, 0, map[]), Registers(len, 0, map[0 := len]);
    var r5 := Registers(ETHERNET + len, 0, map[0 := len]);
    calc {
      Exec(prog, 0, START, f);
      { LoadsByte(prog, 0, START, f, ETHERNET); }
      Exec(prog, 1, Registers(b, 0, map[]), f);
      { LowNibble(b); Goes(prog, 1, Registers(b, 0, map[]), f, Registers(b % 16, 0, map[]), 0); }
      Exec(prog, 2, Registers(b % 16, 0, map[]), f);
      { Goes(prog, 2, Registers(b % 16, 0, map[]), f, r3, 0); }
      Exec(prog, 3, r3, f);
      { Goes(prog, 3, r3, f, r4, 0); }
      Exec(prog, 4, r4, f);
      { Goes(prog, 4, r4, f, r5, 0); }
      Exec(prog, 5, r5, f);
      { Goes(prog, 5, r5, f, r5.(x := ETHERNET + len), 0); }
      Exec(prog, 6, Registers(ETHERNET + len, ETHERNET + len, map[0 := len]), f);
    }
  }

  /** The two port tests. */
  lemma ProbeFilterPorts(prog: seq<Instr>, f: Packet, serverPort: u32, srcPort: u16, portCount: u16)
    requires IsProbeFilter(prog, serverPort, srcPort, portCount) && |f| > ETHERNET
    ensures var len := f[ETHERNET] % 16 * 4;
      Exec(prog, 6, Registers(ETHERNET + len, ETHERNET + len, map[0 := len]), f) != 0
      <==> ProbeFilterAccepts(f, serverPort, srcPort, portCount)
  {
    var len: nat := f[ETHERNET] % 16 * 4;
    var off := ETHERNET + len;
    var r6 := Registers(off, off, map[0 := len]);
    LoadsHalf(prog, 6, r6, f, 0, off);
    if off + 2 <= |f| {
      var sport: nat := Be16(f, off);
      var r7 := r6.(a := sport);
      if sport != serverPort {
        assert Exec(prog, 7, r7, f) == Exec(prog, 14, r7, f) by { Goes(prog, 7, r7, f, r7, 6); }
        Returns(prog, 14, r7, f, 0);
      } else {
        assert Exec(prog, 7, r7, f) == Exec(prog, 8, r7, f) by { Goes(prog, 7, r7, f, r7, 0); }
        ProbeFilterDestination(prog, f, serverPort, srcPort, portCount, r7);
      }
    }
  }

  /** The destination port test, once the source port has matched. */
  lemma ProbeFilterDestination(prog: seq<Instr>, f: Packet, serverPort: u32, srcPort: u16, portCount: u16, r8: Registers)
    requires IsProbeFilter(prog, serverPort, srcPort, portCount) && |f| > ETHERNET
    requires r8.scratch == map[0 := f[ETHERNET] % 16 * 4]
    ensures Exec(prog, 8, r8, f) != 0
       <==> HasPorts(f) && srcPort <= Be16(f, TransportAt(f) + 2) < (srcPort + portCount) % 0x1_0000
  {
    var off := TransportAt(f);
    var r11 := r8.(a := off, x := off);
    ProbeFilterReload(prog, f, serverPort, srcPort, portCount, r8);
    LoadsHalf(prog, 11, r11, f, 2, off + 2);
    if off + 4 <= |f| {
      ProbeFilterRange(prog, f, serverPort, srcPort, portCount, r11.(a := Be16(f, off + 2)));
    }
  }

  lemma ProbeFilterReload(prog: seq<Instr>, f: Packet, serverPort: u32, srcPort: u16, portCount: u16, r8: Registers)
    requires IsProbeFilter(prog, serverPort, srcPort, portCount) && |f| > ETHERNET
    requires r8.scratch == map[0 := f[ETHERNET] % 16 * 4]
    ensures Exec(prog, 8, r8, f) == Exec(prog, 11, r8.(a := TransportAt(f), x := TransportAt(f)), f)
  {
    var len: nat := f[ETHERNET] % 16 * 4;
    var off := ETHERNET + len;
    var r9, r10 := r8.(a := len), r8.(a := off);
    var r11 := r10.(x := off);
    calc {
      Exec(prog, 8, r8, f);
      { Goes(prog, 8, r8, f, r9, 0); }
      Exec(prog, 9, r9, f);
      { Goes(prog, 9, r9, f, r10, 0); }
      Exec(prog, 10, r10, f);
      { Goes(prog, 10, r10, f, r11, 0); }
      Exec(prog, 11, r11, f);
    }
  }

  lemma ProbeFilterRange(prog: seq<Instr>, f: Packet, serverPort: u32, srcPort: u16, portCount: u16, r: Registers)
    requires IsProbeFilter(prog, serverPort, srcPort, portCount)
    ensures Exec(prog, 12, r, f) != 0 <==> srcPort <= r.a < (srcPort + portCount) % 0x1_0000
  {
    var last := (srcPort + portCount) % 0x1_0000;
    Returns(prog, 14, r, f, 0);
    Returns(prog, 15, r, f, 0xffff);
    if r.a < srcPort {
      Goes(prog, 12, r, f, r, 1);
      assert Exec(prog, 12, r, f) == Exec(prog, 14, r, f);
    } else {
      Goes(prog, 12, r, f, r, 0);
      Goes(prog, 13, r, f, r, if r.a >= last then 0 else 1);
      assert Exec(prog, 12, r, f) == Exec(prog, 13, r, f);
    }
  }

  /** The program is its predicate, for every frame and any header length. */
  lemma ProbeFilterIsPredicate(f: Packet, serverPort: u32, srcPort: u16, portCount: u16)
    ensures Accepts(DecodeAll(ProbeFilter(serverPort, srcPort, portCount)), f) <==> ProbeFilterAccepts(f, serverPort, srcPort, portCount)
  {
    var prog := DecodeAll(ProbeFilter(serverPort, srcPort, portCount));
    ProbeFilterDecoded(serverPort, srcPort, portCount);
    if |f| > ETHERNET {
      ProbeFilterHeader(prog, f, serverPort, srcPort, portCount);
      ProbeFilterPorts(prog, f, serverPort, srcPort, portCount);
    } else {
      Returns(prog, 0, START, f, 0);
    }
  }

  /** The check made on a dissected reply, whose ports are those of the frame. */
  predicate ReplyWanted(sport: u16, dport: u16, serverPort: u32, srcPort: u16, portCount: u16) {
    sport == serverPort && srcPort <= dport < srcPort + portCount
  }

  /** Filter and check agree on every frame that carries both ports. */
  ghost predicate FilterAgreesWithCheck(serverPort: u32, srcPort: u16, portCount: u16) {
    forall f: Packet | HasPorts(f) ::
      Accepts(DecodeAll(ProbeFilter(serverPort, srcPort, portCount)), f)
      <==> ReplyWanted(Be16(f, TransportAt(f)), Be16(f, TransportAt(f) + 2), serverPort, srcPort, portCount)
  }

  /** A frame with a 20-byte IPv4 header, empty but for the ports. */
  function PortsFrame(sport: u16, dport: u16): (f: Packet)
    ensures HasPorts(f) && Be16(f, TransportAt(f)) == sport && Be16(f, TransportAt(f) + 2) == dport
  {
    seq(ETHERNET, _ => 0) + [0x45] + seq(19, _ => 0) + [sport / 256, sport % 256, dport / 256, dport % 256]
  }

  /** The filter agrees with the check exactly when the upper bound does not wrap around. */
  lemma FilterAgreesIff(serverPort: u16, srcPort: u16, portCount: u16)
    ensures FilterAgreesWithCheck(serverPort, srcPort, portCount) <==> srcPort + portCount <= 0xffff
  {
    if srcPort + portCount <= 0xffff {
      forall f: Packet | HasPorts(f)
        ensures Accepts(DecodeAll(ProbeFilter(serverPort, srcPort, portCount)), f)
           <==> ReplyWanted(Be16(f, TransportAt(f)), Be16(f, TransportAt(f) + 2), serverPort, srcPort, portCount)
      {
        ProbeFilterIsPredicate(f, serverPort, srcPort, portCount);
      }
    } else {
      var f := PortsFrame(serverPort, srcPort);
      ProbeFilterIsPredicate(f, serverPort, srcPort, portCount);
      assert ReplyWanted(Be16(f, TransportAt(f)), Be16(f, TransportAt(f) + 2), serverPort, srcPort, portCount);
    }
  }
}
