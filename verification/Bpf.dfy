/** Classic BPF: the raw encoding, an interpreter for decoded programs, and what loads see of a packet. */
module Bpf {
  import opened Machine
  import opened ByteOrder

  type Packet = seq<u8>

  /** The register a jump compares, and the comparison. */
  datatype Cond = Equal | GreaterOrEqual | LessOrEqual

  datatype Instr =
    | LoadAbsolute(off: u32, size: nat)
    | LoadIndirect(off: u32, size: nat)
    | LoadScratch(n: u32)
    | StoreScratch(n: u32)
    | AddConst(k: u32)
    | MulConst(k: u32)
    | AndConst(k: u32)
    | Tax
    | JumpIf(cond: Cond, val: u32, skipTrue: u8, skipFalse: u8)
    | Ret(val: u32)
    | Illegal

  /** Accumulator, index register and the scratch slots written so far. */
  datatype Registers = Registers(a: u32, x: u32, scratch: map<u32, u32>)

  datatype Outcome = Next(regs: Registers, skip: u8) | Done(val: u32)

  const START := Registers(0, 0, map[])

  const WORD := 0x1_0000_0000

  /** The two bytes at `off`, big-endian. */
  function Be16(p: Packet, off: nat): (v: u16)
    requires off + 2 <= |p|
  {
    var high: nat, low: nat := p[off], p[off + 1];
    256 * high + low
  }

  /** Bitwise and. */
  function BitAnd(a: nat, b: nat): (r: nat)
    ensures r <= a
  {
    if a == 0 || b == 0 then 0 else 2 * BitAnd(a / 2, b / 2) + if a % 2 == 1 && b % 2 == 1 then 1 else 0
  }

  /** A load outside the packet ends the program with a reject. */
  function Load(regs: Registers, p: Packet, off: u32, size: nat): (o: Outcome) {
    if off + size > |p| then Done(0) else Next(regs.(a := BigEndian(p[off..off + size]) % WORD), 0)
  }

  predicate Compare(cond: Cond, a: u32, val: u32) {
    match cond
    case Equal => a == val
    case GreaterOrEqual => a >= val
    case LessOrEqual => a <= val
  }

  function Step(instr: Instr, regs: Registers, p: Packet): (o: Outcome) {
    match instr
    case LoadAbsolute(off, size) => Load(regs, p, off, size)
    case LoadIndirect(off, size) => Load(regs, p, (regs.x + off) % WORD, size)
    case LoadScratch(n) => Next(regs.(a := if n in regs.scratch then regs.scratch[n] else 0), 0)
    case StoreScratch(n) => Next(regs.(scratch := regs.scratch[n := regs.a]), 0)
    case AddConst(k) => Next(regs.(a := (regs.a + k) % WORD), 0)
    case MulConst(k) => Next(regs.(a := (regs.a * k) % WORD), 0)
    case AndConst(k) => Next(regs.(a := BitAnd(regs.a, k)), 0)
    case Tax => Next(regs.(x := regs.a), 0)
    case JumpIf(cond, val, jt, jf) => Next(regs, if Compare(cond, regs.a, val) then jt else jf)
    case Ret(val) => Done(val)
    case Illegal => Done(0)
  }

  /** The value returned by a program started at `pc`; jumps only go forward. */
  function Exec(prog: seq<Instr>, pc: nat, regs: Registers, p: Packet): (val: u32)
    decreases |prog| - pc
  {
    if pc >= |prog| then 0 else
      match Step(prog[pc], regs, p)
      case Done(val) => val
      case Next(regs', skip) => Exec(prog, pc + 1 + skip, regs', p)
  }

  predicate Accepts(prog: seq<Instr>, p: Packet) { Exec(prog, 0, START, p) != 0 }

  // ----- the raw encoding -----

  datatype Raw = Raw(code: u16, jt: u8, jf: u8, k: u32)

  /** Decodes the opcodes a program here uses; the fields of a code are class, size or operation, and mode. */
  function Decode(r: Raw): (i: Instr) {
    match r.code
    case 0x30 => LoadAbsolute(r.k, 1)
    case 0x28 => LoadAbsolute(r.k, 2)
    case 0x50 => LoadIndirect(r.k, 1)
    case 0x48 => LoadIndirect(r.k, 2)
    case 0x60 => LoadScratch(r.k)
    case 0x02 => StoreScratch(r.k)
    case 0x04 => AddConst(r.k)
    case 0x24 => MulConst(r.k)
    case 0x54 => AndConst(r.k)
    case 0x07 => Tax
    case 0x15 => JumpIf(Equal, r.k, r.jt, r.jf)
    case 0x35 => JumpIf(GreaterOrEqual, r.k, r.jt, r.jf)
    case 0x06 => Ret(r.k)
    case _ => Illegal
  }

  function DecodeAll(raw: seq<Raw>): (prog: seq<Instr>)
    ensures |prog| == |raw| && forall i :: 0 <= i < |raw| ==> prog[i] == Decode(raw[i])
  {
    seq(|raw|, i requires 0 <= i < |raw| => Decode(raw[i]))
  }

  // ----- what loads and masks yield -----

  lemma BigEndianByte(p: Packet, off: nat)
    requires off < |p|
    ensures BigEndian(p[off..off + 1]) == p[off]
  {
    assert BigEndian(p[off..off + 1][..0]) == 0;
  }

  lemma BigEndianHalf(p: Packet, off: nat)
    requires off + 2 <= |p|
    ensures BigEndian(p[off..off + 2]) == Be16(p, off)
  {
    assert p[off..off + 2][..1] == p[off..off + 1];
    BigEndianByte(p, off);
  }

  lemma BitAndOdd(a: nat, k: nat)
    ensures BitAnd(a, 2 * k + 1) == 2 * BitAnd(a / 2, k) + a % 2
  {
    assert (2 * k + 1) / 2 == k && (2 * k + 1) % 2 == 1;
  }

  lemma NibbleBits(a: nat)
    ensures a % 16 == 2 * (2 * (2 * (a / 2 / 2 / 2 % 2) + a / 2 / 2 % 2) + a / 2 % 2) + a % 2
  {
  }

  /** Masking with 15 keeps the low four bits. */
  lemma LowNibble(a: nat)
    ensures BitAnd(a, 15) == a % 16
  {
    var b, c, d := a / 2, a / 2 / 2, a / 2 / 2 / 2;
    BitAndOdd(a, 7);
    BitAndOdd(b, 3);
    BitAndOdd(c, 1);
    BitAndOdd(d, 0);
    NibbleBits(a);
  }

  /** One step of a program that goes on. */
  lemma Goes(prog: seq<Instr>, pc: nat, regs: Registers, p: Packet, regs': Registers, skip: u8)
    requires pc < |prog| && Step(prog[pc], regs, p) == Next(regs', skip)
    ensures Exec(prog, pc, regs, p) == Exec(prog, pc + 1 + skip, regs', p)
  {
  }

  /** One step of a program that returns. */
  lemma Returns(prog: seq<Instr>, pc: nat, regs: Registers, p: Packet, val: u32)
    requires pc < |prog| && Step(prog[pc], regs, p) == Done(val)
    ensures Exec(prog, pc, regs, p) == val
  {
  }

  /** An absolute one-byte load within the packet. */
  lemma LoadsByte(prog: seq<Instr>, pc: nat, regs: Registers, p: Packet, off: u32)
    requires pc < |prog| && prog[pc] == LoadAbsolute(off, 1) && off < |p|
    ensures Exec(prog, pc, regs, p) == Exec(prog, pc + 1, regs.(a := p[off]), p)
  {
    BigEndianByte(p, off);
    Goes(prog, pc, regs, p, regs.(a := p[off]), 0);
  }

  /** An indexed one-byte load. */
  lemma LoadsByteAtIndex(prog: seq<Instr>, pc: nat, regs: Registers, p: Packet, off: u32)
    requires pc < |prog| && prog[pc] == LoadIndirect(off, 1) && regs.x + off < WORD
    ensures regs.x + off >= |p| ==> Exec(prog, pc, regs, p) == 0
    ensures regs.x + off < |p| ==> Exec(prog, pc, regs, p) == Exec(prog, pc + 1, regs.(a := p[regs.x + off]), p)
  {
    if regs.x + off < |p| {
      BigEndianByte(p, regs.x + off);
      Goes(prog, pc, regs, p, regs.(a := p[regs.x + off]), 0);
    }
  }

  /** A two-byte load, absolute or indexed. */
  lemma LoadsHalf(prog: seq<Instr>, pc: nat, regs: Registers, p: Packet, k: u32, off: u32)
    requires pc < |prog|
    requires (prog[pc] == LoadAbsolute(k, 2) && off == k) || (prog[pc] == LoadIndirect(k, 2) && off == regs.x + k)
    ensures off + 2 > |p| ==> Exec(prog, pc, regs, p) == 0
    ensures off + 2 <= |p| ==> Exec(prog, pc, regs, p) == Exec(prog, pc + 1, regs.(a := Be16(p, off)), p)
  {
    if off + 2 <= |p| {
      BigEndianHalf(p, off);
      Goes(prog, pc, regs, p, regs.(a := Be16(p, off)), 0);
    }
  }
}
