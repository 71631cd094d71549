/** Expansion of an IPv4 network into its host addresses. */
module Cidr {
  import opened Machine
  import opened ByteOrder
  import opened Bpf
  import E = Echo

  // ----- counting through addresses -----

  lemma ValueSnoc(bytes: seq<u8>, last: u8)
    ensures BigEndian(bytes + [last]) == 256 * BigEndian(bytes) + last
  {
    assert (bytes + [last])[..|bytes|] == bytes;
  }

  /** The next address: the carry runs over every 255 at the end. */
  function Successor(bytes: seq<u8>): (s: seq<u8>)
    ensures |s| == |bytes|
  {
    if bytes == [] then [] else
      var init, last := bytes[..|bytes| - 1], bytes[|bytes| - 1];
      if last == 255 then Successor(init) + [0] else init + [last + 1]
  }

  lemma CarryCase(init: seq<u8>, v: nat, p: nat)
    requires v < p && BigEndian(Successor(init)) == (v + 1) % p
    ensures BigEndian(Successor(init) + [0]) == (256 * v + 256) % (256 * p)
  {
    ValueSnoc(Successor(init), 0);
    CarryOver(v, p);
  }

  lemma PlainCase(init: seq<u8>, last: u8, v: nat, p: nat)
    requires last < 255 && v < p && v == BigEndian(init)
    ensures BigEndian(init + [last + 1]) == (256 * v + last + 1) % (256 * p)
  {
    ValueSnoc(init, last + 1);
    NoCarry(v, last, p);
  }

  /** The carry loop is addition of one, modulo the size of the address space. */
  lemma {:induction false} SuccessorAddsOne(bytes: seq<u8>)
    ensures BigEndian(Successor(bytes)) == (BigEndian(bytes) + 1) % Pow256(|bytes|)
  {
    if bytes != [] {
      var init, last := bytes[..|bytes| - 1], bytes[|bytes| - 1];
      BytesBigEndian(init);
      if last == 255 {
        SuccessorAddsOne(init);
        CarryCase(init, BigEndian(init), Pow256(|init|));
        assert BigEndian(bytes) + 1 == 256 * BigEndian(init) + 256;
      } else {
        PlainCase(init, last, BigEndian(init), Pow256(|init|));
      }
    }
  }

  lemma NoCarry(v: nat, last: nat, p: nat)
    requires v < p && last < 255
    ensures (256 * v + last + 1) % (256 * p) == 256 * v + last + 1
  {
    DivModUnique(256 * v + last + 1, 256 * p, 0, 256 * v + last + 1);
  }

  lemma CarryOver(v: nat, p: nat)
    requires v < p
    ensures 256 * ((v + 1) % p) == (256 * v + 256) % (256 * p)
  {
    if v + 1 == p {
      DivModUnique(v + 1, p, 1, 0);
      DivModUnique(256 * v + 256, 256 * p, 1, 0);
    } else {
      DivModUnique(v + 1, p, 0, v + 1);
      DivModUnique(256 * v + 256, 256 * p, 0, 256 * v + 256);
    }
  }

  /** The loop so far: the bytes behind `i` are carried, and the rest still decides the successor. */
  predicate Carrying(before: seq<u8>, buf: seq<u8>, carried: seq<u8>, i: int) {
    && -1 <= i < |before| && |buf| == |before|
    && buf == before[..i + 1] + carried
    && Successor(before) == Successor(before[..i + 1]) + carried
  }

  lemma CarryStart(before: seq<u8>)
    ensures Carrying(before, before, [], |before| - 1)
  {
    assert before[..|before|] == before;
  }

  lemma CarryStep(before: seq<u8>, buf: seq<u8>, carried: seq<u8>, i: nat)
    requires Carrying(before, buf, carried, i)
    ensures buf[i] == before[i]
    ensures buf[i] == 255 ==> Carrying(before, buf[i := 0], [0] + carried, i - 1)
    ensures buf[i] != 255 ==> buf[i := buf[i] + 1] == Successor(before)
  {
    assert before[..i + 1][..i] == before[..i];
  }

  lemma CarryEnd(before: seq<u8>, buf: seq<u8>, carried: seq<u8>)
    requires Carrying(before, buf, carried, -1)
    ensures buf == Successor(before)
  {
  }

  /** A copy of the address, incremented in place from its last byte. */
  method IncrementIP(ip: array<u8>) returns (result: array<u8>)
    ensures fresh(result) && result[..] == Successor(ip[..])
  {
    ghost var before := ip[..];
    result := new u8[ip.Length](i requires 0 <= i < ip.Length reads ip => ip[i]);
    var i := result.Length - 1;
    ghost var carried: seq<u8> := [];
    assert result[..] == before;
    CarryStart(before);
    while i >= 0
      invariant result.Length == |before| && Carrying(before, result[..], carried, i)
    {
      ghost var buf := result[..];
      CarryStep(before, buf, carried, i);
      result[i] := if result[i] == 255 then 0 else result[i] + 1;
      assert result[..] == buf[i := result[i]];
      if result[i] != 0 {
        return;
      }
      carried := [0] + carried;
      i := i - 1;
    }
    CarryEnd(before, result[..], carried);
  }

  // ----- network and broadcast -----

  /** Bitwise or. */
  function BitOr(a: nat, b: nat): (r: nat) {
    if a == 0 then b else if b == 0 then a else 2 * BitOr(a / 2, b / 2) + if a % 2 == 1 || b % 2 == 1 then 1 else 0
  }

  function Pow2(n: nat): (p: nat)
    ensures p > 0
  {
    if n == 0 then 1 else 2 * Pow2(n - 1)
  }

  /** The host bits of the broadcast address: masked bits and the rest never meet. */
  lemma {:induction false} MaskedOrHost(a: nat, m: nat, w: nat)
    requires a < Pow2(w) && m < Pow2(w)
    ensures BitOr(BitAnd(a, m), Pow2(w) - 1 - m) == BitAnd(a, m) + (Pow2(w) - 1 - m)
    decreases w
  {
    if w > 0 {
      var x, y := BitAnd(a, m), Pow2(w) - 1 - m;
      MaskedOrHost(a / 2, m / 2, w - 1);
      assert y / 2 == Pow2(w - 1) - 1 - m / 2 && y % 2 == 1 - m % 2;
      if a != 0 && m != 0 {
        assert x / 2 == BitAnd(a / 2, m / 2) && x % 2 == if a % 2 == 1 && m % 2 == 1 then 1 else 0;
      }
    }
  }

  lemma EightBits()
    ensures Pow2(8) == 256
  {
    assert Pow2(4) == 16;
  }

  type Octets = b: seq<u8> | |b| == 4 witness [0, 0, 0, 0]

  function Network(ip: Octets, mask: Octets): Octets {
    [BitAnd(ip[0], mask[0]), BitAnd(ip[1], mask[1]), BitAnd(ip[2], mask[2]), BitAnd(ip[3], mask[3])]
  }

  lemma HostOctet(a: u8, m: u8)
    ensures BitOr(BitAnd(a, m), 255 - m) == BitAnd(a, m) + (255 - m) && BitAnd(a, m) <= m
  {
    EightBits();
    MaskedOrHost(a, m, 8);
    AndAtMost(a, m);
  }

  lemma {:induction false} AndAtMost(a: nat, m: nat)
    ensures BitAnd(a, m) <= m
  {
    if a != 0 && m != 0 { AndAtMost(a / 2, m / 2); }
  }

  function BroadcastOctet(a: u8, m: u8): (b: u8) {
    HostOctet(a, m);
    BitOr(BitAnd(a, m), 255 - m)
  }

  function Broadcast(ip: Octets, mask: Octets): (b: Octets) {
    [BroadcastOctet(ip[0], mask[0]), BroadcastOctet(ip[1], mask[1]), BroadcastOctet(ip[2], mask[2]), BroadcastOctet(ip[3], mask[3])]
  }

  function Weigh(a: nat, b: nat, c: nat, d: nat): (v: nat) { 256 * (256 * (256 * a + b) + c) + d }

  lemma Value4(b: Octets)
    ensures BigEndian(b) == Weigh(b[0], b[1], b[2], b[3])
  {
    assert b[..3] == b[..2] + [b[2]] && b[..2] == b[..1] + [b[1]] && b[..1] == [] + [b[0]] && b == b[..3] + [b[3]];
    ValueSnoc([], b[0]);
    ValueSnoc(b[..1], b[1]);
    ValueSnoc(b[..2], b[2]);
    ValueSnoc(b[..3], b[3]);
  }

  lemma OctetSpan(ip: Octets, mask: Octets, i: nat)
    requires i < 4
    ensures var n, b := Network(ip, mask)[i], Broadcast(ip, mask)[i]; b == (n as int) + (255 - mask[i]) && n <= ip[i] <= b
  {
    HostOctet(ip[i], mask[i]);
    OctetWithin(ip[i], mask[i]);
  }

  lemma WeighSum(n0: nat, n1: nat, n2: nat, n3: nat, h0: nat, h1: nat, h2: nat, h3: nat)
    ensures Weigh(n0 + h0, n1 + h1, n2 + h2, n3 + h3) == Weigh(n0, n1, n2, n3) + Weigh(h0, h1, h2, h3)
  {
  }

  lemma WeighMonotone(a0: nat, a1: nat, a2: nat, a3: nat, b0: nat, b1: nat, b2: nat, b3: nat)
    requires a0 <= b0 && a1 <= b1 && a2 <= b2 && a3 <= b3
    ensures Weigh(a0, a1, a2, a3) <= Weigh(b0, b1, b2, b3)
  {
  }

  /** Network and broadcast span as many addresses as the mask leaves open, with the address between. */
  lemma SpanOfMask(ip: Octets, mask: Octets)
    ensures BigEndian(Broadcast(ip, mask)) == BigEndian(Network(ip, mask)) + (0xffff_ffff - BigEndian(mask))
    ensures BigEndian(Network(ip, mask)) <= BigEndian(ip) <= BigEndian(Broadcast(ip, mask)) <= 0xffff_ffff
  {
    var n, b, m: Octets := Network(ip, mask), Broadcast(ip, mask), mask;
    OctetSpan(ip, mask, 0);
    OctetSpan(ip, mask, 1);
    OctetSpan(ip, mask, 2);
    OctetSpan(ip, mask, 3);
    Value4(n);
    Value4(b);
    Value4(ip);
    Value4(m);
    WeighSum(n[0], n[1], n[2], n[3], 255 - m[0], 255 - m[1], 255 - m[2], 255 - m[3]);
    WeighSum(m[0], m[1], m[2], m[3], 255 - m[0], 255 - m[1], 255 - m[2], 255 - m[3]);
    WeighMonotone(n[0], n[1], n[2], n[3], ip[0], ip[1], ip[2], ip[3]);
    WeighMonotone(ip[0], ip[1], ip[2], ip[3], b[0], b[1], b[2], b[3]);
    WeighMonotone(b[0], b[1], b[2], b[3], 255, 255, 255, 255);
  }

  lemma OctetWithin(a: u8, m: u8)
    ensures a <= BitAnd(a, m) + (255 - m)
  {
    EightBits();
    WithinBits(a, m, 8);
  }

  lemma {:induction false} WithinBits(a: nat, m: nat, w: nat)
    requires a < Pow2(w) && m < Pow2(w)
    ensures a <= BitAnd(a, m) + (Pow2(w) - 1 - m)
  {
    if w > 0 { WithinBits(a / 2, m / 2, w - 1); }
  }

  // ----- the network address is the address without its host bits -----

  lemma {:induction false} AllOnes(v: nat, w: nat)
    requires v < Pow2(w)
    ensures BitAnd(v, Pow2(w) - 1) == v
  {
    if w > 0 {
      AllOnes(v / 2, w - 1);
      assert (Pow2(w) - 1) / 2 == Pow2(w - 1) - 1 && (Pow2(w) - 1) % 2 == 1;
    }
  }

  lemma {:induction false} PowersGrow(k: nat, w: nat)
    requires k <= w
    ensures Pow2(k) <= Pow2(w)
  {
    if k < w { PowersGrow(k, w - 1); }
  }

  lemma ModHalf(v: nat, q: nat)
    requires q > 0
    ensures v % (2 * q) == 2 * (v / 2 % q) + v % 2
  {
    var u := v / 2;
    assert u == u / q * q + u % q;
    assert v == u / q * (2 * q) + (2 * (u % q) + v % 2) by { assert u / q * (2 * q) == 2 * (u / q * q); }
    DivModUnique(v, 2 * q, u / q, 2 * (u % q) + v % 2);
  }

  /** A mask of high bits clears the low ones. */
  lemma {:induction false} ClearsLow(v: nat, w: nat, k: nat)
    requires v < Pow2(w) && k <= w
    ensures Pow2(k) <= Pow2(w) && BitAnd(v, Pow2(w) - Pow2(k)) == v - v % Pow2(k)
  {
    PowersGrow(k, w);
    if k == 0 {
      AllOnes(v, w);
    } else {
      var m := Pow2(w - 1) - Pow2(k - 1);
      ClearsLow(v / 2, w - 1, k - 1);
      ModHalf(v, Pow2(k - 1));
      assert Pow2(w) - Pow2(k) == 2 * m && 2 * m / 2 == m && 2 * m % 2 == 0;
    }
  }

  lemma OctetCleared(a: u8, k: nat)
    requires k <= 8
    ensures Pow2(k) * Pow2(8 - k) == 256 && BitAnd(a, 256 - Pow2(k)) == a - a % Pow2(k)
  {
    EightBits();
    PowSum(k, 8 - k);
    ClearsLow(a, 8, k);
  }

  lemma {:induction false} PowSum(j: nat, k: nat)
    ensures Pow2(j) * Pow2(k) == Pow2(j + k)
  {
    if j > 0 {
      PowSum(j - 1, k);
      assert 2 * Pow2(j - 1) * Pow2(k) == 2 * (Pow2(j - 1) * Pow2(k));
    }
  }

  /** The host bits of a number: those of one digit, and all digits behind it. */
  lemma HostPart(v: nat, u: nat, c: u8, rest: nat, s: nat, q: nat, t: nat)
    requires q * t == 256 && q > 0 && rest < s && v == (256 * u + c) * s + rest
    ensures v % (q * s) == c % q * s + rest
  {
    var n := t * u + c / q;
    assert 256 * u + c == n * q + c % q by { assert t * u * q == 256 * u by { assert t * u * q == q * t * u; } }
    assert (256 * u + c) * s == n * (q * s) + c % q * s by { assert (n * q + c % q) * s == n * q * s + c % q * s; assert n * q * s == n * (q * s); }
    assert c % q * s + rest < q * s by { assert c % q * s + s == (c % q + 1) * s; MulLeft(c % q + 1, q, s); }
    DivModUnique(v, q * s, n, c % q * s + rest);
  }

  lemma MulLeft(a: nat, b: nat, s: nat)
    requires a <= b
    ensures a * s <= b * s
  {
  }

  /** The mask with `i` full octets and `k` open bits in the next. */
  function PrefixMask(i: nat, k: nat): (m: Octets)
    requires i < 4 && k <= 8
  {
    OctetCleared(0, k);
    PowersGrow(k, 8);
    EightBits();
    var part := 256 - Pow2(k);
    match i
    case 0 => [part, 0, 0, 0]
    case 1 => [255, part, 0, 0]
    case 2 => [255, 255, part, 0]
    case _ => [255, 255, 255, part]
  }

  function Digits(i: nat): (s: nat)
    requires i < 4
    ensures s > 0
  {
    match i
    case 0 => 0x100_0000
    case 1 => 0x1_0000
    case 2 => 0x100
    case _ => 1
  }

  lemma MaskIsPrefix(mask: Octets, i: nat, k: nat)
    requires i < 4 && k <= 8 && BigEndian(mask) == 0x1_0000_0000 - Pow2(k) * Digits(i)
    ensures mask == PrefixMask(i, k)
  {
    Value4(PrefixMask(i, k));
    SameValue(mask, PrefixMask(i, k));
  }

  lemma NetworkOctet(ip: Octets, mask: Octets, j: nat, k: nat)
    requires j < 4 && k <= 8 && mask[j] == 256 - Pow2(k)
    ensures Network(ip, mask)[j] == ip[j] - ip[j] % Pow2(k)
  {
    NetworkAt(ip, mask, j);
    OctetCleared(ip[j], k);
  }

  lemma NetworkAt(ip: Octets, mask: Octets, j: nat)
    requires j < 4
    ensures Network(ip, mask)[j] == BitAnd(ip[j], mask[j])
  {
  }

  lemma PrefixMaskAt(i: nat, k: nat, j: nat)
    requires i < 4 && k <= 8 && j < 4
    ensures PrefixMask(i, k)[j] == 256 - Pow2(if j < i then 0 else if j == i then k else 8)
  {
    EightBits();
  }

  /** Under such a mask the octets before stay, one is cut, and those behind are zero. */
  lemma NetworkOctets(ip: Octets, mask: Octets, i: nat, k: nat)
    requires i < 4 && k <= 8 && mask == PrefixMask(i, k)
    ensures var n, cut := Network(ip, mask), ip[i] - ip[i] % Pow2(k);
      n[i] == cut && (forall j :: 0 <= j < i ==> n[j] == ip[j]) && (forall j :: i < j < 4 ==> n[j] == 0)
  {
    EightBits();
    var n := Network(ip, mask);
    forall j | 0 <= j < 4 ensures n[j] == ip[j] - ip[j] % Pow2(if j < i then 0 else if j == i then k else 8) {
      PrefixMaskAt(i, k, j);
      NetworkOctet(ip, mask, j, if j < i then 0 else if j == i then k else 8);
    }
  }

  /** So it is the address less its host part. */
  lemma CutValue(a: Octets, n: Octets, i: nat, low: nat)
    requires i < 4 && low <= a[i] && n[i] == a[i] - low
    requires (forall j :: 0 <= j < i ==> n[j] == a[j]) && (forall j :: i < j < 4 ==> n[j] == 0)
    ensures BigEndian(n) == BigEndian(a) - (low * Digits(i) + Behind(a, i))
  {
    Value4(a);
    Value4(n);
  }

  /** The digits before and behind one. */
  function InFront(a: Octets, i: nat): (v: nat)
    requires i < 4
  {
    match i
    case 0 => 0
    case 1 => a[0]
    case 2 => Weigh(0, 0, a[0], a[1])
    case _ => Weigh(0, a[0], a[1], a[2])
  }

  function Behind(a: Octets, i: nat): (v: nat)
    requires i < 4
    ensures v < Digits(i)
  {
    match i
    case 0 => Weigh(0, a[1], a[2], a[3])
    case 1 => Weigh(0, 0, a[2], a[3])
    case 2 => a[3]
    case _ => 0
  }

  lemma ValueAround(a: Octets, i: nat)
    requires i < 4
    ensures BigEndian(a) == (256 * InFront(a, i) + a[i]) * Digits(i) + Behind(a, i)
  {
    Value4(a);
    if i == 0 { assert InFront(a, 0) == 0; }
  }

  lemma NetworkUnder(ip: Octets, mask: Octets, i: nat, k: nat)
    requires i < 4 && k <= 8 && mask == PrefixMask(i, k)
    ensures BigEndian(Network(ip, mask)) == BigEndian(ip) - BigEndian(ip) % (Pow2(k) * Digits(i))
  {
    NetworkOctets(ip, mask, i, k);
    CutValue(ip, Network(ip, mask), i, ip[i] % Pow2(k));
    ValueAround(ip, i);
    OctetCleared(ip[i], k);
    HostPart(BigEndian(ip), InFront(ip, i), ip[i], Behind(ip, i), Digits(i), Pow2(k), Pow2(8 - k));
  }

  /** A prefix of length `p` keeps the address down to its multiple of 2^(32-p). */
  lemma NetworkOfPrefix(ip: Octets, mask: Octets, p: nat)
    requires p <= 32 && BigEndian(mask) == 0x1_0000_0000 - Pow2(32 - p)
    ensures BigEndian(Network(ip, mask)) == BigEndian(ip) - BigEndian(ip) % Pow2(32 - p)
  {
    var i := if p >= 24 then 3 else p / 8;
    var k := 8 * (i + 1) - p;
    OpenBits(i, k);
    MaskIsPrefix(mask, i, k);
    NetworkUnder(ip, mask, i, k);
  }

  lemma OpenBits(i: nat, k: nat)
    requires i < 4 && k <= 8
    ensures Pow2(k + 8 * (3 - i)) == Pow2(k) * Digits(i)
  {
    EightBits();
    PowSum(8, 8);
    PowSum(8, 16);
    PowSum(k, 8 * (3 - i));
  }

  // ----- the expansion -----

  function AddressText(b: Octets): string { E.Text(E.Ip(b[0], b[1], b[2], b[3])) }

  /** The text of the address with a given number. */
  function Numbered(v: nat): (s: string) { AddressText(Bytes(v, 4)) }

  lemma NumberedInjective(v: u32, w: u32)
    requires Numbered(v) == Numbered(w)
    ensures v == w
  {
    var x, y := Bytes(v, 4), Bytes(w, 4);
    E.TextInjective(E.Ip(x[0], x[1], x[2], x[3]), E.Ip(y[0], y[1], y[2], y[3]));
    assert x == y;
    Widths();
    BigEndianBytes(v, 4);
    BigEndianBytes(w, 4);
  }

  /** How many addresses the loop lists: those strictly between, or all others when the mask leaves none open. */
  function HowMany(ip: Octets, mask: Octets): (n: int) {
    if BigEndian(mask) == 0xffff_ffff then 0xffff_ffff else 0xffff_fffe - BigEndian(mask)
  }

  /** The address reached after `k` steps from the network address. */
  function Reached(ip: Octets, mask: Octets, k: nat): nat {
    (BigEndian(Network(ip, mask)) + k) % 0x1_0000_0000
  }

  lemma StopsIff(ip: Octets, mask: Octets, k: nat)
    requires k <= HowMany(ip, mask)
    ensures (Reached(ip, mask, k + 1) == BigEndian(Network(ip, mask)) || Reached(ip, mask, k + 1) == BigEndian(Broadcast(ip, mask)))
       <==> k == HowMany(ip, mask)
  {
    SpanOfMask(ip, mask);
    StopsAt(BigEndian(Network(ip, mask)), BigEndian(Broadcast(ip, mask)), k);
  }

  lemma StopsAt(n: nat, b: nat, k: nat)
    requires n <= b <= 0xffff_ffff && k <= if n == b then 0xffff_ffff else b - n - 1
    ensures ((n + (k + 1)) % 0x1_0000_0000 == n || (n + (k + 1)) % 0x1_0000_0000 == b) <==> k == if n == b then 0xffff_ffff else b - n - 1
  {
  }

  lemma StepModulo(n: nat, k: nat)
    ensures ((n + k) % 0x1_0000_0000 + 1) % 0x1_0000_0000 == (n + (k + 1)) % 0x1_0000_0000
  {
  }

  lemma NextReached(ip: Octets, mask: Octets, k: nat, current: Octets)
    requires BigEndian(current) == Reached(ip, mask, k)
    ensures BigEndian(Successor(current)) == Reached(ip, mask, k + 1)
  {
    SuccessorAddsOne(current);
    Widths();
    StepModulo(BigEndian(Network(ip, mask)), k);
  }

  lemma SameValue(a: Octets, b: Octets)
    ensures a == b <==> BigEndian(a) == BigEndian(b)
    ensures AddressText(a) == Numbered(BigEndian(a))
  {
    BytesBigEndian(a);
    BytesBigEndian(b);
  }

  /** The addresses the loop lists, as numbers. */
  function Numbers(ip: Octets, mask: Octets): (ns: seq<nat>)
    ensures |ns| == HowMany(ip, mask)
  {
    Value0(ip, mask);
    seq(HowMany(ip, mask), k requires 0 <= k => Reached(ip, mask, k + 1))
  }

  predicate Lists(addrs: seq<string>, ns: seq<nat>) {
    |addrs| <= |ns| && forall k :: 0 <= k < |addrs| ==> addrs[k] == Numbered(ns[k])
  }

  /** An IPv4 address in four bytes, or in its IPv4-mapped form; none of another family. */
  function To4(ip: seq<u8>): (a: Option<Octets>) {
    if |ip| == 4 then Some(ip)
    else if |ip| == 16 && ip[..12] == MAPPED then Some(ip[12..])
    else None
  }

  const MAPPED: seq<u8> := [0, 0, 0, 0, 0, 0, 0, 0, 0, 0, 255, 255]

  /** Both forms of an address are taken for it, and nothing else. */
  lemma To4Iff(ip: seq<u8>, a: Octets)
    ensures To4(ip) == Some(a) <==> ip == a || ip == MAPPED + a
  {
    if |ip| == 16 { assert ip == ip[..12] + ip[12..]; }
  }

  /** Lists the addresses after the network address up to the broadcast address; nothing for other families. */
  method ExpandCIDR(ipNet: seq<u8>, mask: seq<u8>) returns (addrs: seq<string>)
    ensures To4(ipNet).None? || |mask| != 4 ==> addrs == []
    ensures To4(ipNet).Some? && |mask| == 4 ==>
      var ip := To4(ipNet).value; |addrs| == |Numbers(ip, mask)| && Lists(addrs, Numbers(ip, mask))
  {
    addrs := [];
    if To4(ipNet).None? || |mask| != 4 {
      return;
    }
    var ip := To4(ipNet).value;
    var network, broadcast := Network(ip, mask), Broadcast(ip, mask);
    var current := new u8[4](i requires 0 <= i < 4 => network[i]);
    assert current[..] == network;
    Value0(ip, mask);
    while true
      invariant fresh(current) && current.Length == 4
      invariant BigEndian(current[..]) == Reached(ip, mask, |addrs|) && Lists(addrs, Numbers(ip, mask))
      decreases HowMany(ip, mask) - |addrs|
    {
      NextListed(ip, mask, addrs, current[..]);
      current := IncrementIP(current);
      if current[..] == broadcast || current[..] == network {
        return;
      }
      addrs := addrs + [AddressText(current[..])];
    }
  }

  /** The next address ends the list, or is the next one on it. */
  lemma NextListed(ip: Octets, mask: Octets, addrs: seq<string>, current: Octets)
    requires BigEndian(current) == Reached(ip, mask, |addrs|) && Lists(addrs, Numbers(ip, mask))
    ensures var next := Successor(current);
      if next == Broadcast(ip, mask) || next == Network(ip, mask) then |addrs| == |Numbers(ip, mask)|
      else BigEndian(next) == Reached(ip, mask, |addrs| + 1) && Lists(addrs + [AddressText(next)], Numbers(ip, mask))
  {
    NextReached(ip, mask, |addrs|, current);
    StopsIff(ip, mask, |addrs|);
    SameValue(Successor(current), Broadcast(ip, mask));
    SameValue(Successor(current), Network(ip, mask));
  }

  lemma Value0(ip: Octets, mask: Octets)
    ensures HowMany(ip, mask) >= 0 && Reached(ip, mask, 0) == BigEndian(Network(ip, mask))
  {
    SpanOfMask(ip, mask);
  }

  // ----- which addresses these are -----

  lemma NoWrap(n: nat, k: nat)
    ensures n + 1 + k < 0x1_0000_0000 ==> (n + (k + 1)) % 0x1_0000_0000 == n + 1 + k
  {
  }

  lemma NumbersFromNetwork(ip: Octets, mask: Octets)
    requires BigEndian(mask) != 0xffff_ffff
    ensures |Numbers(ip, mask)| == BigEndian(Broadcast(ip, mask)) - BigEndian(Network(ip, mask)) - 1
    ensures forall k :: 0 <= k < |Numbers(ip, mask)| ==> Numbers(ip, mask)[k] == BigEndian(Network(ip, mask)) + 1 + k
  {
    SpanOfMask(ip, mask);
    var n, ns := BigEndian(Network(ip, mask)), Numbers(ip, mask);
    forall k | 0 <= k < |ns| ensures ns[k] == n + 1 + k { NoWrap(n, k); }
  }

  /** A run of consecutive numbers holds exactly those between its ends. */
  lemma Consecutive(ns: seq<nat>, first: nat, v: nat)
    requires forall k :: 0 <= k < |ns| ==> ns[k] == first + k
    ensures v in ns <==> first <= v < first + |ns|
  {
    if first <= v < first + |ns| { assert ns[v - first] == v; }
  }

  /** For every prefix length up to 31 the list is exactly the addresses strictly between network and
      broadcast, ascending, 2^(32-p)-2 of them. */
  lemma HostsExactly(ip: Octets, mask: Octets, p: nat)
    requires p <= 31 && BigEndian(mask) == 0x1_0000_0000 - Pow2(32 - p)
    ensures |Numbers(ip, mask)| == Pow2(32 - p) - 2
    ensures forall v: nat :: v in Numbers(ip, mask) <==> BigEndian(Network(ip, mask)) < v < BigEndian(Broadcast(ip, mask))
    ensures forall j, k :: 0 <= j < k < |Numbers(ip, mask)| ==> Numbers(ip, mask)[j] < Numbers(ip, mask)[k]
  {
    assert Pow2(32 - p) == 2 * Pow2(31 - p);
    NumbersFromNetwork(ip, mask);
    forall v: nat ensures v in Numbers(ip, mask) <==> BigEndian(Network(ip, mask)) < v < BigEndian(Broadcast(ip, mask)) {
      Consecutive(Numbers(ip, mask), BigEndian(Network(ip, mask)) + 1, v);
    }
  }

  /** Numbers with the same quotient as `v`. */
  lemma SameBlock(v: nat, u: nat, q: nat)
    requires q > 0
    ensures u / q == v / q <==> v - v % q <= u <= v - v % q + q - 1
    ensures u / q == v / q ==> u % q == u - (v - v % q)
  {
    var k := v / q;
    assert v - v % q == k * q && (k + 1) * q == k * q + q;
    if k * q <= u < k * q + q { DivModUnique(u, q, k, u - k * q); }
    assert u == u / q * q + u % q;
  }

  /** The list is the subnet of the address without its first and last address: the addresses with the same
      leading `p` bits whose host bits are neither all zero nor all one. */
  lemma HostsAreSubnet(ip: Octets, mask: Octets, p: nat, v: nat)
    requires p <= 31 && BigEndian(mask) == 0x1_0000_0000 - Pow2(32 - p)
    ensures v in Numbers(ip, mask) <==>
      v / Pow2(32 - p) == BigEndian(ip) / Pow2(32 - p) && v % Pow2(32 - p) != 0 && v % Pow2(32 - p) != Pow2(32 - p) - 1
  {
    HostsExactly(ip, mask, p);
    NetworkOfPrefix(ip, mask, p);
    SpanOfMask(ip, mask);
    SameBlock(BigEndian(ip), v, Pow2(32 - p));
  }

  lemma AllButOne(n: u32, v: u32)
    requires v != n
    ensures var k := (v - n - 1) % 0x1_0000_0000; k < 0xffff_ffff && (n + (k + 1)) % 0x1_0000_0000 == v
  {
  }

  lemma NeverBack(n: u32, k: nat)
    requires k < 0xffff_ffff
    ensures (n + (k + 1)) % 0x1_0000_0000 != n
  {
  }

  /** A single-host mask lists every other address of the whole space. */
  lemma SingleHostListsAll(ip: Octets, mask: Octets, v: u32)
    requires BigEndian(mask) == 0xffff_ffff
    ensures v in Numbers(ip, mask) <==> v != BigEndian(ip)
  {
    SpanOfMask(ip, mask);
    var n, ns := BigEndian(Network(ip, mask)), Numbers(ip, mask);
    if v != n {
      AllButOne(n, v);
      assert ns[(v - n - 1) % 0x1_0000_0000] == v;
    }
    forall k | 0 <= k < |ns| ensures ns[k] != n { NeverBack(n, k); }
  }
}
