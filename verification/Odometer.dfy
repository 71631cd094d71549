/** The deterministic walk over port pairs that client and server share. */
module Odometer {
  import opened Machine

  datatype PortRange = PortRange(min: int, max: int)

  datatype Pair = Pair(src: u16, dst: u16)

  /** The client range and the server range of one probing session. */
  datatype Ranges = Ranges(client: PortRange, server: PortRange)

  /** What parsing a port range guarantees. */
  predicate Configured(r: PortRange) {
    1 <= r.min <= r.max <= 65535
  }

  predicate ConfiguredRanges(r: Ranges) {
    Configured(r.client) && Configured(r.server)
  }

  /** The ranges on which the 16-bit increments never overflow. */
  predicate Usable(r: Ranges) {
    ConfiguredRanges(r) && r.client.max <= 65534 && r.server.max <= 65534
  }

  function GetNextPorts(p: Pair, r: Ranges): Pair {
    var server := (p.dst + 1) % 0x1_0000;
    var wrapped := server > r.server.max % 0x1_0000;
    var server' := if wrapped then r.server.min % 0x1_0000 else server;
    var client := if wrapped then (p.src + 1) % 0x1_0000 else p.src;
    var client' := if client > r.client.max % 0x1_0000 then r.client.min % 0x1_0000 else client;
    Pair(client', server')
  }

  predicate InRange(p: Pair, r: Ranges) {
    r.client.min <= p.src <= r.client.max && r.server.min <= p.dst <= r.server.max
  }

  function Width(r: PortRange): int { r.max - r.min + 1 }

  /** How many port pairs there are. */
  function Period(r: Ranges): (n: int)
    requires ConfiguredRanges(r)
    ensures n >= 1
  {
    MulAtLeast(Width(r.client), Width(r.server));
    Width(r.client) * Width(r.server)
  }

  /** Row-major position of a pair: the client port selects the row. */
  function Index(p: Pair, r: Ranges): int {
    (p.src - r.client.min) * Width(r.server) + (p.dst - r.server.min)
  }

  lemma MulMonotone(a: int, b: int, c: int)
    requires a <= b && c >= 0
    ensures a * c <= b * c
  {
    assert b * c == a * c + (b - a) * c;
    assert (b - a) * c >= 0;
  }

  /** A position splits into a row below `rows` and a column below `cols`. */
  lemma SplitPosition(i: int, rows: int, cols: int)
    requires rows > 0 && cols > 0 && 0 <= i < rows * cols
    ensures 0 <= i / cols < rows && 0 <= i % cols < cols && i == i / cols * cols + i % cols
  {
    if i / cols >= rows {
      MulMonotone(rows, i / cols, cols);
    }
  }

  function PairAt(i: int, r: Ranges): (p: Pair)
    requires ConfiguredRanges(r) && 0 <= i < Period(r)
    ensures InRange(p, r) && Index(p, r) == i
  {
    SplitPosition(i, Width(r.client), Width(r.server));
    var row, col := i / Width(r.server), i % Width(r.server);
    Pair(r.client.min + row, r.server.min + col)
  }

  /** Positions are bounded by the period and identify the pair. */
  lemma IndexBounds(p: Pair, r: Ranges)
    requires ConfiguredRanges(r) && InRange(p, r)
    ensures 0 <= Index(p, r) < Period(r)
    ensures PairAt(Index(p, r), r) == p
  {
    var row, col, w := p.src - r.client.min, p.dst - r.server.min, Width(r.server);
    MulMonotone(0, row, w);
    MulMonotone(row, Width(r.client) - 1, w);
    assert (Width(r.client) - 1) * w == Width(r.client) * w - w;
    DivModUnique(Index(p, r), w, row, col);
  }

  lemma IndexInjective(p: Pair, q: Pair, r: Ranges)
    requires ConfiguredRanges(r) && InRange(p, r) && InRange(q, r)
    ensures 0 <= Index(p, r) < Period(r) && 0 <= Index(q, r) < Period(r)
    ensures Index(p, r) == Index(q, r) <==> p == q
  {
    IndexBounds(p, r);
    IndexBounds(q, r);
  }

  /** One step is the successor modulo the period. */
  predicate StepsToSuccessor(p: Pair, r: Ranges)
    requires ConfiguredRanges(r)
  {
    InRange(GetNextPorts(p, r), r) && Index(GetNextPorts(p, r), r) == (Index(p, r) + 1) % Period(r)
  }

  /** The odometer tick: the server port first, then the client port, then back to the start. */
  function Tick(p: Pair, r: Ranges): (q: Pair)
    requires ConfiguredRanges(r) && InRange(p, r)
    ensures InRange(q, r)
  {
    if p.dst < r.server.max then Pair(p.src, p.dst + 1)
    else if p.src < r.client.max then Pair(p.src + 1, r.server.min)
    else Pair(r.client.min, r.server.min)
  }

  /** Without overflow the 16-bit code is the odometer tick. */
  lemma NextIsTick(p: Pair, r: Ranges)
    requires Usable(r) && InRange(p, r)
    ensures GetNextPorts(p, r) == Tick(p, r)
  {
  }

  lemma TickIndex(p: Pair, r: Ranges)
    requires ConfiguredRanges(r) && InRange(p, r)
    ensures Index(Tick(p, r), r) == (Index(p, r) + 1) % Period(r)
  {
    var rows, cols := Width(r.client), Width(r.server);
    SuccessorArith(p.src - r.client.min, p.dst - r.server.min, rows, cols);
  }

  lemma NextIsSuccessor(p: Pair, r: Ranges)
    requires Usable(r) && InRange(p, r)
    ensures StepsToSuccessor(p, r)
  {
    NextIsTick(p, r);
    TickIndex(p, r);
  }

  lemma SuccessorArith(row: int, col: int, rows: int, cols: int)
    requires 0 <= row < rows && 0 <= col < cols
    ensures (row * cols + col + 1) % (rows * cols)
         == if col + 1 < cols then row * cols + col + 1 else if row + 1 < rows then (row + 1) * cols else 0
  {
    var i, m := row * cols + col, rows * cols;
    assert (row + 1) * cols == row * cols + cols;
    MulMonotone(0, row, cols);
    MulMonotone(row + 1, rows, cols);
    if i + 1 < m {
      DivModUnique(i + 1, m, 0, i + 1);
    } else {
      DivModUnique(i + 1, m, 1, 0);
    }
    if row + 1 < rows {
      MulMonotone(row + 2, rows, cols);
      assert (row + 2) * cols == (row + 1) * cols + cols;
    }
  }

  /** The walk is one cycle over all pairs exactly when neither range ends at port 65535. */
  lemma SingleCycleIff(r: Ranges)
    requires ConfiguredRanges(r)
    ensures (forall p :: InRange(p, r) ==> StepsToSuccessor(p, r))
       <==> r.client.max <= 65534 && r.server.max <= 65534
  {
    if Usable(r) {
      forall p | InRange(p, r) ensures StepsToSuccessor(p, r) { NextIsSuccessor(p, r); }
    } else {
      var last := Pair(r.client.max, r.server.max);
      assert InRange(last, r) && !InRange(GetNextPorts(last, r), r);
    }
  }

  function Iterate(p: Pair, n: nat, r: Ranges): Pair {
    if n == 0 then p else GetNextPorts(Iterate(p, n - 1, r), r)
  }

  /** The `n` pairs used from `p` on, `p` first. */
  function Run(p: Pair, n: nat, r: Ranges): (s: seq<Pair>)
    ensures |s| == n
  {
    if n == 0 then [] else Run(p, n - 1, r) + [Iterate(p, n - 1, r)]
  }

  lemma {:induction false} IterateIndex(p: Pair, n: nat, r: Ranges)
    requires Usable(r) && InRange(p, r)
    ensures InRange(Iterate(p, n, r), r)
    ensures Index(Iterate(p, n, r), r) == (Index(p, r) + n) % Period(r)
  {
    IndexBounds(p, r);
    if n == 0 {
      DivModUnique(Index(p, r), Period(r), 0, Index(p, r));
    } else {
      var q, x := Iterate(p, n - 1, r), Index(p, r) + n - 1;
      IterateIndex(p, n - 1, r);
      NextIsSuccessor(q, r);
      ModPlusOne(x, Period(r));
    }
  }

  lemma IterateInRange(p: Pair, n: nat, r: Ranges)
    requires Usable(r) && InRange(p, r)
    ensures InRange(Iterate(p, n, r), r)
  {
    IterateIndex(p, n, r);
  }

  lemma {:induction false} IterateShift(p: Pair, n: nat, r: Ranges)
    ensures Iterate(GetNextPorts(p, r), n, r) == Iterate(p, n + 1, r)
  {
    if n > 0 { IterateShift(p, n - 1, r); }
  }

  lemma {:induction false} RunCons(p: Pair, n: nat, r: Ranges)
    ensures Run(p, n + 1, r) == [p] + Run(GetNextPorts(p, r), n, r)
  {
    if n > 0 {
      RunCons(p, n - 1, r);
      IterateShift(p, n - 1, r);
    }
  }

  /** How far ahead of `p` the walk meets `q`. */
  function Ahead(p: Pair, q: Pair, r: Ranges): (d: int)
    requires ConfiguredRanges(r)
    ensures 0 <= d < Period(r)
  {
    (Index(q, r) - Index(p, r)) % Period(r)
  }

  lemma IterateHits(p: Pair, q: Pair, n: nat, r: Ranges)
    requires Usable(r) && InRange(p, r) && InRange(q, r)
    ensures Iterate(p, n, r) == q <==> n % Period(r) == Ahead(p, q, r)
  {
    IterateIndex(p, n, r);
    IndexInjective(Iterate(p, n, r), q, r);
    CongruentHits(Index(p, r), Index(q, r), n, Period(r));
  }

  /** Floor or ceiling of n / m, according to whether distance `d` is reached once more. */
  function Uses(n: nat, m: int, d: int): int
    requires m > 0
  {
    n / m + if d < n % m then 1 else 0
  }

  /** Every pair is used floor or ceiling of n / period times in any n consecutive probes. */
  lemma UsesPerPair(p: Pair, q: Pair, n: nat, r: Ranges)
    requires Usable(r) && InRange(p, r) && InRange(q, r)
    ensures multiset(Run(p, n, r))[q] == Uses(n, Period(r), Ahead(p, q, r))
  {
    var s := Run(p, n, r);
    forall i | 0 <= i < n ensures s[i] == q <==> i % Period(r) == Ahead(p, q, r) {
      RunAt(p, n, i, r);
      IterateHits(p, q, i, r);
    }
    CountHits(s, q, Period(r), Ahead(p, q, r));
  }

  lemma {:induction false} RunAt(p: Pair, n: nat, i: nat, r: Ranges)
    requires i < n
    ensures Run(p, n, r)[i] == Iterate(p, i, r)
  {
    if i < n - 1 { RunAt(p, n - 1, i, r); }
  }

  lemma {:induction false} CountHits(s: seq<Pair>, q: Pair, m: int, d: int)
    requires 0 <= d < m
    requires forall i :: 0 <= i < |s| ==> (s[i] == q <==> i % m == d)
    ensures multiset(s)[q] == Uses(|s|, m, d)
  {
    if s == [] {
      DivModUnique(0, m, 0, 0);
    } else {
      var n := |s| - 1;
      CountHits(s[..n], q, m, d);
      CountStep(n, m, d);
      assert s == s[..n] + [s[n]];
    }
  }

  /** A whole period uses every pair once and nothing else. */
  lemma FullPeriodUsesEachOnce(p: Pair, q: Pair, r: Ranges)
    requires Usable(r) && InRange(p, r)
    ensures multiset(Run(p, Period(r), r))[q] == if InRange(q, r) then 1 else 0
  {
    if InRange(q, r) {
      UsesPerPair(p, q, Period(r), r);
      DivModUnique(Period(r), Period(r), 1, 0);
    } else {
      RunInRange(p, Period(r), r);
    }
  }

  lemma {:induction false} RunInRange(p: Pair, n: nat, r: Ranges)
    requires Usable(r) && InRange(p, r)
    ensures forall q :: q in Run(p, n, r) ==> InRange(q, r)
  {
    if n > 0 {
      RunInRange(p, n - 1, r);
      IterateIndex(p, n - 1, r);
    }
  }

  /** The server advances before counting: its replay of n probes that began at `first`. */
  function Replay(first: Pair, n: nat, r: Ranges): multiset<Pair> {
    multiset(Run(GetNextPorts(first, r), n, r))
  }

  /** The replay drops the first pair sent and adds the pair after the last one sent. */
  lemma ReplayIsShifted(first: Pair, n: nat, r: Ranges)
    ensures Replay(first, n, r) + multiset{first}
         == multiset(Run(first, n, r)) + multiset{Iterate(first, n, r)}
  {
    RunCons(first, n, r);
    assert multiset([first] + Run(GetNextPorts(first, r), n, r))
        == multiset{first} + Replay(first, n, r);
  }

  lemma SwapOne(a: multiset<Pair>, b: multiset<Pair>, x: Pair, y: Pair)
    requires a + multiset{x} == b + multiset{y}
    ensures a == b <==> x == y
  {
    if x == y {
      assert a == (a + multiset{x}) - multiset{x};
      assert b == (b + multiset{y}) - multiset{y};
    } else {
      assert (a + multiset{x})[x] == (b + multiset{y})[x];
    }
  }

  /** The server reconstructs the span exactly when the period divides the number of probes. */
  lemma ReplayExactIff(first: Pair, n: nat, r: Ranges)
    requires Usable(r) && InRange(first, r)
    ensures Replay(first, n, r) == multiset(Run(first, n, r)) <==> n % Period(r) == 0
  {
    ReplayIsShifted(first, n, r);
    SwapOne(Replay(first, n, r), multiset(Run(first, n, r)), first, Iterate(first, n, r));
    IterateHits(first, first, n, r);
  }

  /** The smallest span that the documentation's reconstruction claim gets wrong. */
  lemma ReplayMissesSingleProbe()
    ensures var r := Ranges(PortRange(43500, 43599), PortRange(43500, 43509));
            var first := Pair(43500, 43501);
            first !in Replay(first, 1, r) && Pair(43500, 43502) in Replay(first, 1, r)
  {
    var r := Ranges(PortRange(43500, 43599), PortRange(43500, 43509));
    assert Run(Pair(43500, 43502), 1, r) == [Pair(43500, 43502)];
  }
}
