/** The client's send loop: which probe goes out next and what it says about the previous span. */
module SpanClient {
  import opened Machine
  import opened Odometer
  import S = BucketStore

  datatype Settings = Settings(span: S.pos, rateInSpan: int, ranges: Ranges, firstSeq: u64)

  /** One peer's share of the send loop's variables. */
  datatype Client = Client(
    seqNo: u64, pair: Pair, bucketID: int, lastSent: u32, curSent: u32, lastStart: Pair, curStart: Pair)

  /** A probe the loop counted; it reached the network only if `onWire`. */
  datatype Probe = Probe(seqNo: u64, ts: nat, pair: Pair, last: S.LastSpan, onWire: bool)

  function StartPair(cfg: Settings): Pair {
    Pair(cfg.ranges.client.min % 0x1_0000, cfg.ranges.server.min % 0x1_0000)
  }

  function InitClient(cfg: Settings): Client {
    Client(cfg.firstSeq, StartPair(cfg), 0, 0, cfg.rateInSpan % 0x1_0000_0000, Pair(0, 0), StartPair(cfg))
  }

  /** One pass of the loop body for a peer, at time `ts`. */
  function AfterSend(c: Client, ts: nat, cfg: Settings): Client {
    var pair := GetNextPorts(c.pair, cfg.ranges);
    var seqNo := (c.seqNo + 1) % 0x1_0000_0000_0000_0000;
    var bucketID := ts / cfg.span;
    if bucketID != c.bucketID
    then Client(seqNo, pair, bucketID, c.curSent, 1, c.curStart, pair)
    else c.(seqNo := seqNo, pair := pair, curSent := (c.curSent + 1) % 0x1_0000_0000)
  }

  function ProbeSent(c': Client, ts: nat, onWire: bool): Probe {
    Probe(c'.seqNo, ts, c'.pair, S.LastSpan(c'.lastSent, c'.lastStart.src, c'.lastStart.dst), onWire)
  }

  // ----- what a history of probes says -----

  function SpanOf(p: Probe, cfg: Settings): int { p.ts / cfg.span }

  /** How many probes were counted in span `k`. */
  function Counted(h: seq<Probe>, k: int, cfg: Settings): (n: nat)
    ensures n <= |h|
  {
    if h == [] then 0
    else Counted(h[..|h| - 1], k, cfg) + if SpanOf(h[|h| - 1], cfg) == k then 1 else 0
  }

  /** The first pair used in span `k`. */
  function First(h: seq<Probe>, k: int, cfg: Settings): Pair
    requires Counted(h, k, cfg) > 0
  {
    var init := h[..|h| - 1];
    if Counted(init, k, cfg) > 0 then First(init, k, cfg) else h[|h| - 1].pair
  }

  function SeqsIn(h: seq<Probe>, k: int, cfg: Settings): set<u64> {
    set i | 0 <= i < |h| && SpanOf(h[i], cfg) == k :: h[i].seqNo
  }

  /** The report a later span owes about span `k`. */
  function Owed(h: seq<Probe>, k: int, cfg: Settings): S.LastSpan
    requires 0 < Counted(h, k, cfg) < 0x1_0000_0000
  {
    S.LastSpan(Counted(h, k, cfg), First(h, k, cfg).src, First(h, k, cfg).dst)
  }

  predicate Monotone(h: seq<Probe>, cfg: Settings) {
    forall i, j :: 0 <= i < j < |h| ==> SpanOf(h[i], cfg) <= SpanOf(h[j], cfg)
  }

  /** Sequence numbers and pairs are determined by the position in the history. */
  predicate Regular(h: seq<Probe>, cfg: Settings) {
    forall i :: 0 <= i < |h| ==>
      h[i].seqNo == (cfg.firstSeq + 1 + i) % 0x1_0000_0000_0000_0000
      && h[i].pair == Iterate(StartPair(cfg), i + 1, cfg.ranges)
  }

  ghost predicate Bounded(h: seq<Probe>, cfg: Settings) {
    forall k :: Counted(h, k, cfg) < 0x1_0000_0000
  }

  /** A probe of a span right after a non-empty span reports that span's count and first pair. */
  ghost predicate TellsPrevious(p: Probe, h: seq<Probe>, cfg: Settings) {
    var k := SpanOf(p, cfg) - 1;
    0 < Counted(h, k, cfg) < 0x1_0000_0000 ==> p.last == Owed(h, k, cfg)
  }

  ghost predicate HistoryOk(h: seq<Probe>, cfg: Settings) {
    && Monotone(h, cfg) && Regular(h, cfg) && Bounded(h, cfg)
    && (forall i :: 0 <= i < |h| ==> SpanOf(h[i], cfg) >= 1)
    && forall i :: 0 <= i < |h| ==> TellsPrevious(h[i], h, cfg)
  }

  /** The loop variables summarise the history. */
  ghost predicate ClientOk(c: Client, h: seq<Probe>, cfg: Settings) {
    && HistoryOk(h, cfg)
    && c.seqNo == (cfg.firstSeq + |h|) % 0x1_0000_0000_0000_0000
    && c.pair == Iterate(StartPair(cfg), |h|, cfg.ranges)
    && if h == [] then c == InitClient(cfg) else
         var k := SpanOf(h[|h| - 1], cfg);
         && c.bucketID == k
         && Counted(h, k, cfg) > 0
         && c.curSent == Counted(h, k, cfg)
         && c.curStart == First(h, k, cfg)
         && h[|h| - 1].last == S.LastSpan(c.lastSent, c.lastStart.src, c.lastStart.dst)
  }

  /** When the loop may count a probe: the clock does not run back and no span overflows 32 bits. */
  predicate MaySend(h: seq<Probe>, ts: nat, cfg: Settings) {
    && ts >= cfg.span
    && (h != [] ==> h[|h| - 1].ts <= ts)
    && Counted(h, ts / cfg.span, cfg) + 1 < 0x1_0000_0000
  }

  lemma CountedAppend(h: seq<Probe>, x: Probe, k: int, cfg: Settings)
    ensures Counted(h + [x], k, cfg) == Counted(h, k, cfg) + if SpanOf(x, cfg) == k then 1 else 0
    ensures Counted(h, k, cfg) > 0 ==> First(h + [x], k, cfg) == First(h, k, cfg)
    ensures Counted(h, k, cfg) == 0 && SpanOf(x, cfg) == k ==> First(h + [x], k, cfg) == x.pair
    ensures SeqsIn(h + [x], k, cfg) == SeqsIn(h, k, cfg) + if SpanOf(x, cfg) == k then {x.seqNo} else {}
  {
    assert (h + [x])[..|h|] == h;
    var g := h + [x];
    assert forall i :: 0 <= i < |h| ==> g[i] == h[i];
    assert g[|h|] == x;
    assert forall q :: q in SeqsIn(h, k, cfg) ==> q in SeqsIn(g, k, cfg) by {
      forall q | q in SeqsIn(h, k, cfg) ensures q in SeqsIn(g, k, cfg) {
        var i :| 0 <= i < |h| && SpanOf(h[i], cfg) == k && h[i].seqNo == q;
        assert SpanOf(g[i], cfg) == k && g[i].seqNo == q;
      }
    }
    if SpanOf(x, cfg) == k {
      assert SpanOf(g[|h|], cfg) == k;
      assert x.seqNo in SeqsIn(g, k, cfg);
    }
  }

  /** A span with a probe in it is counted. */
  lemma {:induction false} CountedPositive(h: seq<Probe>, i: int, cfg: Settings)
    requires 0 <= i < |h|
    ensures Counted(h, SpanOf(h[i], cfg), cfg) > 0
  {
    if i < |h| - 1 { CountedPositive(h[..|h| - 1], i, cfg); }
  }

  /** A counted span has a probe in it. */
  lemma {:induction false} CountedWitness(h: seq<Probe>, k: int, cfg: Settings) returns (i: int)
    requires Counted(h, k, cfg) > 0
    ensures 0 <= i < |h| && SpanOf(h[i], cfg) == k
  {
    if SpanOf(h[|h| - 1], cfg) == k { return |h| - 1; }
    i := CountedWitness(h[..|h| - 1], k, cfg);
  }

  /** What one pass leaves in the current-span variables, in terms of the history before it. */
  lemma CurrentFacts(c: Client, h: seq<Probe>, ts: nat, cfg: Settings)
    requires ClientOk(c, h, cfg) && MaySend(h, ts, cfg)
    ensures var c', k := AfterSend(c, ts, cfg), ts / cfg.span;
      && c'.bucketID == k
      && c'.curSent == Counted(h, k, cfg) + 1
      && c'.curStart == (if Counted(h, k, cfg) > 0 then First(h, k, cfg) else c'.pair)
  {
    SpanIsNewest(h, ts, cfg);
    var k := ts / cfg.span;
    if h == [] || SpanOf(h[|h| - 1], cfg) != k { NoneYet(h, k, cfg); }
  }

  /** What one pass leaves in the last-span variables. */
  lemma LastFacts(c: Client, h: seq<Probe>, ts: nat, cfg: Settings)
    requires ClientOk(c, h, cfg) && MaySend(h, ts, cfg) && h != []
    ensures var c', j := AfterSend(c, ts, cfg), SpanOf(h[|h| - 1], cfg);
      && Counted(h, j, cfg) > 0
      && S.LastSpan(c'.lastSent, c'.lastStart.src, c'.lastStart.dst)
         == if j == ts / cfg.span then h[|h| - 1].last else Owed(h, j, cfg)
  {
  }

  /** The probe just counted reports the span before its own. */
  lemma NewProbeTells(c: Client, h: seq<Probe>, ts: nat, onWire: bool, cfg: Settings)
    requires ClientOk(c, h, cfg) && MaySend(h, ts, cfg)
    ensures TellsPrevious(ProbeSent(AfterSend(c, ts, cfg), ts, onWire), h, cfg)
  {
    var k := ts / cfg.span;
    SpanIsNewest(h, ts, cfg);
    if Counted(h, k - 1, cfg) > 0 {
      LastFacts(c, h, ts, cfg);
      var w := CountedWitness(h, k - 1, cfg);
      assert SpanOf(h[w], cfg) <= SpanOf(h[|h| - 1], cfg);
      assert TellsPrevious(h[|h| - 1], h, cfg);
    }
  }

  /** The very first probe has no span to report: it carries the configured rate, and the first ports of the
      ranges. */
  lemma FirstProbeReportsRate(ts: nat, onWire: bool, cfg: Settings)
    requires ts >= cfg.span
    ensures var x := ProbeSent(AfterSend(InitClient(cfg), ts, cfg), ts, onWire);
      && x.last == S.LastSpan(cfg.rateInSpan % 0x1_0000_0000, cfg.ranges.client.min % 0x1_0000, cfg.ranges.server.min % 0x1_0000)
      && x.seqNo == (cfg.firstSeq + 1) % 0x1_0000_0000_0000_0000
      && x.pair == GetNextPorts(Pair(cfg.ranges.client.min % 0x1_0000, cfg.ranges.server.min % 0x1_0000), cfg.ranges)
  {
    DivMonotone(cfg.span, ts, cfg.span);
    DivModUnique(cfg.span, cfg.span, 1, 0);
  }

  /** What a probe says about the span before its own stays true while newer probes are counted. */
  lemma TellsPreviousAppend(p: Probe, h: seq<Probe>, x: Probe, cfg: Settings)
    requires TellsPrevious(p, h, cfg) && SpanOf(p, cfg) <= SpanOf(x, cfg)
    ensures TellsPrevious(p, h + [x], cfg)
  {
    CountedAppend(h, x, SpanOf(p, cfg) - 1, cfg);
  }

  /** One pass of the send loop keeps the history right. */
  lemma SendKeepsHistoryOk(c: Client, h: seq<Probe>, ts: nat, onWire: bool, cfg: Settings)
    requires ClientOk(c, h, cfg) && MaySend(h, ts, cfg)
    ensures HistoryOk(h + [ProbeSent(AfterSend(c, ts, cfg), ts, onWire)], cfg)
  {
    var x := ProbeSent(AfterSend(c, ts, cfg), ts, onWire);
    var g := h + [x];
    SpanIsNewest(h, ts, cfg);
    assert Monotone(g, cfg);
    forall i | 0 <= i < |g| ensures SpanOf(g[i], cfg) >= 1 {}
    RegularAppend(c, h, x, cfg);
    forall j ensures Counted(g, j, cfg) < 0x1_0000_0000 { CountedAppend(h, x, j, cfg); }
    NewProbeTells(c, h, ts, onWire, cfg);
    forall i | 0 <= i < |g| ensures TellsPrevious(g[i], g, cfg) {
      if i < |h| { assert TellsPrevious(h[i], h, cfg); }
      TellsPreviousAppend(g[i], h, x, cfg);
    }
  }

  /** One pass of the send loop keeps the summary right. */
  lemma SendKeepsClientOk(c: Client, h: seq<Probe>, ts: nat, onWire: bool, cfg: Settings)
    requires ClientOk(c, h, cfg) && MaySend(h, ts, cfg)
    ensures ClientOk(AfterSend(c, ts, cfg), h + [ProbeSent(AfterSend(c, ts, cfg), ts, onWire)], cfg)
  {
    var c' := AfterSend(c, ts, cfg);
    var x := ProbeSent(c', ts, onWire);
    SendKeepsHistoryOk(c, h, ts, onWire, cfg);
    CurrentFacts(c, h, ts, cfg);
    CountedAppend(h, x, SpanOf(x, cfg), cfg);
    RegularAppend(c, h, x, cfg);
  }

  lemma RegularAppend(c: Client, h: seq<Probe>, x: Probe, cfg: Settings)
    requires Regular(h, cfg)
    requires c.seqNo == (cfg.firstSeq + |h|) % 0x1_0000_0000_0000_0000 && c.pair == Iterate(StartPair(cfg), |h|, cfg.ranges)
    requires x.seqNo == (c.seqNo + 1) % 0x1_0000_0000_0000_0000 && x.pair == GetNextPorts(c.pair, cfg.ranges)
    ensures Regular(h + [x], cfg) && x.seqNo == (cfg.firstSeq + |h + [x]|) % 0x1_0000_0000_0000_0000
  {
    var g := h + [x];
    NextNumber(cfg.firstSeq, |h|);
    forall i | 0 <= i < |g|
      ensures g[i].seqNo == (cfg.firstSeq + 1 + i) % 0x1_0000_0000_0000_0000 && g[i].pair == Iterate(StartPair(cfg), i + 1, cfg.ranges)
    {
      if i < |h| { assert g[i] == h[i]; }
    }
  }

  lemma NextNumber(first: int, n: nat)
    ensures ((first + n) % 0x1_0000_0000_0000_0000 + 1) % 0x1_0000_0000_0000_0000 == (first + 1 + n) % 0x1_0000_0000_0000_0000
  {
  }

  lemma SpanIsNewest(h: seq<Probe>, ts: nat, cfg: Settings)
    requires Monotone(h, cfg) && MaySend(h, ts, cfg)
    ensures ts / cfg.span >= 1
    ensures forall i :: 0 <= i < |h| ==> SpanOf(h[i], cfg) <= ts / cfg.span
  {
    DivMonotone(cfg.span, ts, cfg.span);
    if h != [] { DivMonotone(h[|h| - 1].ts, ts, cfg.span); }
  }

  lemma {:induction false} NoneYet(h: seq<Probe>, k: int, cfg: Settings)
    requires forall i :: 0 <= i < |h| ==> SpanOf(h[i], cfg) < k
    ensures Counted(h, k, cfg) == 0
  {
    if h != [] { NoneYet(h[..|h| - 1], k, cfg); }
  }
}
