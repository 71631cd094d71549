/** Counting facts about a client's history: distinct sequence numbers, and pairs per span. */
module SpanHistory {
  import opened Machine
  import opened Odometer
  import opened SpanClient

  /** The hypotheses on one span that survive taking a prefix of the history. */
  predicate SpanOk(h: seq<Probe>, k: int, cfg: Settings) {
    Monotone(h, cfg) && Regular(h, cfg) && Counted(h, k, cfg) < 0x1_0000_0000
  }

  lemma PrefixOk(h: seq<Probe>, k: int, cfg: Settings)
    requires h != [] && SpanOk(h, k, cfg)
    ensures SpanOk(h[..|h| - 1], k, cfg)
  {
  }

  /** The probes of span `k` are the `n` probes from position `a` on. */
  predicate IsBlock(h: seq<Probe>, k: int, a: nat, n: nat, cfg: Settings) {
    a + n <= |h| && forall i :: 0 <= i < |h| ==> (SpanOf(h[i], cfg) == k <==> a <= i < a + n)
  }

  lemma BlockStays(h: seq<Probe>, k: int, a: nat, n: nat, cfg: Settings)
    requires h != [] && IsBlock(h[..|h| - 1], k, a, n, cfg) && SpanOf(h[|h| - 1], cfg) != k
    ensures IsBlock(h, k, a, n, cfg)
  {
    forall i | 0 <= i < |h| ensures SpanOf(h[i], cfg) == k <==> a <= i < a + n {
      if i < |h| - 1 { assert h[..|h| - 1][i] == h[i]; }
    }
  }

  /** A newer probe of the span stands right behind the others, since spans do not go back. */
  lemma BlockGrows(h: seq<Probe>, k: int, a: nat, n: nat, cfg: Settings)
    requires h != [] && Monotone(h, cfg) && IsBlock(h[..|h| - 1], k, a, n, cfg) && SpanOf(h[|h| - 1], cfg) == k
    ensures IsBlock(h, k, if n == 0 then |h| - 1 else a, n + 1, cfg)
  {
    var init, m := h[..|h| - 1], |h| - 1;
    forall i | 0 <= i < m ensures SpanOf(h[i], cfg) == SpanOf(init[i], cfg) <= k { assert init[i] == h[i]; }
    if n > 0 {
      assert SpanOf(h[a], cfg) == SpanOf(init[a], cfg) == k;
      assert SpanOf(h[a], cfg) <= SpanOf(h[m - 1], cfg);
      assert SpanOf(init[m - 1], cfg) == k;
    }
  }

  /** The probes of one span are consecutive. */
  lemma {:induction false} Block(h: seq<Probe>, k: int, cfg: Settings) returns (a: nat)
    requires Monotone(h, cfg)
    ensures IsBlock(h, k, a, Counted(h, k, cfg), cfg)
    ensures Counted(h, k, cfg) > 0 ==> First(h, k, cfg) == h[a].pair
  {
    if h == [] { return 0; }
    var init := h[..|h| - 1];
    a := Block(init, k, cfg);
    var n := Counted(init, k, cfg);
    if SpanOf(h[|h| - 1], cfg) == k {
      BlockGrows(h, k, a, n, cfg);
      if n == 0 { a := |h| - 1; }
    } else {
      BlockStays(h, k, a, n, cfg);
    }
  }

  lemma ModDistinct(a: int, d: int)
    requires 0 < d < 0x1_0000_0000
    ensures a % 0x1_0000_0000_0000_0000 != (a + d) % 0x1_0000_0000_0000_0000
  {
  }

  /** Within a span no sequence number repeats, even across 64-bit wrap-around. */
  lemma SeqsDistinct(h: seq<Probe>, k: int, i: int, j: int, cfg: Settings)
    requires SpanOk(h, k, cfg) && 0 <= i < j < |h|
    requires SpanOf(h[i], cfg) == k && SpanOf(h[j], cfg) == k
    ensures h[i].seqNo != h[j].seqNo
  {
    var a := Block(h, k, cfg);
    ModDistinct(cfg.firstSeq + 1 + i, j - i);
    assert cfg.firstSeq + 1 + i + (j - i) == cfg.firstSeq + 1 + j;
  }

  /** A span has exactly as many sequence numbers as probes counted. */
  lemma {:induction false} SeqsCard(h: seq<Probe>, k: int, cfg: Settings)
    requires SpanOk(h, k, cfg)
    ensures |SeqsIn(h, k, cfg)| == Counted(h, k, cfg)
  {
    if h == [] {
      assert SeqsIn(h, k, cfg) == {};
      return;
    }
    var init, x := h[..|h| - 1], h[|h| - 1];
    assert h == init + [x];
    PrefixOk(h, k, cfg);
    SeqsCard(init, k, cfg);
    CountedAppend(init, x, k, cfg);
    if SpanOf(x, cfg) == k && x.seqNo in SeqsIn(init, k, cfg) {
      var i :| 0 <= i < |init| && SpanOf(init[i], cfg) == k && init[i].seqNo == x.seqNo;
      SeqsDistinct(h, k, i, |h| - 1, cfg);
      assert false;
    }
  }

  /** How many probes of span `k` used pair `q`. */
  function SentOn(h: seq<Probe>, k: int, q: Pair, cfg: Settings): nat {
    if h == [] then 0 else
      var init, x := h[..|h| - 1], h[|h| - 1];
      if SpanOf(x, cfg) == k && x.pair == q then SentOn(init, k, q, cfg) + 1 else SentOn(init, k, q, cfg)
  }

  /** How many of them are not among the recorded sequence numbers. */
  function LostOn(h: seq<Probe>, k: int, q: Pair, recorded: set<u64>, cfg: Settings): nat {
    if h == [] then 0 else
      var init, x := h[..|h| - 1], h[|h| - 1];
      if SpanOf(x, cfg) == k && x.pair == q && x.seqNo !in recorded
      then LostOn(init, k, q, recorded, cfg) + 1 else LostOn(init, k, q, recorded, cfg)
  }

  /** The recorded sequence numbers of span `k` that used pair `q`. */
  function RecordedOn(h: seq<Probe>, k: int, q: Pair, recorded: set<u64>, cfg: Settings): set<u64> {
    if h == [] then {} else
      var init, x := h[..|h| - 1], h[|h| - 1];
      if SpanOf(x, cfg) == k && x.pair == q && x.seqNo in recorded
      then RecordedOn(init, k, q, recorded, cfg) + {x.seqNo} else RecordedOn(init, k, q, recorded, cfg)
  }

  /** A probe of span `k` on pair `q` with this sequence number exists. */
  predicate Used(h: seq<Probe>, k: int, q: Pair, seqNo: u64, cfg: Settings) {
    exists i :: 0 <= i < |h| && SpanOf(h[i], cfg) == k && h[i].seqNo == seqNo && h[i].pair == q
  }

  lemma {:induction false} RecordedOnMembers(h: seq<Probe>, k: int, q: Pair, recorded: set<u64>, s: u64, cfg: Settings)
    ensures s in RecordedOn(h, k, q, recorded, cfg) <==> s in recorded && Used(h, k, q, s, cfg)
  {
    if h != [] {
      var init, x := h[..|h| - 1], h[|h| - 1];
      RecordedOnMembers(init, k, q, recorded, s, cfg);
      assert h[|h| - 1] == x;
      if i :| 0 <= i < |init| && SpanOf(init[i], cfg) == k && init[i].seqNo == s && init[i].pair == q {
        assert h[i] == init[i];
      }
    }
  }

  /** Every probe on a pair is either recorded or lost. */
  lemma {:induction false} SentIsRecordedOrLost(h: seq<Probe>, k: int, q: Pair, recorded: set<u64>, cfg: Settings)
    requires SpanOk(h, k, cfg)
    ensures SentOn(h, k, q, cfg) == |RecordedOn(h, k, q, recorded, cfg)| + LostOn(h, k, q, recorded, cfg)
  {
    if h != [] {
      var init, x := h[..|h| - 1], h[|h| - 1];
      PrefixOk(h, k, cfg);
      SentIsRecordedOrLost(init, k, q, recorded, cfg);
      if SpanOf(x, cfg) == k {
        NewestIsNew(h, k, q, recorded, cfg);
      }
    }
  }

  lemma NewestIsNew(h: seq<Probe>, k: int, q: Pair, recorded: set<u64>, cfg: Settings)
    requires h != [] && SpanOk(h, k, cfg) && SpanOf(h[|h| - 1], cfg) == k
    ensures h[|h| - 1].seqNo !in RecordedOn(h[..|h| - 1], k, q, recorded, cfg)
  {
    var init, x := h[..|h| - 1], h[|h| - 1];
    RecordedOnMembers(init, k, q, recorded, x.seqNo, cfg);
    if i :| 0 <= i < |init| && SpanOf(init[i], cfg) == k && init[i].seqNo == x.seqNo && init[i].pair == q {
      SeqsDistinct(h, k, i, |h| - 1, cfg);
    }
  }

  lemma {:induction false} IterateAdd(p: Pair, m: nat, n: nat, r: Ranges)
    ensures Iterate(Iterate(p, m, r), n, r) == Iterate(p, m + n, r)
  {
    if n > 0 { IterateAdd(p, m, n - 1, r); }
  }

  lemma LastPairInSpan(h: seq<Probe>, k: int, cfg: Settings)
    requires h != [] && SpanOk(h, k, cfg) && SpanOf(h[|h| - 1], cfg) == k
    ensures h[|h| - 1].pair == Iterate(First(h, k, cfg), Counted(h, k, cfg) - 1, cfg.ranges)
  {
    var a := Block(h, k, cfg);
    var n := Counted(h, k, cfg);
    assert SpanOf(h[|h| - 1], cfg) == k && a + n == |h|;
    IterateAdd(StartPair(cfg), a + 1, n - 1, cfg.ranges);
  }

  /** The pairs of span `k` in the order they were used. */
  function PairsIn(h: seq<Probe>, k: int, cfg: Settings): seq<Pair> {
    if h == [] then [] else
      var init, x := h[..|h| - 1], h[|h| - 1];
      if SpanOf(x, cfg) == k then PairsIn(init, k, cfg) + [x.pair] else PairsIn(init, k, cfg)
  }

  lemma {:induction false} SentOnCounts(h: seq<Probe>, k: int, q: Pair, cfg: Settings)
    ensures SentOn(h, k, q, cfg) == multiset(PairsIn(h, k, cfg))[q]
    ensures |PairsIn(h, k, cfg)| == Counted(h, k, cfg)
  {
    if h != [] { SentOnCounts(h[..|h| - 1], k, q, cfg); }
  }

  /** The pairs used in a span are the walk that starts at its first pair. */
  lemma {:induction false} PairsAreRun(h: seq<Probe>, k: int, cfg: Settings)
    requires SpanOk(h, k, cfg) && Counted(h, k, cfg) > 0
    ensures PairsIn(h, k, cfg) == Run(First(h, k, cfg), Counted(h, k, cfg), cfg.ranges)
  {
    var init := h[..|h| - 1];
    var n := Counted(init, k, cfg);
    if n > 0 {
      PrefixOk(h, k, cfg);
      PairsAreRun(init, k, cfg);
    } else {
      SentOnCounts(init, k, h[|h| - 1].pair, cfg);
    }
    if SpanOf(h[|h| - 1], cfg) == k {
      LastPairInSpan(h, k, cfg);
    }
  }
}
