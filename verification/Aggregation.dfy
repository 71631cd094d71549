/** The loops that turn a bucket's entries into a report, for any iteration order of the map. */
module Aggregation {
  import opened Machine
  import opened Odometer
  import opened PortKeys
  import opened BucketStats
  import S = BucketStore

  type Requests = map<u64, S.Request>

  // ----- sums over entries -----

  /** The sum of the round-trip times of the entries in `ks`. */
  ghost function SumRtt(m: Requests, ks: set<u64>): int
    requires ks <= m.Keys
  {
    if ks == {} then 0 else
      var k :| k in ks;
      m[k].rtt + SumRtt(m, ks - {k})
  }

  lemma {:induction false} SumRttSplit(m: Requests, ks: set<u64>, k: u64)
    requires ks <= m.Keys && k in ks
    ensures SumRtt(m, ks) == m[k].rtt + SumRtt(m, ks - {k})
  {
    var j :| j in ks && SumRtt(m, ks) == m[j].rtt + SumRtt(m, ks - {j});
    if j != k {
      SumRttSplit(m, ks - {j}, k);
      SumRttSplit(m, ks - {k}, j);
      assert ks - {j} - {k} == ks - {k} - {j};
    }
  }

  lemma SumRttAdd(m: Requests, ks: set<u64>, k: u64)
    requires ks <= m.Keys && k in m && k !in ks
    ensures SumRtt(m, ks + {k}) == m[k].rtt + SumRtt(m, ks)
  {
    SumRttSplit(m, ks + {k}, k);
    assert ks + {k} - {k} == ks;
  }

  // ----- per-pair tables -----

  /** The entries a table counts: flipped answers, or probes without an answer. */
  predicate Selected(r: S.Request, flips: bool) {
    if flips then r.rtt != S.RTT_UNSET && r.hasBitflip else r.rtt == S.RTT_UNSET
  }

  function PairOf(r: S.Request): Pair { Pair(r.clientPort, r.serverPort) }

  function Chosen(m: Requests, ks: set<u64>, flips: bool): set<u64> {
    set q | q in ks && q in m && Selected(m[q], flips)
  }

  function ChosenOn(m: Requests, ks: set<u64>, flips: bool, p: Pair): set<u64> {
    set q | q in Chosen(m, ks, flips) && PairOf(m[q]) == p
  }

  /** The table counts the chosen entries of every pair, and nothing else. */
  ghost predicate Tallies(t: map<string, nat>, m: Requests, ks: set<u64>, flips: bool) {
    && (forall p :: CountAt(t, Key(p)) == |ChosenOn(m, ks, flips, p)|)
    && Total(t) == |Chosen(m, ks, flips)|
  }

  lemma TalliesSkip(t: map<string, nat>, m: Requests, ks: set<u64>, k: u64, flips: bool)
    requires Tallies(t, m, ks, flips) && k in m && !Selected(m[k], flips)
    ensures Tallies(t, m, ks + {k}, flips)
  {
    assert Chosen(m, ks + {k}, flips) == Chosen(m, ks, flips);
    forall p ensures CountAt(t, Key(p)) == |ChosenOn(m, ks + {k}, flips, p)| {
      assert ChosenOn(m, ks + {k}, flips, p) == ChosenOn(m, ks, flips, p);
    }
  }

  lemma ChosenOnAdd(m: Requests, ks: set<u64>, k: u64, flips: bool, p: Pair)
    requires k in m && k !in ks && Selected(m[k], flips)
    ensures |Chosen(m, ks + {k}, flips)| == |Chosen(m, ks, flips)| + 1
    ensures |ChosenOn(m, ks + {k}, flips, p)| == |ChosenOn(m, ks, flips, p)| + if p == PairOf(m[k]) then 1 else 0
  {
    assert Chosen(m, ks + {k}, flips) == Chosen(m, ks, flips) + {k};
    if p == PairOf(m[k]) {
      assert ChosenOn(m, ks + {k}, flips, p) == ChosenOn(m, ks, flips, p) + {k};
    } else {
      assert ChosenOn(m, ks + {k}, flips, p) == ChosenOn(m, ks, flips, p);
    }
  }

  lemma TalliesCount(t: map<string, nat>, m: Requests, ks: set<u64>, k: u64, flips: bool)
    requires Tallies(t, m, ks, flips) && k in m && k !in ks && Selected(m[k], flips)
    ensures Tallies(t[Key(PairOf(m[k])) := CountAt(t, Key(PairOf(m[k]))) + 1], m, ks + {k}, flips)
  {
    var key := Key(PairOf(m[k]));
    var t' := t[key := CountAt(t, key) + 1];
    TotalIncrement(t, key);
    ChosenOnAdd(m, ks, k, flips, PairOf(m[k]));
    forall p ensures CountAt(t', Key(p)) == |ChosenOn(m, ks + {k}, flips, p)| {
      ChosenOnAdd(m, ks, k, flips, p);
      if Key(p) == key { KeyInjective(p, PairOf(m[k])); }
    }
  }

  /** The table names one destination for each source port of a chosen entry, and no other port. */
  ghost predicate OneEach(t: map<u16, u16>, m: Requests, ks: set<u64>, flips: bool) {
    && (forall q :: q in Chosen(m, ks, flips) ==> m[q].clientPort in t)
    && (forall src :: src in t ==> exists q :: q in Chosen(m, ks, flips) && PairOf(m[q]) == Pair(src, t[src]))
  }

  lemma OneEachSkip(t: map<u16, u16>, m: Requests, ks: set<u64>, k: u64, flips: bool)
    requires OneEach(t, m, ks, flips) && k in m && !Selected(m[k], flips)
    ensures OneEach(t, m, ks + {k}, flips)
  {
    assert Chosen(m, ks + {k}, flips) == Chosen(m, ks, flips);
  }

  lemma OneEachAdd(t: map<u16, u16>, m: Requests, ks: set<u64>, k: u64, flips: bool)
    requires OneEach(t, m, ks, flips) && k in m && Selected(m[k], flips)
    ensures OneEach(t[m[k].clientPort := m[k].serverPort], m, ks + {k}, flips)
  {
    var t' := t[m[k].clientPort := m[k].serverPort];
    assert Chosen(m, ks + {k}, flips) == Chosen(m, ks, flips) + {k};
    forall src | src in t' ensures exists q :: q in Chosen(m, ks + {k}, flips) && PairOf(m[q]) == Pair(src, t'[src]) {
      if src == m[k].clientPort {
        assert PairOf(m[k]) == Pair(src, t'[src]);
      } else {
        var q :| q in Chosen(m, ks, flips) && PairOf(m[q]) == Pair(src, t[src]);
        assert q in Chosen(m, ks + {k}, flips);
      }
    }
  }

  // ----- the client side -----

  function RstAnswers(m: Requests, ks: set<u64>): set<u64> {
    set q | q in ks && q in m && m[q].rtt != S.RTT_UNSET && m[q].isRst
  }

  function AnswersIn(m: Requests, ks: set<u64>): set<u64> {
    set q | q in ks && q in m && m[q].rtt != S.RTT_UNSET
  }

  /** The largest recorded round-trip time, or zero if none is positive. */
  predicate IsMaxRtt(max: int, m: Requests, ks: set<u64>) {
    && max >= 0
    && (forall q :: q in AnswersIn(m, ks) ==> m[q].rtt <= max)
    && (max > 0 ==> exists q :: q in AnswersIn(m, ks) && m[q].rtt == max)
  }

  datatype StatResult = StatResult(
    sent: nat, received: nat, loss: int, rtt: i64, maxRTT: i64, synack: nat, rst: nat,
    lossPorts: map<u16, u16>, bitflipPorts: map<u16, u16>,
    lossPortsCount: map<string, nat>, bitflipPortsCount: map<string, nat>)

  const NO_RESULT := StatResult(0, 0, 0, 0, 0, 0, 0, map[], map[], map[], map[])

  /** The average as the code computes it: a wrapping 64-bit sum, divided with truncation. */
  function AverageRtt(sum: int, received: nat): int {
    Quotient(WrapI64(sum), received)
  }

  function Quotient(sum: i64, received: nat): int {
    if received > 0 then GoDiv(sum, received) else sum
  }

  /** Client-side aggregation of a bucket that has entries. */
  method ClientStat(m: Requests) returns (r: StatResult)
    ensures r.sent == |m|
    ensures r.received == |Answered(m)|
    ensures r.received == r.synack + r.rst
    ensures r.rst == |RstAnswers(m, m.Keys)|
    ensures r.loss == r.sent - r.received == Total(r.lossPortsCount)
    ensures Tallies(r.lossPortsCount, m, m.Keys, false)
    ensures Tallies(r.bitflipPortsCount, m, m.Keys, true)
    ensures OneEach(r.lossPorts, m, m.Keys, false) && OneEach(r.bitflipPorts, m, m.Keys, true)
    ensures r.rtt == AverageRtt(SumRtt(m, Answered(m)), r.received)
    ensures IsMaxRtt(r.maxRTT, m, m.Keys)
  {
    r := Tally(m);
    NothingLeft(r, m);
    AllAccounted(r, m);
    var avg := Average(r.rtt, r.received);
    r := r.(loss := r.sent - r.received, rtt := avg);
  }

  /** Resets and answers, by the recorded fields. */
  lemma AnswersMean(m: Requests)
    ensures RstAnswers(m, m.Keys) == set q | q in m && m[q].rtt != -1 && m[q].isRst
    ensures Answered(m) == set q | q in m && m[q].rtt != -1
  {
  }

  /** The maximum is no less than any recorded time, and is one of them unless it is zero. */
  lemma MaxMeans(max: int, m: Requests)
    requires IsMaxRtt(max, m, m.Keys)
    ensures max >= 0 && (forall q :: q in m && m[q].rtt != -1 ==> m[q].rtt <= max)
    ensures max == 0 || exists q :: q in m && m[q].rtt != -1 && m[q].rtt == max
  {
    AnswersMean(m);
    assert AnswersIn(m, m.Keys) == Answered(m);
  }

  /** What a right table holds: for each pair, under its key, how many of its entries have no answer or,
      for flips, how many of its answers are flipped; and in all as many as there are. */
  lemma TalliesMean(t: map<string, nat>, m: Requests, flips: bool, p: Pair)
    requires Tallies(t, m, m.Keys, flips)
    ensures CountAt(t, Decimal(p.src) + "-" + Decimal(p.dst))
         == |set q | q in m && m[q].clientPort == p.src && m[q].serverPort == p.dst
                     && if flips then m[q].rtt != -1 && m[q].hasBitflip else m[q].rtt == -1|
    ensures Total(t) == |set q | q in m && if flips then m[q].rtt != -1 && m[q].hasBitflip else m[q].rtt == -1|
  {
    assert ChosenOn(m, m.Keys, flips, p)
        == set q | q in m && m[q].clientPort == p.src && m[q].serverPort == p.dst
                   && if flips then m[q].rtt != -1 && m[q].hasBitflip else m[q].rtt == -1;
    assert Chosen(m, m.Keys, flips) == set q | q in m && if flips then m[q].rtt != -1 && m[q].hasBitflip else m[q].rtt == -1;
    assert Key(p) == Decimal(p.src) + "-" + Decimal(p.dst);
  }

  /** All but the entries in `todo` are accounted for. */
  ghost predicate AccountedBut(r: StatResult, m: Requests, todo: set<u64>) {
    todo <= m.Keys && Accounted(r, m, m.Keys - todo)
  }

  method AccountNext(m: Requests, todo: set<u64>, r0: StatResult) returns (rest: set<u64>, r: StatResult)
    requires todo != {} && AccountedBut(r0, m, todo)
    ensures rest < todo && AccountedBut(r, m, rest)
  {
    var k :| k in todo;
    r := Account(m, m.Keys - todo, k, r0);
    rest := todo - {k};
    assert m.Keys - rest == m.Keys - todo + {k};
  }

  lemma NothingDone(m: Requests)
    ensures AccountedBut(NO_RESULT, m, m.Keys)
  {
    NothingAccounted(m);
    assert m.Keys - m.Keys == {};
  }

  /** The loop over all entries, in any order. */
  method Tally(m: Requests) returns (r: StatResult)
    ensures AccountedBut(r, m, {})
  {
    r := NO_RESULT;
    var todo := m.Keys;
    NothingDone(m);
    while todo != {}
      invariant AccountedBut(r, m, todo)
      decreases todo
    {
      todo, r := AccountNext(m, todo, r);
    }
  }

  method Average(sum: i64, received: nat) returns (avg: i64)
    ensures avg == Quotient(sum, received)
  {
    avg := sum;
    if received > 0 {
      avg := GoDiv(avg, received);
    }
  }

  ghost predicate NumbersOk(r: StatResult, m: Requests, ks: set<u64>)
    requires ks <= m.Keys
  {
    && r.sent == |ks|
    && r.received == |AnswersIn(m, ks)| == r.synack + r.rst
    && r.rst == |RstAnswers(m, ks)|
    && WrapsTo(m, ks, r.rtt)
    && IsMaxRtt(r.maxRTT, m, ks)
  }

  ghost predicate TablesOk(r: StatResult, m: Requests, ks: set<u64>) {
    && Tallies(r.lossPortsCount, m, ks, false) && Tallies(r.bitflipPortsCount, m, ks, true)
    && OneEach(r.lossPorts, m, ks, false) && OneEach(r.bitflipPorts, m, ks, true)
  }

  /** The counters and tables are right for the entries in `ks`. */
  ghost predicate Accounted(r: StatResult, m: Requests, ks: set<u64>) {
    ks <= m.Keys && NumbersOk(r, m, ks) && TablesOk(r, m, ks)
  }

  lemma NothingLeft(r: StatResult, m: Requests)
    requires AccountedBut(r, m, {})
    ensures Accounted(r, m, m.Keys)
  {
    assert m.Keys - {} == m.Keys;
  }

  lemma AllAccounted(r: StatResult, m: Requests)
    requires Accounted(r, m, m.Keys)
    ensures r.sent == |m| && r.received == |Answered(m)|
    ensures r.received == r.synack + r.rst
    ensures r.sent - r.received == Total(r.lossPortsCount)
    ensures r.rtt == WrapI64(SumRtt(m, Answered(m)))
  {
    assert AnswersIn(m, m.Keys) == Answered(m);
    PartitionCard(m);
  }

  /** The wrapped sum of the answered round-trip times. */
  ghost predicate WrapsTo(m: Requests, ks: set<u64>, sum: i64)
    requires ks <= m.Keys
  {
    sum == WrapI64(SumRtt(m, AnswersIn(m, ks)))
  }

  lemma NothingTallied(m: Requests)
    ensures Tallies(map[], m, {}, false) && Tallies(map[], m, {}, true)
  {
    assert Chosen(m, {}, false) == {} && Chosen(m, {}, true) == {};
    forall p ensures |ChosenOn(m, {}, false, p)| == 0 && |ChosenOn(m, {}, true, p)| == 0 {
      assert ChosenOn(m, {}, false, p) == {} && ChosenOn(m, {}, true, p) == {};
    }
  }

  lemma NothingAccounted(m: Requests)
    ensures Accounted(NO_RESULT, m, {})
  {
    NothingTallied(m);
    assert AnswersIn(m, {}) == {} && RstAnswers(m, {}) == {};
    assert Chosen(m, {}, false) == {} && Chosen(m, {}, true) == {};
  }

  lemma PartitionCard(m: Requests)
    ensures |m| == |Answered(m)| + |Chosen(m, m.Keys, false)|
  {
    assert m.Keys == Answered(m) + Chosen(m, m.Keys, false);
  }

  lemma AnswerAdds(m: Requests, ks: set<u64>, k: u64)
    requires ks <= m.Keys && k in m && k !in ks && m[k].rtt != S.RTT_UNSET
    ensures AnswersIn(m, ks + {k}) == AnswersIn(m, ks) + {k}
    ensures |RstAnswers(m, ks + {k})| == |RstAnswers(m, ks)| + if m[k].isRst then 1 else 0
  {
    if m[k].isRst {
      assert RstAnswers(m, ks + {k}) == RstAnswers(m, ks) + {k};
    } else {
      assert RstAnswers(m, ks + {k}) == RstAnswers(m, ks);
    }
  }

  lemma SumAdds(m: Requests, ks: set<u64>, k: u64, sum: i64)
    requires ks <= m.Keys && k in m && k !in ks && m[k].rtt != S.RTT_UNSET && WrapsTo(m, ks, sum)
    ensures WrapsTo(m, ks + {k}, WrapI64(sum + m[k].rtt))
  {
    AnswerAdds(m, ks, k);
    SumRttAdd(m, AnswersIn(m, ks), k);
    WrapI64Add(SumRtt(m, AnswersIn(m, ks)), m[k].rtt);
  }

  lemma SilenceAdds(m: Requests, ks: set<u64>, k: u64)
    requires ks <= m.Keys && k in m && m[k].rtt == S.RTT_UNSET
    ensures AnswersIn(m, ks + {k}) == AnswersIn(m, ks) && RstAnswers(m, ks + {k}) == RstAnswers(m, ks)
  {
  }

  /** The loop body: account for one more entry. */
  method Account(m: Requests, ghost ks: set<u64>, k: u64, r0: StatResult) returns (r: StatResult)
    requires k in m && k !in ks && Accounted(r0, m, ks)
    ensures Accounted(r, m, ks + {k})
  {
    if m[k].rtt != S.RTT_UNSET {
      r := AccountAnswer(m, ks, k, r0);
    } else {
      r := AccountLoss(m, ks, k, r0);
    }
  }

  lemma SilenceKeepsNumbers(r: StatResult, m: Requests, ks: set<u64>, k: u64)
    requires ks <= m.Keys && k in m && k !in ks && m[k].rtt == S.RTT_UNSET && NumbersOk(r, m, ks)
    ensures NumbersOk(r.(sent := r.sent + 1), m, ks + {k})
  {
    SilenceAdds(m, ks, k);
  }

  /** The tables, after one more entry without an answer. */
  lemma LossTables(r: StatResult, m: Requests, ks: set<u64>, k: u64)
    requires k in m && k !in ks && m[k].rtt == S.RTT_UNSET && TablesOk(r, m, ks)
    ensures var key := Key(PairOf(m[k]));
      TablesOk(r.(lossPorts := r.lossPorts[m[k].clientPort := m[k].serverPort],
                  lossPortsCount := r.lossPortsCount[key := CountAt(r.lossPortsCount, key) + 1]), m, ks + {k})
  {
    TalliesSkip(r.bitflipPortsCount, m, ks, k, true);
    TalliesCount(r.lossPortsCount, m, ks, k, false);
    OneEachSkip(r.bitflipPorts, m, ks, k, true);
    OneEachAdd(r.lossPorts, m, ks, k, false);
  }

  method AccountLoss(m: Requests, ghost ks: set<u64>, k: u64, r0: StatResult) returns (r: StatResult)
    requires k in m && k !in ks && Accounted(r0, m, ks) && m[k].rtt == S.RTT_UNSET
    ensures Accounted(r, m, ks + {k})
  {
    var key := Key(PairOf(m[k]));
    LossTables(r0, m, ks, k);
    SilenceKeepsNumbers(r0, m, ks, k);
    r := r0.(sent := r0.sent + 1,
             lossPorts := r0.lossPorts[m[k].clientPort := m[k].serverPort],
             lossPortsCount := r0.lossPortsCount[key := CountAt(r0.lossPortsCount, key) + 1]);
  }

  /** The tables of flipped answers, after one more answer. */
  method FlipTables(m: Requests, ghost ks: set<u64>, k: u64, ports: map<u16, u16>, counts: map<string, nat>)
      returns (ports': map<u16, u16>, counts': map<string, nat>)
    requires k in m && k !in ks && m[k].rtt != S.RTT_UNSET
    requires OneEach(ports, m, ks, true) && Tallies(counts, m, ks, true)
    ensures OneEach(ports', m, ks + {k}, true) && Tallies(counts', m, ks + {k}, true)
  {
    ports', counts' := ports, counts;
    if m[k].hasBitflip {
      OneEachAdd(ports, m, ks, k, true);
      TalliesCount(counts, m, ks, k, true);
      var key := Key(PairOf(m[k]));
      ports' := ports[m[k].clientPort := m[k].serverPort];
      counts' := counts[key := CountAt(counts, key) + 1];
    } else {
      OneEachSkip(ports, m, ks, k, true);
      TalliesSkip(counts, m, ks, k, true);
    }
  }

  method AccountAnswer(m: Requests, ghost ks: set<u64>, k: u64, r0: StatResult) returns (r: StatResult)
    requires k in m && k !in ks && Accounted(r0, m, ks) && m[k].rtt != S.RTT_UNSET
    ensures Accounted(r, m, ks + {k})
  {
    var e := m[k];
    var sum := WrapI64(r0.rtt + e.rtt);
    SumAdds(m, ks, k, r0.rtt);
    AnswerAdds(m, ks, k);
    TalliesSkip(r0.lossPortsCount, m, ks, k, false);
    OneEachSkip(r0.lossPorts, m, ks, k, false);
    var ports, counts := FlipTables(m, ks, k, r0.bitflipPorts, r0.bitflipPortsCount);
    r := StatResult(
      r0.sent + 1, r0.received + 1, r0.loss, sum, if e.rtt > r0.maxRTT then e.rtt else r0.maxRTT,
      if e.isRst then r0.synack else r0.synack + 1, if e.isRst then r0.rst + 1 else r0.rst,
      r0.lossPorts, ports, r0.lossPortsCount, counts);
  }

  // ----- what the average means -----

  lemma MulSucc(n: int, x: int)
    ensures (n + 1) * x == n * x + x
  {
  }

  lemma MulLast(n: int, x: int)
    ensures n * x == (n - 1) * x + x
  {
  }

  lemma {:induction false} SumBounds(m: Requests, ks: set<u64>, max: int)
    requires ks <= m.Keys && forall q :: q in ks ==> 0 <= m[q].rtt <= max
    ensures 0 <= SumRtt(m, ks) <= |ks| * max
  {
    if ks != {} {
      var k :| k in ks;
      SumRttSplit(m, ks, k);
      SumBounds(m, ks - {k}, max);
      var n := |ks - {k}|;
      assert |ks| == n + 1;
      MulSucc(n, max);
    }
  }

  /** For non-negative times whose sum fits in 63 bits the average is the floor of the true mean,
      and at most the maximum. */
  lemma AverageIsFloorOfMean(m: Requests, max: int)
    requires Answered(m) != {} && IsMaxRtt(max, m, m.Keys)
    requires forall q :: q in Answered(m) ==> m[q].rtt >= 0
    requires SumRtt(m, Answered(m)) < 0x8000_0000_0000_0000
    ensures var n, sum, avg := |Answered(m)|, SumRtt(m, Answered(m)), AverageRtt(SumRtt(m, Answered(m)), |Answered(m)|);
      avg * n <= sum < (avg + 1) * n && 0 <= avg <= max
  {
    assert AnswersIn(m, m.Keys) == Answered(m);
    SumBounds(m, Answered(m), max);
    var n, sum := |Answered(m)|, SumRtt(m, Answered(m));
    FloorBounds(sum, n, max);
  }

  lemma FloorBounds(sum: int, n: int, max: int)
    requires n > 0 && 0 <= sum <= n * max
    ensures sum / n * n <= sum < (sum / n + 1) * n && 0 <= sum / n <= max
  {
    var q := sum / n;
    assert sum == q * n + sum % n && (q + 1) * n == q * n + n;
    MulGap(q, max, n);
    assert max * n == n * max;
    MulGap(0, q, n);
  }

  /** A larger sum wraps, and then the average is never the floor of the mean. */
  lemma AverageExactIff(sum: nat, n: nat)
    requires 0 < n < 0x8000_0000_0000_0000
    ensures AverageRtt(sum, n) == sum / n <==> sum < 0x8000_0000_0000_0000
  {
    var w := WrapI64(sum);
    if sum >= 0x8000_0000_0000_0000 {
      if w >= 0 {
        assert sum >= w + n;
        QuotientGrows(w, sum, n);
      } else {
        QuotientGrows(0, sum, n);
        assert AverageRtt(sum, n) <= 0;
      }
    }
  }

  lemma QuotientGrows(a: int, b: int, n: int)
    requires n > 0 && b >= a + n
    ensures b / n > a / n
  {
    assert a == a / n * n + a % n && b == b / n * n + b % n;
    if b / n <= a / n {
      MulMonotone(b / n, a / n, n);
    }
  }
  /** For every sum that fits in 64 bits, negative ones included, the average is the mean truncated toward
      zero: it has the sum's sign or is zero, and misses the mean by less than one. */
  lemma AverageTruncates(sum: i64, n: nat)
    requires n > 0
    ensures var avg := AverageRtt(sum, n);
      && Abs(avg) * n <= Abs(sum) < (Abs(avg) + 1) * n
      && (sum >= 0 ==> avg >= 0) && (sum <= 0 ==> avg <= 0)
  {
    GoDivTruncates(sum, n);
  }

  /** Two clocks apart: times of -15 and -10 average to -12. */
  lemma NegativeAverage()
    ensures AverageRtt(-25, 2) == -12
  {
    AverageTruncates(-25, 2);
  }

  // ----- a bucket that overflows -----

  /** A scanner's bucket after `n` SYN-ACKs at one time: each is recorded with the time itself. */
  function SynAcks(n: nat, now: i64): (m: Requests)
    requires n < 0x1_0000
  {
    if n == 0 then map[] else SynAcks(n - 1, now)[n := S.Request(54321, 443, n, now, now, false, false)]
  }

  lemma {:induction false} SynAcksKeys(n: nat, now: i64)
    requires n < 0x1_0000 && now != S.RTT_UNSET
    ensures forall q :: q in SynAcks(n, now) <==> 1 <= q <= n
    ensures Answered(SynAcks(n, now)) == SynAcks(n, now).Keys && |SynAcks(n, now)| == n
  {
    if n > 0 {
      var m, m' := SynAcks(n - 1, now), SynAcks(n, now);
      SynAcksKeys(n - 1, now);
      assert m'.Keys == m.Keys + {n};
      assert Answered(m') == m'.Keys;
    }
  }

  lemma {:induction false} SynAcksSum(n: nat, now: i64)
    requires n < 0x1_0000 && now != S.RTT_UNSET
    ensures SumRtt(SynAcks(n, now), SynAcks(n, now).Keys) == n * now
  {
    if n > 0 {
      var m, m' := SynAcks(n - 1, now), SynAcks(n, now);
      SynAcksSum(n - 1, now);
      SynAcksKeys(n - 1, now);
      assert m'.Keys == m.Keys + {n};
      SumUnchanged(m, m', m.Keys);
      SumRttAdd(m', m.Keys, n);
      MulLast(n, now);
    } else {
      assert SynAcks(0, now).Keys == {};
    }
  }

  lemma {:induction false} SumUnchanged(m: Requests, m': Requests, ks: set<u64>)
    requires ks <= m.Keys && ks <= m'.Keys && forall q :: q in ks ==> m'[q] == m[q]
    ensures SumRtt(m', ks) == SumRtt(m, ks)
  {
    if ks != {} {
      var k := Pick(ks);
      SumRttSplit(m, ks, k);
      SumRttSplit(m', ks, k);
      SumUnchanged(m, m', ks - {k});
    }
  }

  /** The average of such a bucket is the true one exactly while n times the clock fits in 63 bits. */
  lemma SynAckAverageIff(n: nat, now: i64)
    requires 0 < n < 0x1_0000 && now >= 0
    ensures var m := SynAcks(n, now);
      AverageRtt(SumRtt(m, Answered(m)), |Answered(m)|) == SumRtt(m, Answered(m)) / n <==> n * now < 0x8000_0000_0000_0000
  {
    SynAcksSum(n, now);
    SynAcksKeys(n, now);
    MulNonNegative(n, now);
    AverageExactIff(n * now, n);
  }

  lemma MulNonNegative(n: nat, x: nat)
    ensures n * x >= 0
  {
  }

  /** Six SYN-ACKs in one bucket, at a time in the year 2023, already give a wrong average. */
  lemma SixSynAcksOverflow()
    ensures var m := SynAcks(6, 1_700_000_000_000_000_000);
      |Answered(m)| == 6 && AverageRtt(SumRtt(m, Answered(m)), 6) != SumRtt(m, Answered(m)) / 6
  {
    SynAcksKeys(6, 1_700_000_000_000_000_000);
    SynAckAverageIff(6, 1_700_000_000_000_000_000);
  }
}
