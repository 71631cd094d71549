/** The server's aggregation: totals against the repaired count, and the replayed loss table. */
module LossPorts {
  import opened Machine
  import opened Odometer
  import opened PortKeys
  import opened BucketStats
  import opened Aggregation
  import S = BucketStore

  /** The running figures are right for the entries in `ks`. */
  ghost predicate Summed(received: nat, sum: i64, max: i64, m: Requests, ks: set<u64>) {
    ks <= m.Keys && received == |AnswersIn(m, ks)| && WrapsTo(m, ks, sum) && IsMaxRtt(max, m, ks)
  }

  lemma NothingSummed(m: Requests)
    ensures Summed(0, 0, 0, m, {})
  {
    assert AnswersIn(m, {}) == {};
  }

  lemma SummedAdds(received: nat, sum: i64, max: i64, m: Requests, ks: set<u64>, k: u64)
    requires Summed(received, sum, max, m, ks) && k in m && k !in ks
    ensures m[k].rtt != S.RTT_UNSET
        ==> Summed(received + 1, WrapI64(sum + m[k].rtt), if m[k].rtt > max then m[k].rtt else max, m, ks + {k})
    ensures m[k].rtt == S.RTT_UNSET ==> Summed(received, sum, max, m, ks + {k})
  {
    if m[k].rtt != S.RTT_UNSET {
      AnswerAdds(m, ks, k);
      SumAdds(m, ks, k, sum);
    } else {
      SilenceAdds(m, ks, k);
    }
  }

  /** Server-side aggregation of a bucket that has entries. */
  method ServerStat(b: S.BucketState) returns (r: StatResult)
    requires |b.requests| > 0
    ensures Totals(r.sent, r.received, r.loss) == ServerTotals(b)
    ensures r.rtt == AverageRtt(SumRtt(b.requests, Answered(b.requests)), r.received)
    ensures IsMaxRtt(r.maxRTT, b.requests, b.requests.Keys)
  {
    var m := b.requests;
    var received: nat, sum: i64, max: i64 := 0, 0, 0;
    var todo := m.Keys;
    ghost var done: set<u64> := {};
    NothingSummed(m);
    while todo != {}
      invariant todo !! done && todo + done == m.Keys
      invariant Summed(received, sum, max, m, done)
    {
      var k :| k in todo;
      SummedAdds(received, sum, max, m, done, k);
      if m[k].rtt != S.RTT_UNSET {
        received, sum := received + 1, WrapI64(sum + m[k].rtt);
        if m[k].rtt > max { max := m[k].rtt; }
      }
      todo, done := todo - {k}, done + {k};
    }
    assert done == m.Keys && AnswersIn(m, done) == Answered(m);
    var sent := if b.packetCountFixed then b.packetCount else |m|;
    var loss := if sent - received < 0 then 0 else sent - received;
    r := StatResult(sent, received, loss, if received > 0 then GoDiv(sum, received) else sum, max, 0, 0, map[], map[], map[], map[]);
  }

  function CountFor(m: map<Pair, nat>, q: Pair): nat {
    if q in m then m[q] else 0
  }

  /** The table counts a multiset. */
  ghost predicate Counts(m: map<Pair, nat>, ms: multiset<Pair>) {
    (forall q :: CountFor(m, q) == ms[q]) && (forall q :: q in m <==> q in ms)
  }

  lemma CountsAdd(m: map<Pair, nat>, ms: multiset<Pair>, q: Pair)
    requires Counts(m, ms)
    ensures Counts(m[q := CountFor(m, q) + 1], ms + multiset{q})
  {
  }

  lemma ReplayNext(start: Pair, i: nat, r: Ranges)
    ensures Replay(start, i + 1, r) == Replay(start, i, r) + multiset{Iterate(start, i + 1, r)}
  {
    IterateShift(start, i, r);
  }

  /** The replay loop: how often each pair is expected. */
  method ExpectedCounts(start: Pair, count: nat, r: Ranges) returns (expected: map<Pair, nat>)
    ensures forall q :: CountFor(expected, q) == Replay(start, count, r)[q]
    ensures forall q :: q in expected <==> q in Replay(start, count, r)
  {
    expected := map[];
    var at := start;
    assert Replay(start, 0, r) == multiset{};
    for i := 0 to count
      invariant at == Iterate(start, i, r) && Counts(expected, Replay(start, i, r))
    {
      ReplayNext(start, i, r);
      at := GetNextPorts(at, r);
      CountsAdd(expected, Replay(start, i, r), at);
      expected := expected[at := CountFor(expected, at) + 1];
    }
  }

  function AnsweredOn(m: Requests, ks: set<u64>, q: Pair): set<u64> {
    set k | k in ks && k in m && AnswersOn(m[k], q)
  }

  lemma AnsweredOnAdds(m: Requests, ks: set<u64>, k: u64, q: Pair)
    requires k in m && k !in ks
    ensures |AnsweredOn(m, ks + {k}, q)| == |AnsweredOn(m, ks, q)| + if AnswersOn(m[k], q) then 1 else 0
  {
    if AnswersOn(m[k], q) {
      assert AnsweredOn(m, ks + {k}, q) == AnsweredOn(m, ks, q) + {k};
    } else {
      assert AnsweredOn(m, ks + {k}, q) == AnsweredOn(m, ks, q);
    }
  }

  /** The loop over the entries: how often each pair answered. */
  method ReceivedCounts(m: Requests) returns (received: map<Pair, nat>)
    ensures forall q :: CountFor(received, q) == ReceivedOn(m, q)
  {
    received := map[];
    var todo := m.Keys;
    ghost var done: set<u64> := {};
    forall q ensures |AnsweredOn(m, {}, q)| == 0 { assert AnsweredOn(m, {}, q) == {}; }
    while todo != {}
      invariant todo !! done && todo + done == m.Keys
      invariant forall q :: CountFor(received, q) == |AnsweredOn(m, done, q)|
    {
      var k :| k in todo;
      var e := m[k];
      forall q { AnsweredOnAdds(m, done, k, q); }
      if e.rtt != S.RTT_UNSET && e.clientPort != 0 {
        received := received[PairOf(e) := CountFor(received, PairOf(e)) + 1];
      }
      todo, done := todo - {k}, done + {k};
    }
    assert done == m.Keys;
    forall q ensures ReceivedOn(m, q) == |AnsweredOn(m, done, q)| {
      assert AnsweredOn(m, done, q) == set k | k in m && AnswersOn(m[k], q);
    }
  }

  /** How far the answers on a pair fall short of the expectation. */
  function Excess(expected: map<Pair, nat>, received: map<Pair, nat>, q: Pair): nat {
    if CountFor(received, q) < CountFor(expected, q) then CountFor(expected, q) - CountFor(received, q) else 0
  }

  /** The table so far names the shortfall of the pairs in `ks`, and only positive ones. */
  ghost predicate Names(t: map<string, nat>, ks: set<Pair>, expected: map<Pair, nat>, received: map<Pair, nat>) {
    && (forall q :: CountAt(t, Key(q)) == if q in ks then Excess(expected, received, q) else 0)
    && (forall key :: key in t ==> t[key] > 0)
  }

  lemma NamesAdds(t: map<string, nat>, ks: set<Pair>, expected: map<Pair, nat>, received: map<Pair, nat>, q: Pair)
    requires Names(t, ks, expected, received) && q !in ks
    ensures var n := Excess(expected, received, q);
            Names(if n > 0 then t[Key(q) := n] else t, ks + {q}, expected, received)
  {
    forall p | Key(p) == Key(q) ensures p == q { KeyInjective(p, q); }
  }

  /** The loop over the expected pairs, in any order. */
  method Shortfall(expected: map<Pair, nat>, received: map<Pair, nat>)
      returns (lossPorts: map<u16, u16>, lossPortsCount: map<string, nat>)
    ensures forall q :: CountAt(lossPortsCount, Key(q)) == Excess(expected, received, q)
    ensures forall key :: key in lossPortsCount ==> lossPortsCount[key] > 0
    ensures forall src :: src in lossPorts ==> Excess(expected, received, Pair(src, lossPorts[src])) > 0
    ensures forall q :: Excess(expected, received, q) > 0 ==> q.src in lossPorts
  {
    lossPorts, lossPortsCount := map[], map[];
    var todo := expected.Keys;
    ghost var done: set<Pair> := {};
    while todo != {}
      invariant todo !! done && todo + done == expected.Keys
      invariant Names(lossPortsCount, done, expected, received)
      invariant forall src :: src in lossPorts ==> Excess(expected, received, Pair(src, lossPorts[src])) > 0
      invariant forall q :: q in done && Excess(expected, received, q) > 0 ==> q.src in lossPorts
    {
      var q :| q in todo;
      NamesAdds(lossPortsCount, done, expected, received, q);
      if CountFor(received, q) < expected[q] {
        lossPorts := lossPorts[q.src := q.dst];
        lossPortsCount := lossPortsCount[Key(q) := expected[q] - CountFor(received, q)];
      }
      todo, done := todo - {q}, done + {q};
    }
    assert done == expected.Keys;
  }

  function LossOf(b: S.BucketState, r: Ranges, q: Pair): nat {
    LossCount(Pair(b.startSrcPort, b.startDstPort), b.packetCount, b.requests, r, q)
  }

  /** A span that began in the configured ranges has a known start, so it has a table. */
  lemma StartInRangeIsKnown(start: Pair, r: Ranges)
    requires Usable(r) && InRange(start, r)
    ensures start.src != 0 && start.dst != 0
  {
  }

  /** Which pairs of a repaired span were lost, and how often: what the replay expects of a pair beyond
      its answers. There is a table for every repaired span of at least one probe, unless both start
      ports are zero. */
  method ComputeServerLossPorts(b: S.BucketState, r: Ranges)
      returns (lossPorts: map<u16, u16>, lossPortsCount: map<string, nat>)
    ensures !HasTable(b) ==> lossPorts == map[] && lossPortsCount == map[]
    ensures HasTable(b) ==> forall q :: CountAt(lossPortsCount, Key(q)) == LossOf(b, r, q)
    ensures HasTable(b) ==> forall key :: key in lossPortsCount ==> lossPortsCount[key] > 0
    ensures HasTable(b) ==> forall src :: src in lossPorts ==> LossOf(b, r, Pair(src, lossPorts[src])) > 0
    ensures HasTable(b) ==> forall q :: LossOf(b, r, q) > 0 ==> q.src in lossPorts
    ensures b.packetCountFixed && b.packetCount > 0 && (b.startSrcPort != 0 || b.startDstPort != 0) ==>
      forall q :: var expected, received := Replay(Pair(b.startSrcPort, b.startDstPort), b.packetCount, r)[q], ReceivedOn(b.requests, q);
        CountAt(lossPortsCount, Key(q)) == if received < expected then expected - received else 0
    ensures !b.packetCountFixed || b.packetCount == 0 || (b.startSrcPort == 0 && b.startDstPort == 0) ==>
      lossPorts == map[] && lossPortsCount == map[]
  {
    lossPorts, lossPortsCount := map[], map[];
    if b.packetCountFixed && b.packetCount != 0 && !(b.startSrcPort == 0 && b.startDstPort == 0) {
      var expected := ExpectedCounts(Pair(b.startSrcPort, b.startDstPort), b.packetCount, r);
      var received := ReceivedCounts(b.requests);
      lossPorts, lossPortsCount := Shortfall(expected, received);
      forall q ensures LossOf(b, r, q) == Excess(expected, received, q) {}
    }
  }
}
