/** The per-pair statistics object: the reporting call, proved against the reporting machine. */
module UdpStats {
  import opened Machine
  import opened Odometer
  import opened PortKeys
  import opened BucketStats
  import opened Aggregation
  import opened LossPorts
  import opened Buckets
  import S = BucketStore
  import R = Reporting

  /** What is handed to the sender for one bucket. */
  datatype Sent = Sent(id: int, result: StatResult, lossPorts: map<u16, u16>, lossPortsCount: map<string, nat>)

  /** Average and maximum are those of the answers. */
  ghost predicate TimesOk(r: StatResult, m: Requests) {
    r.rtt == AverageRtt(SumRtt(m, Answered(m)), |Answered(m)|) && IsMaxRtt(r.maxRTT, m, m.Keys)
  }

  /** A client-side report is right for the entries it was computed from. */
  ghost predicate ClientReportOk(r: Sent, m: Requests) {
    && r.result.sent == |m| && r.result.received == |Answered(m)| == r.result.synack + r.result.rst
    && r.result.rst == |RstAnswers(m, m.Keys)|
    && r.result.loss == |m| - |Answered(m)| == Total(r.lossPortsCount)
    && TimesOk(r.result, m)
    && TablesOk(r.result, m, m.Keys) && r.lossPorts == r.result.lossPorts && r.lossPortsCount == r.result.lossPortsCount
  }

  /** A server-side report gives the bucket's totals, and the replayed losses if it was repaired. */
  ghost predicate ServerReportOk(r: Sent, b: S.BucketState, ranges: Ranges) {
    && Totals(r.result.sent, r.result.received, r.result.loss) == ServerTotals(b)
    && TimesOk(r.result, b.requests)
    && if b.packetCountFixed && b.packetCount > 0 && (b.startSrcPort != 0 || b.startDstPort != 0) then
         && (forall q :: CountAt(r.lossPortsCount, Key(q)) == LossOf(b, ranges, q))
         && (forall src :: src in r.lossPorts ==> LossOf(b, ranges, Pair(src, r.lossPorts[src])) > 0)
       else
         r.lossPorts == map[] && r.lossPortsCount == map[]
  }

  ghost predicate ReportOk(r: Sent, b: S.BucketState, serverSide: bool, ranges: Ranges) {
    r.id == b.id && if serverSide then ServerReportOk(r, b, ranges) else ClientReportOk(r, b.requests)
  }

  lemma EmptyCounts(m: Requests)
    requires m == map[]
    ensures m.Keys == {} && Answered(m) == {} && RstAnswers(m, m.Keys) == {} && |m| == 0
    ensures Total(map[]) == 0
  {
    assert m.Keys == {};
  }

  lemma EmptyTimesOk(m: Requests)
    requires m == map[]
    ensures TimesOk(NO_RESULT, m)
  {
    EmptyCounts(m);
    assert SumRtt(m, {}) == 0;
  }

  lemma EmptyTablesOk(m: Requests)
    requires m == map[]
    ensures TablesOk(NO_RESULT, m, m.Keys)
  {
    EmptyCounts(m);
    NothingAccounted(m);
  }

  /** An emptied client bucket reports zeros. */
  lemma EmptyReportOk(id: int, m: Requests)
    requires m == map[]
    ensures ClientReportOk(Sent(id, NO_RESULT, map[], map[]), m)
  {
    EmptyCounts(m);
    EmptyTimesOk(m);
    EmptyTablesOk(m);
  }

  method ClientFigures(b: S.BucketState) returns (r: Sent)
    ensures r.id == b.id && ClientReportOk(r, b.requests)
  {
    if b.requests == map[] {
      EmptyReportOk(b.id, b.requests);
      return Sent(b.id, NO_RESULT, map[], map[]);
    }
    var result := ClientStat(b.requests);
    r := Sent(b.id, result, result.lossPorts, result.lossPortsCount);
  }

  method ServerFigures(b: S.BucketState, ranges: Ranges) returns (r: Sent)
    ensures r.id == b.id && ServerReportOk(r, b, ranges)
  {
    var result := NO_RESULT;
    if |b.requests| > 0 {
      result := ServerStat(b);
      assert result.received == |Answered(b.requests)|;
    } else {
      EmptyTimesOk(b.requests);
    }
    var ports, counts := ComputeServerLossPorts(b, ranges);
    r := Sent(b.id, result, ports, counts);
  }

  /** The figures of one bucket, as either side computes them. */
  method Figures(b: S.BucketState, serverSide: bool, ranges: Ranges) returns (r: Sent)
    ensures ReportOk(r, b, serverSide, ranges)
  {
    if serverSide {
      r := ServerFigures(b, ranges);
    } else {
      r := ClientFigures(b);
    }
  }

  /** The identifiers handed to the sender, in order. */
  function Ids(sent: seq<Sent>): seq<int> {
    seq(|sent|, i requires 0 <= i < |sent| => sent[i].id)
  }

  lemma IdsAppend(sent: seq<Sent>, r: Sent)
    ensures Ids(sent + [r]) == Ids(sent) + [r.id]
  {
  }

  class UdpStat {
    const bkts: Buckets
    const ranges: Ranges
    const delay: int
    const serverSide: bool
    var lastID: int
    var sent: seq<Sent>

    constructor (cfg: S.Config, ranges: Ranges, delay: int)
      ensures bkts.Valid() && Book() == R.NEW_BOOK && sent == [] && bkts.cfg == cfg && this.delay == delay
      ensures fresh(bkts) && bkts.buckets == map[]
    {
      bkts := new Buckets(cfg);
      this.ranges, this.delay, serverSide := ranges, delay, cfg.serverSide;
      lastID, sent := 0, [];
    }

    /** The state as the reporting machine sees it. */
    ghost function Book(): R.Book
      reads this, bkts, bkts.buckets.Values
    {
      R.Book(bkts.State(), lastID, Ids(sent))
    }

    function Settings(): R.Settings { R.Settings(bkts.cfg, delay) }

    /** `b` is the oldest bucket, or null when there is none. */
    predicate IsOldest(b: Bucket?)
      reads bkts
    {
      if b == null then bkts.minID !in bkts.buckets
      else bkts.minID in bkts.buckets && b == bkts.buckets[bkts.minID]
    }

    /** The store is what is left of `before`. */
    ghost predicate Left(before: S.Store)
      reads bkts, bkts.buckets.Values
    {
      && bkts.Valid() && S.MinOk(before)
      && bkts.buckets.Keys <= before.buckets.Keys
      && bkts.State() == R.Keep(before, bkts.buckets.Keys)
    }

    /** The skip loop so far: only buckets not newer than the last one are gone, and `b` is the oldest. */
    ghost predicate Skipping(before: S.Store, b: Bucket?)
      reads this, bkts, bkts.buckets.Values
    {
      Left(before) && IsOldest(b) && forall k :: k in before.buckets && k !in bkts.buckets ==> k <= lastID
    }

    method RemoveOne(ghost before: S.Store, id: int)
      requires Left(before) && id in bkts.buckets
      modifies bkts
      ensures Left(before) && bkts.buckets == old(bkts.buckets) - {id}
    {
      ghost var ids := bkts.buckets.Keys;
      R.KeepOk(before, ids);
      R.KeepRemove(before, ids, id);
      bkts.Remove(id);
      assert bkts.buckets.Keys == ids - {id};
    }

    /** One pass of the loop body: drop the stale bucket and look at the next oldest. */
    method DropStale(ghost before: S.Store, stale: Bucket) returns (b: Bucket?)
      requires Skipping(before, stale) && stale.id <= lastID
      modifies bkts
      ensures Skipping(before, b) && |bkts.buckets| < |old(bkts.buckets)|
    {
      assert stale.id in bkts.buckets;
      RemoveOne(before, stale.id);
      b := bkts.Oldest();
    }

    /** When the loop ends, exactly the fresh buckets are left. */
    lemma SkippingEnds(before: S.Store, b: Bucket?)
      requires Skipping(before, b) && (b == null || b.id > lastID)
      ensures bkts.buckets.Keys == R.Fresh(R.Book(before, lastID, Ids(sent)))
      ensures b == null ==> bkts.buckets.Keys == {}
      ensures b != null ==> b.id in bkts.buckets.Keys && b.id == S.Least(bkts.buckets.Keys) && b.State() == before.buckets[b.id]
    {
      var ids := bkts.buckets.Keys;
      R.KeepOk(before, ids);
      assert S.IsLeast(bkts.minID, ids) by { assert bkts.State().buckets.Keys == ids; }
      S.LeastUnique(bkts.minID, ids);
      R.SkipLeavesFresh(R.Book(before, lastID, Ids(sent)), ids);
      if b != null { assert b.State() == bkts.State().buckets[b.id]; }
    }

    /** Drops every bucket that is not newer than the last one handled. */
    method SkipStale(ghost before: S.Store, oldest: Bucket?) returns (b: Bucket?)
      requires Skipping(before, oldest)
      modifies bkts
      ensures Left(before) && bkts.buckets.Keys == R.Fresh(R.Book(before, lastID, Ids(sent)))
      ensures b == null ==> bkts.buckets.Keys == {}
      ensures b != null ==> b.id in bkts.buckets.Keys && b.id == S.Least(bkts.buckets.Keys) && b.State() == before.buckets[b.id]
    {
      b := oldest;
      while b != null && b.id <= lastID
        modifies bkts
        invariant Skipping(before, b)
        decreases |bkts.buckets|
      {
        b := DropStale(before, b);
      }
      SkippingEnds(before, b);
    }

    /** One more report than `earlier`: the figures of bucket `b`. */
    ghost predicate AddsReport(earlier: seq<Sent>, b: S.BucketState)
      reads this
    {
      && |sent| == |earlier| + 1 && sent[..|earlier|] == earlier
      && Ids(sent) == Ids(earlier) + [b.id]
      && ReportOk(sent[|earlier|], b, serverSide, ranges)
    }

    /** Takes the figures of a bucket and hands them over. */
    method Report(b: Bucket)
      modifies this`lastID, this`sent
      ensures lastID == b.id && AddsReport(old(sent), b.State())
    {
      lastID := b.id;
      var r := Figures(b.State(), serverSide, ranges);
      IdsAppend(sent, r);
      sent := sent + [r];
    }

    /** Reports the oldest bucket that is left, and removes it. */
    method ReportOldest(ghost before: S.Store, b: Bucket)
      requires Left(before) && b.id in bkts.buckets.Keys && b.State() == before.buckets[b.id]
      modifies this`lastID, this`sent, bkts
      ensures bkts.Valid() && bkts.State() == R.Keep(before, old(bkts.buckets.Keys) - {b.id})
      ensures lastID == b.id && AddsReport(old(sent), before.buckets[b.id])
    {
      Report(b);
      RemoveOne(before, b.id);
    }

    /** The oldest bucket is kept back because it is too young. */
    predicate KeptBack(b: Bucket?, now: int)
      requires bkts.Valid()
      reads this, bkts
    {
      b != null && lastID > 0 && b.id > 0 && GoDiv(now - delay, bkts.cfg.span) < b.id
    }

    lemma KeptBackIsTooYoung(b: Bucket?, now: int)
      requires bkts.Valid() && S.MinOk(bkts.State()) && IsOldest(b)
      ensures KeptBack(b, now) <==> R.TooYoung(Book(), now, Settings())
    {
      if b != null { assert b.State() == bkts.State().buckets[bkts.minID]; }
    }

    lemma NothingSkipped(b: Bucket?)
      requires bkts.Valid() && S.MinOk(bkts.State()) && IsOldest(b)
      ensures Skipping(bkts.State(), b)
    {
      R.KeepAll(bkts.State());
      assert bkts.buckets.Keys == bkts.State().buckets.Keys;
    }

    /** Processes the oldest bucket: skips and removes stale ones, then reports and removes one. */
    method StatOnce(now: int)
      requires bkts.Valid() && S.MinOk(bkts.State()) && lastID >= 0
      modifies this`lastID, this`sent, bkts
      ensures bkts.Valid()
      ensures Book() == R.StatOnce(old(Book()), now, Settings())
      ensures sent == old(sent)
           || (lastID in old(bkts.State()).buckets && AddsReport(old(sent), old(bkts.State()).buckets[lastID]))
    {
      ghost var before, book := bkts.State(), Book();
      R.StatOnceCases(book, now, Settings());
      var b := bkts.Oldest();
      KeptBackIsTooYoung(b, now);
      if KeptBack(b, now) {
        return;
      }
      NothingSkipped(b);
      b := SkipStale(before, b);
      if b != null {
        ReportOldest(before, b);
      }
    }
  }
}
