/** What the server knows about the client, in every reachable state of the one-way loss protocol. */
module ProtocolTheorems {
  import opened Machine
  import opened Odometer
  import opened SpanClient
  import opened SpanHistory
  import opened BucketStats
  import opened BucketHeap
  import opened Protocol
  import opened ProtocolInvariant
  import opened ProtocolSafety
  import opened ProtocolTables
  import S = BucketStore

  /** A repaired bucket holds exactly what the client counted in that span, and its first pair. */
  lemma FixedBucketsAreExact(p: Params, acts: seq<Action>, s: State, o: nat)
    requires Reaches(p, acts, s) && o < |s.heap.objs| && s.heap.objs[o].packetCountFixed
    ensures var b := s.heap.objs[o];
      && 0 < Counted(s.hist, b.id, p.client) == b.packetCount
      && Pair(b.startSrcPort, b.startDstPort) == First(s.hist, b.id, p.client)
  {
    ReachableInv(p, acts, s);
    assert BucketOk(s.heap.objs[o], s.arrived[o], s.removed, s.hist, s.client.bucketID, p);
  }

  /** No arrival was recorded with the time that stands for "no answer". */
  predicate NoneUnset(requests: map<u64, S.Request>, arrived: set<u64>) {
    forall q :: q in arrived ==> q in requests && requests[q].rtt != S.RTT_UNSET
  }

  lemma UnsetIsUnanswered(requests: map<u64, S.Request>, arrived: set<u64>)
    requires ArrivalsOk(requests, arrived)
    ensures NoneUnset(requests, arrived) <==> Answered(requests) == arrived
    ensures |Answered(requests)| == |arrived| <==> Answered(requests) == arrived
  {
    var rest := arrived - Answered(requests);
    assert arrived == Answered(requests) + rest;
  }

  lemma RestCard(all: set<u64>, part: set<u64>)
    requires part <= all
    ensures |all - part| == |all| - |part| >= 0
  {
    assert all == part + (all - part);
  }

  /** A report of a repaired bucket with any entry gives the exact count, and as loss the probes of the
      span without an answer. That is the probes that never arrived, each once, exactly when no arrival
      holds the time -1. Without entries the report says zero. */
  lemma FixedReportsAreExact(p: Params, acts: seq<Action>, s: State, i: nat)
    requires Reaches(p, acts, s) && i < |s.reports| && s.reports[i].fixed
    ensures var r, sent := s.reports[i], Counted(s.hist, s.reports[i].id, p.client);
      && sent > 0
      && (r.totals.sent == sent <==> |r.requests| > 0)
      && (|r.requests| > 0 ==>
            && r.totals.received == |Answered(r.requests)| <= r.totals.sent
            && r.totals.loss == r.totals.sent - r.totals.received == |SeqsIn(s.hist, r.id, p.client) - Answered(r.requests)|
            && (r.totals.loss == |SeqsIn(s.hist, r.id, p.client) - r.arrived| <==> NoneUnset(r.requests, r.arrived)))
  {
    ReachableInv(p, acts, s);
    var r := s.reports[i];
    assert ReportOk(r, s.hist, s.client.bucketID, p);
    assert Counted(s.hist, r.id, p.client) < 0x1_0000_0000;
    SeqsCard(s.hist, r.id, p.client);
    var all := SeqsIn(s.hist, r.id, p.client);
    RestCard(all, r.arrived);
    RestCard(all, Answered(r.requests));
    UnsetIsUnanswered(r.requests, r.arrived);
  }

  /** Reports come out in strictly increasing order of span, so each span is reported at most once. */
  lemma ReportsIncrease(p: Params, acts: seq<Action>, s: State, i: nat, j: nat)
    requires Reaches(p, acts, s) && i < j < |s.reports|
    ensures s.reports[i].id < s.reports[j].id <= s.lastID
  {
    ReachableInv(p, acts, s);
  }

  /** Probes of one span with one sequence number are one probe, so its pair is unique. */
  lemma UsedPairUnique(h: seq<Probe>, k: int, a: Pair, b: Pair, q: u64, cfg: Settings)
    requires SpanOk(h, k, cfg) && Used(h, k, a, q, cfg) && Used(h, k, b, q, cfg)
    ensures a == b
  {
    var i :| 0 <= i < |h| && SpanOf(h[i], cfg) == k && h[i].seqNo == q && h[i].pair == a;
    var j :| 0 <= j < |h| && SpanOf(h[j], cfg) == k && h[j].seqNo == q && h[j].pair == b;
    if i < j { SeqsDistinct(h, k, i, j, cfg); }
    if j < i { SeqsDistinct(h, k, j, i, cfg); }
  }

  lemma UsedInRange(h: seq<Probe>, k: int, a: Pair, q: u64, cfg: Settings)
    requires Regular(h, cfg) && Usable(cfg.ranges) && Used(h, k, a, q, cfg)
    ensures InRange(a, cfg.ranges)
  {
    var i :| 0 <= i < |h| && SpanOf(h[i], cfg) == k && h[i].seqNo == q && h[i].pair == a;
    StartIsInRange(cfg);
    IterateIndex(StartPair(cfg), i + 1, cfg.ranges);
  }

  /** The entries that answer on a pair are the answered probes of that pair. */
  lemma ReceivedIsAnswered(t: TableInput, id: int, h: seq<Probe>, cur: int, q: Pair, p: Params)
    requires TableOk(t, id, h, cur, p) && p.putFirst
    requires SpanOk(h, id, p.client) && Usable(p.client.ranges)
    ensures ReceivedOn(t.requests, q) == |RecordedOn(h, id, q, Answered(t.requests), p.client)|
  {
    var answered := Answered(t.requests);
    var answers := set k | k in t.requests && AnswersOn(t.requests[k], q);
    forall k ensures k in answers <==> k in RecordedOn(h, id, q, answered, p.client) {
      RecordedOnMembers(h, id, q, answered, k, p.client);
      if k in t.requests {
        var pair := Pair(t.requests[k].clientPort, t.requests[k].serverPort);
        assert Used(h, id, pair, k, p.client);
        UsedInRange(h, id, pair, k, p.client);
        if Used(h, id, q, k, p.client) { UsedPairUnique(h, id, q, pair, k, p.client); }
      }
    }
    assert answers == RecordedOn(h, id, q, answered, p.client);
  }

  /** Fewer recorded probes leave more lost ones, on exactly the pairs where one is missing. */
  lemma LostDiffers(h: seq<Probe>, k: int, q: Pair, few: set<u64>, many: set<u64>, cfg: Settings)
    requires SpanOk(h, k, cfg) && few <= many
    ensures LostOn(h, k, q, many, cfg) <= LostOn(h, k, q, few, cfg)
    ensures LostOn(h, k, q, many, cfg) == LostOn(h, k, q, few, cfg)
       <==> forall s :: s in many && Used(h, k, q, s, cfg) ==> s in few
  {
    var a, b := RecordedOn(h, k, q, few, cfg), RecordedOn(h, k, q, many, cfg);
    SentIsRecordedOrLost(h, k, q, few, cfg);
    SentIsRecordedOrLost(h, k, q, many, cfg);
    forall s ensures s in a <==> s in few && Used(h, k, q, s, cfg) { RecordedOnMembers(h, k, q, few, s, cfg); }
    forall s ensures s in b <==> s in many && Used(h, k, q, s, cfg) { RecordedOnMembers(h, k, q, many, s, cfg); }
    assert b == a + (b - a);
  }

  /** Every number of a span was used on some pair. */
  lemma UsedSomewhere(h: seq<Probe>, k: int, s: u64, cfg: Settings) returns (q: Pair)
    requires s in SeqsIn(h, k, cfg)
    ensures Used(h, k, q, s, cfg)
  {
    var i :| 0 <= i < |h| && SpanOf(h[i], cfg) == k && h[i].seqNo == s;
    q := h[i].pair;
  }

  /** The loss a pair really suffered, shifted by the server's early step. */
  function Shifted(lost: nat, isFirst: bool, isNext: bool): nat {
    var n := lost - (if isFirst then 1 else 0) + if isNext then 1 else 0;
    if n < 0 then 0 else n
  }

  /** With ports recorded first, each pair's reported loss is its probes without an answer, minus one
      for the span's first pair, plus one for the pair after the span's last. */
  lemma LossTableIsShifted(p: Params, acts: seq<Action>, s: State, i: nat, q: Pair)
    requires Reaches(p, acts, s) && i < |s.reports| && s.reports[i].table.Some?
    requires p.putFirst && Usable(p.client.ranges)
    ensures var r, t := s.reports[i], s.reports[i].table.value;
      && 0 < t.count == Counted(s.hist, r.id, p.client) && t.start == First(s.hist, r.id, p.client)
      && LossCount(t.start, t.count, t.requests, p.client.ranges, q)
         == Shifted(LostOn(s.hist, r.id, q, Answered(t.requests), p.client),
                    q == t.start, q == Iterate(t.start, t.count, p.client.ranges))
  {
    var r, t, cfg := s.reports[i], s.reports[i].table.value, p.client;
    TableFacts(p, acts, s, i);
    ReceivedIsAnswered(t, r.id, s.hist, s.client.bucketID, q, p);
    ReplayedOrSent(p, acts, s, i, q);
    SentIsRecordedOrLost(s.hist, r.id, q, Answered(t.requests), cfg);
  }

  lemma TableFacts(p: Params, acts: seq<Action>, s: State, i: nat)
    requires Reaches(p, acts, s) && i < |s.reports| && s.reports[i].table.Some?
    ensures var r, t := s.reports[i], s.reports[i].table.value;
      && TableOk(t, r.id, s.hist, s.client.bucketID, p) && SpanOk(s.hist, r.id, p.client)
      && 0 < t.count == Counted(s.hist, r.id, p.client) && t.start == First(s.hist, r.id, p.client)
  {
    ReachableInv(p, acts, s);
    assert ReportOk(s.reports[i], s.hist, s.client.bucketID, p);
    assert Counted(s.hist, s.reports[i].id, p.client) < 0x1_0000_0000;
  }

  /** What was sent on a pair and what the replay expects of it. */
  lemma ReplayedOrSent(p: Params, acts: seq<Action>, s: State, i: nat, q: Pair)
    requires Reaches(p, acts, s) && i < |s.reports| && s.reports[i].table.Some?
    ensures var t := s.reports[i].table.value;
      Replay(t.start, t.count, p.client.ranges)[q] + (if q == t.start then 1 else 0)
      == SentOn(s.hist, s.reports[i].id, q, p.client) + (if q == Iterate(t.start, t.count, p.client.ranges) then 1 else 0)
  {
    var r, t, cfg := s.reports[i], s.reports[i].table.value, p.client;
    TableFacts(p, acts, s, i);
    SentOnCounts(s.hist, r.id, q, cfg);
    PairsAreRun(s.hist, r.id, cfg);
    ReplayAt(t.start, t.count, q, cfg.ranges);
  }

  lemma ReplayAt(first: Pair, n: nat, q: Pair, r: Ranges)
    ensures Replay(first, n, r)[q] + (if q == first then 1 else 0)
         == multiset(Run(first, n, r))[q] + (if q == Iterate(first, n, r) then 1 else 0)
  {
    ReplayIsShifted(first, n, r);
    assert (Replay(first, n, r) + multiset{first})[q]
        == (multiset(Run(first, n, r)) + multiset{Iterate(first, n, r)})[q];
  }

  /** The reported loss of each pair is that of the probes that never arrived. */
  ghost predicate TableRight(p: Params, s: State, i: nat)
    requires i < |s.reports| && s.reports[i].table.Some?
  {
    var r, t := s.reports[i], s.reports[i].table.value;
    forall q :: LossCount(t.start, t.count, t.requests, p.client.ranges, q) == LostOn(s.hist, r.id, q, t.arrived, p.client)
  }

  /** A table that is right has no pair after the last one to shift to. */
  lemma RightTableIsUnshifted(p: Params, acts: seq<Action>, s: State, i: nat)
    requires Reaches(p, acts, s) && i < |s.reports| && s.reports[i].table.Some?
    requires p.putFirst && Usable(p.client.ranges) && TableRight(p, s, i)
    ensures var t := s.reports[i].table.value; Iterate(t.start, t.count, p.client.ranges) == t.start
  {
    var r, t, cfg := s.reports[i], s.reports[i].table.value, p.client;
    TableFacts(p, acts, s, i);
    var next := Iterate(t.start, t.count, cfg.ranges);
    LossTableIsShifted(p, acts, s, i, next);
    LostDiffers(s.hist, r.id, next, Answered(t.requests), t.arrived, cfg);
  }

  lemma RightTableHasNoUnset(p: Params, acts: seq<Action>, s: State, i: nat, k: u64)
    requires Reaches(p, acts, s) && i < |s.reports| && s.reports[i].table.Some?
    requires p.putFirst && Usable(p.client.ranges) && TableRight(p, s, i)
    requires k in s.reports[i].table.value.arrived
    ensures k in Answered(s.reports[i].table.value.requests)
  {
    var r, t, cfg := s.reports[i], s.reports[i].table.value, p.client;
    TableFacts(p, acts, s, i);
    RightTableIsUnshifted(p, acts, s, i);
    var q := UsedSomewhere(s.hist, r.id, k, cfg);
    LossTableIsShifted(p, acts, s, i, q);
    LostDiffers(s.hist, r.id, q, Answered(t.requests), t.arrived, cfg);
  }

  /** The per-pair loss table of a span is right exactly when the period divides its probe count and
      no arrival holds the time -1. */
  lemma LossTableExactIff(p: Params, acts: seq<Action>, s: State, i: nat)
    requires Reaches(p, acts, s) && i < |s.reports| && s.reports[i].table.Some?
    requires p.putFirst && Usable(p.client.ranges)
    ensures var r, t := s.reports[i], s.reports[i].table.value;
      TableRight(p, s, i)
      <==> Counted(s.hist, r.id, p.client) % Period(p.client.ranges) == 0 && NoneUnset(t.requests, t.arrived)
  {
    var r, t, cfg := s.reports[i], s.reports[i].table.value, p.client;
    TableFacts(p, acts, s, i);
    FirstInRange(p, acts, s, r.id);
    IterateHits(t.start, t.start, t.count, cfg.ranges);
    UnsetIsUnanswered(t.requests, t.arrived);
    if TableRight(p, s, i) {
      RightTableIsUnshifted(p, acts, s, i);
      forall k | k in t.arrived ensures k in Answered(t.requests) { RightTableHasNoUnset(p, acts, s, i, k); }
    } else {
      var q :| LossCount(t.start, t.count, t.requests, cfg.ranges, q) != LostOn(s.hist, r.id, q, t.arrived, cfg);
      LossTableIsShifted(p, acts, s, i, q);
    }
  }

  lemma FirstInRange(p: Params, acts: seq<Action>, s: State, k: int)
    requires Reaches(p, acts, s) && Usable(p.client.ranges) && Counted(s.hist, k, p.client) > 0
    ensures InRange(First(s.hist, k, p.client), p.client.ranges)
  {
    ReachableInv(p, acts, s);
    FirstIsInRange(s.hist, k, p.client);
  }

  /** Without recorded ports (kuiniu's handler) the table reports every replayed probe as lost. */
  lemma LossTableWithoutPorts(p: Params, acts: seq<Action>, s: State, i: nat, q: Pair)
    requires Reaches(p, acts, s) && i < |s.reports| && s.reports[i].table.Some?
    requires !p.putFirst
    ensures var t := s.reports[i].table.value;
      LossCount(t.start, t.count, t.requests, p.client.ranges, q) == Replay(t.start, t.count, p.client.ranges)[q]
  {
    ReachableInv(p, acts, s);
    var t := s.reports[i].table.value;
    assert ReportOk(s.reports[i], s.hist, s.client.bucketID, p);
    assert (set k | k in t.requests && AnswersOn(t.requests[k], q)) == {};
  }
  /** Such a table is right exactly for a span that lost every probe and whose count the period divides. */
  lemma LossTableWithoutPortsIff(p: Params, acts: seq<Action>, s: State, i: nat)
    requires Reaches(p, acts, s) && i < |s.reports| && s.reports[i].table.Some?
    requires !p.putFirst && Usable(p.client.ranges)
    ensures var r, t := s.reports[i], s.reports[i].table.value;
      TableRight(p, s, i) <==> t.arrived == {} && Counted(s.hist, r.id, p.client) % Period(p.client.ranges) == 0
  {
    var r, t, cfg := s.reports[i], s.reports[i].table.value, p.client;
    TableFacts(p, acts, s, i);
    FirstInRange(p, acts, s, r.id);
    IterateHits(t.start, t.start, t.count, cfg.ranges);
    var next := Iterate(t.start, t.count, cfg.ranges);
    if TableRight(p, s, i) {
      WithoutPortsAt(p, acts, s, i, next);
      assert next == t.start;
      forall k ensures k !in t.arrived {
        if k in t.arrived {
          var q := UsedSomewhere(s.hist, r.id, k, cfg);
          WithoutPortsAt(p, acts, s, i, q);
          RecordedOnMembers(s.hist, r.id, q, t.arrived, k, cfg);
        }
      }
    } else {
      var q :| LossCount(t.start, t.count, t.requests, cfg.ranges, q) != LostOn(s.hist, r.id, q, t.arrived, cfg);
      WithoutPortsAt(p, acts, s, i, q);
      if t.arrived == {} { NothingRecorded(s.hist, r.id, q, cfg); }
    }
  }

  lemma WithoutPortsAt(p: Params, acts: seq<Action>, s: State, i: nat, q: Pair)
    requires Reaches(p, acts, s) && i < |s.reports| && s.reports[i].table.Some? && !p.putFirst
    ensures var r, t := s.reports[i], s.reports[i].table.value;
      LossCount(t.start, t.count, t.requests, p.client.ranges, q) + (if q == t.start then 1 else 0)
      == LostOn(s.hist, r.id, q, t.arrived, p.client) + |RecordedOn(s.hist, r.id, q, t.arrived, p.client)|
         + (if q == Iterate(t.start, t.count, p.client.ranges) then 1 else 0)
  {
    TableFacts(p, acts, s, i);
    LossTableWithoutPorts(p, acts, s, i, q);
    ReplayedOrSent(p, acts, s, i, q);
    SentIsRecordedOrLost(s.hist, s.reports[i].id, q, s.reports[i].table.value.arrived, p.client);
  }

  lemma NothingRecorded(h: seq<Probe>, k: int, q: Pair, cfg: Settings)
    ensures RecordedOn(h, k, q, {}, cfg) == {}
  {
    forall s ensures s !in RecordedOn(h, k, q, {}, cfg) { RecordedOnMembers(h, k, q, {}, s, cfg); }
  }
}
