/** Every report of a repaired span that is handed over carries a loss table. */
module ProtocolTables {
  import opened Machine
  import opened Odometer
  import opened SpanClient
  import opened SpanHistory
  import opened BucketStats
  import opened BucketHeap
  import opened Protocol
  import opened ProtocolInvariant
  import opened ProtocolSafety
  import S = BucketStore

  /** What was read as repaired is repaired still, and reports of repaired spans have tables. */
  ghost predicate Tabled(s: State) {
    && (s.reporter.ReadSpan? && s.reporter.part.fixed ==>
          s.reporter.o < |s.heap.objs| && s.heap.objs[s.reporter.o].packetCountFixed)
    && forall i :: 0 <= i < |s.reports| && s.reports[i].fixed ==> s.reports[i].table.Some?
  }

  /** No bucket object loses its repair. */
  predicate KeepsRepairs(h: Heap, h': Heap) {
    |h.objs| <= |h'.objs| && forall o :: 0 <= o < |h.objs| && h.objs[o].packetCountFixed ==> h'.objs[o].packetCountFixed
  }

  lemma TaskKeepsRepairs(s: State, t: nat, rtt: i64, hasBitflip: bool, p: Params)
    requires Wf(s) && t < |s.tasks|
    ensures var s' := TaskStep(s, t, rtt, hasBitflip, p);
      KeepsRepairs(s.heap, s'.heap) && s'.reporter == s.reporter && s'.reports == s.reports
  {
  }

  lemma StartIsInRange(cfg: Settings)
    requires Usable(cfg.ranges)
    ensures InRange(StartPair(cfg), cfg.ranges)
  {
  }

  /** The first pair of a span lies in the configured ranges. */
  lemma FirstIsInRange(h: seq<Probe>, k: int, cfg: Settings)
    requires Monotone(h, cfg) && Regular(h, cfg) && Usable(cfg.ranges) && Counted(h, k, cfg) > 0
    ensures InRange(First(h, k, cfg), cfg.ranges)
  {
    var a := Block(h, k, cfg);
    StartIsInRange(cfg);
    IterateInRange(StartPair(cfg), a + 1, cfg.ranges);
    assert h[a].pair == Iterate(StartPair(cfg), a + 1, cfg.ranges);
  }

  /** A repaired bucket of a span in the configured ranges has a count and a start pair. */
  lemma RepairedHasTable(s: State, o: nat, p: Params)
    requires Inv(s, p) && Usable(p.client.ranges) && o < |s.heap.objs| && s.heap.objs[o].packetCountFixed
    ensures HasTable(s.heap.objs[o])
  {
    var b := s.heap.objs[o];
    assert BucketOk(b, s.arrived[o], s.removed, s.hist, s.client.bucketID, p);
    FirstIsInRange(s.hist, b.id, p.client);
  }

  lemma ReporterKeepsTabled(s: State, now: int, p: Params)
    requires Inv(s, p) && Wf(s) && Usable(p.client.ranges) && Tabled(s)
    ensures Tabled(ReporterStep(s, now, p))
  {
    if s.reporter.ReadSpan? && s.reporter.part.fixed { RepairedHasTable(s, s.reporter.o, p); }
  }

  lemma StepKeepsTabled(s: State, a: Action, p: Params)
    requires Inv(s, p) && Wf(s) && Usable(p.client.ranges) && Tabled(s) && Enabled(s, a, p)
    ensures Tabled(Do(s, a, p))
  {
    match a
    case RunTask(t, rtt, flip) => TaskKeepsRepairs(s, t, rtt, flip, p);
    case RunReporter(now) => ReporterKeepsTabled(s, now, p);
    case _ =>
  }

  lemma {:induction false} ReachableTabled(p: Params, acts: seq<Action>, s: State)
    requires Reaches(p, acts, s) && Usable(p.client.ranges)
    ensures Tabled(s)
  {
    if acts != [] {
      var n := |acts| - 1;
      var prev :| Reaches(p, acts[..n], prev) && Wf(prev) && Enabled(prev, acts[n], p) && s == Do(prev, acts[n], p);
      ReachableInv(p, acts[..n], prev);
      ReachableTabled(p, acts[..n], prev);
      StepKeepsTabled(prev, acts[n], p);
    }
  }

  /** In every reachable state, with both port ranges below 65535, a report of a repaired span that was
      handed over has its table. */
  lemma RepairedReportsHaveTables(p: Params, acts: seq<Action>, s: State, i: nat)
    requires Reaches(p, acts, s) && Usable(p.client.ranges) && i < |s.reports| && s.reports[i].fixed
    ensures s.reports[i].table.Some?
  {
    ReachableTabled(p, acts, s);
  }
}
