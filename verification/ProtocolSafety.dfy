/** Every step of the one-way loss protocol keeps the invariant. */
module ProtocolSafety {
  import opened Machine
  import opened Odometer
  import opened SpanClient
  import opened SpanHistory
  import opened BucketStats
  import opened BucketHeap
  import opened Protocol
  import opened ProtocolInvariant
  import S = BucketStore

  // ----- the client counts another probe -----

  /** A new probe, of the newest span or a later one, changes nothing known about older spans. */
  predicate Extends(h: seq<Probe>, x: Probe, cur: int, cur': int, p: Params) {
    cur <= SpanOf(x, p.client) && cur <= cur'
  }

  lemma RepairGrows(id: int, count: int, start: Pair, h: seq<Probe>, x: Probe, cur: int, cur': int, p: Params)
    requires Extends(h, x, cur, cur', p) && RepairOk(id, count, start, h, cur, p)
    ensures RepairOk(id, count, start, h + [x], cur', p)
  {
    CountedAppend(h, x, id, p.client);
  }

  lemma EntriesGrow(requests: map<u64, S.Request>, id: int, h: seq<Probe>, x: Probe, p: Params)
    ensures EntriesOk(requests, id, h, p) ==> EntriesOk(requests, id, h + [x], p)
    ensures PortsOk(requests, id, h, p) ==> PortsOk(requests, id, h + [x], p)
  {
    CountedAppend(h, x, id, p.client);
    if PortsOk(requests, id, h, p) {
      forall q | q in requests
        ensures Used(h + [x], id, Pair(requests[q].clientPort, requests[q].serverPort), q, p.client)
      {
        var pair := Pair(requests[q].clientPort, requests[q].serverPort);
        assert Used(h, id, pair, q, p.client);
        var i :| 0 <= i < |h| && SpanOf(h[i], p.client) == id && h[i].seqNo == q && h[i].pair == pair;
        assert (h + [x])[i] == h[i];
      }
    }
  }

  lemma BucketGrows(b: S.BucketState, arrived: set<u64>, removed: set<BucketID>, h: seq<Probe>, x: Probe, cur: int, cur': int, p: Params)
    requires Extends(h, x, cur, cur', p) && BucketOk(b, arrived, removed, h, cur, p)
    ensures BucketOk(b, arrived, removed, h + [x], cur', p)
  {
    CountedAppend(h, x, b.id, p.client);
    EntriesGrow(b.requests, b.id, h, x, p);
    if b.packetCountFixed {
      RepairGrows(b.id, b.packetCount, Pair(b.startSrcPort, b.startDstPort), h, x, cur, cur', p);
    }
  }

  lemma ReportGrows(r: Report, h: seq<Probe>, x: Probe, cur: int, cur': int, p: Params)
    requires Extends(h, x, cur, cur', p) && ReportOk(r, h, cur, p)
    ensures ReportOk(r, h + [x], cur', p)
  {
    CountedAppend(h, x, r.id, p.client);
    if r.table.Some? {
      var t := r.table.value;
      RepairGrows(r.id, t.count, t.start, h, x, cur, cur', p);
      EntriesGrow(t.requests, r.id, h, x, p);
    }
  }

  lemma ObjectsGrow(s: State, x: Probe, cur': int, p: Params)
    requires HeapOk(s) && ObjectsOk(s, p) && Extends(s.hist, x, s.client.bucketID, cur', p)
    ensures forall o :: 0 <= o < |s.heap.objs| ==> BucketOk(s.heap.objs[o], s.arrived[o], s.removed, s.hist + [x], cur', p)
  {
    forall o | 0 <= o < |s.heap.objs|
      ensures BucketOk(s.heap.objs[o], s.arrived[o], s.removed, s.hist + [x], cur', p)
    {
      BucketGrows(s.heap.objs[o], s.arrived[o], s.removed, s.hist, x, s.client.bucketID, cur', p);
    }
  }

  lemma ReportsGrow(s: State, x: Probe, cur': int, p: Params)
    requires ReportsOk(s, p) && Extends(s.hist, x, s.client.bucketID, cur', p)
    ensures forall i :: 0 <= i < |s.reports| ==> ReportOk(s.reports[i], s.hist + [x], cur', p)
  {
    forall i | 0 <= i < |s.reports| ensures ReportOk(s.reports[i], s.hist + [x], cur', p) {
      ReportGrows(s.reports[i], s.hist, x, s.client.bucketID, cur', p);
    }
  }

  lemma ReporterGrows(s: State, x: Probe, cur': int, p: Params)
    requires Wf(s) && ReporterOk(s, p) && Extends(s.hist, x, s.client.bucketID, cur', p)
    ensures s.reporter.ReadSpan? || s.reporter.ReadEntries? ==> ReportOk(s.reporter.part, s.hist + [x], cur', p)
    ensures s.reporter.ReadEntries? ==> RepairOk(s.reporter.part.id, s.reporter.count, s.reporter.start, s.hist + [x], cur', p)
  {
    if s.reporter.ReadSpan? || s.reporter.ReadEntries? {
      ReportGrows(s.reporter.part, s.hist, x, s.client.bucketID, cur', p);
    }
    if s.reporter.ReadEntries? {
      RepairGrows(s.reporter.part.id, s.reporter.count, s.reporter.start, s.hist, x, s.client.bucketID, cur', p);
    }
  }

  lemma SendExtends(s: State, ts: nat, onWire: bool, p: Params)
    requires Inv(s, p) && MaySend(s.hist, ts, p.client)
    ensures var s' := SendStep(s, ts, onWire, p);
      && ClientOk(s'.client, s'.hist, p.client)
      && s'.hist == s.hist + [s'.hist[|s.hist|]] && Extends(s.hist, s'.hist[|s.hist|], s.client.bucketID, s'.client.bucketID, p)
  {
    SendKeepsClientOk(s.client, s.hist, ts, onWire, p.client);
    SpanIsNewest(s.hist, ts, p.client);
  }

  lemma SendKeepsTasks(s: State, ts: nat, onWire: bool, p: Params)
    requires HeapWf(s) && TasksOk(s, p)
    ensures TasksOk(SendStep(s, ts, onWire, p), p)
  {
    var s' := SendStep(s, ts, onWire, p);
    forall t | 0 <= t < |s.tasks| ensures TaskOk(s', s'.tasks[t], p) { assert TaskOk(s, s.tasks[t], p); }
  }

  lemma SendKeepsReports(s: State, ts: nat, onWire: bool, p: Params)
    requires Inv(s, p) && Wf(s) && MaySend(s.hist, ts, p.client)
    ensures var s' := SendStep(s, ts, onWire, p); ReporterOk(s', p) && ReportsOk(s', p)
  {
    var s' := SendStep(s, ts, onWire, p);
    SendExtends(s, ts, onWire, p);
    ReportsGrow(s, s'.hist[|s.hist|], s'.client.bucketID, p);
    ReporterGrows(s, s'.hist[|s.hist|], s'.client.bucketID, p);
  }

  lemma SendKeepsInv(s: State, ts: nat, onWire: bool, p: Params)
    requires Inv(s, p) && Wf(s) && MaySend(s.hist, ts, p.client)
    ensures Inv(SendStep(s, ts, onWire, p), p)
  {
    var s' := SendStep(s, ts, onWire, p);
    SendExtends(s, ts, onWire, p);
    ObjectsGrow(s, s'.hist[|s.hist|], s'.client.bucketID, p);
    SendKeepsTasks(s, ts, onWire, p);
    SendKeepsReports(s, ts, onWire, p);
  }

  lemma DeliverKeepsInv(s: State, i: nat, p: Params)
    requires Inv(s, p) && i < |s.hist|
    ensures Inv(DeliverStep(s, i, p), p)
  {
    var s' := DeliverStep(s, i, p);
    forall t | 0 <= t < |s'.tasks| ensures TaskOk(s', s'.tasks[t], p) {
      if t < |s.tasks| { assert TaskOk(s, s.tasks[t], p); }
    }
  }

  // ----- handlers -----

  lemma SetPcKeepsInv(s: State, t: nat, pc: Pc, p: Params)
    requires Inv(s, p) && t < |s.tasks| && TaskOk(s, s.tasks[t].(pc := pc), p)
    ensures Inv(SetPc(s, t, pc), p)
  {
    var s' := SetPc(s, t, pc);
    forall u | 0 <= u < |s'.tasks| ensures TaskOk(s', s'.tasks[u], p) {
      if u != t { assert TaskOk(s, s.tasks[u], p); }
    }
  }

  lemma TaskSpanCounted(s: State, t: nat, p: Params)
    requires Inv(s, p) && t < |s.tasks|
    ensures s.tasks[t].probe < |s.hist|
    ensures var k := TaskSpan(s, t, p);
      && k >= 1 && Counted(s.hist, k, p.client) > 0
      && s.hist[s.tasks[t].probe].seqNo in SeqsIn(s.hist, k, p.client)
  {
    assert TaskOk(s, s.tasks[t], p);
    CountedPositive(s.hist, s.tasks[t].probe, p.client);
  }

  lemma WithObjectKeepsHeap(s: State, id: int, p: Params)
    requires HeapOk(s) && id >= 1
    ensures HeapOk(WithObject(s, id, p))
    ensures forall o :: 0 <= o < |s.heap.objs| && Live(s, o) ==>
      WithObject(s, id, p).heap.objs[o] == s.heap.objs[o] && Live(WithObject(s, id, p), o)
  {
    var s' := WithObject(s, id, p);
    if id !in s.heap.index {
      forall o | 0 <= o < |s'.heap.objs| && s'.heap.objs[o].id !in s'.removed ensures Live(s', o) {
        if o < |s.heap.objs| { assert Live(s, o); }
      }
    }
  }

  lemma WithObjectKeepsObjects(s: State, id: int, p: Params)
    requires HeapWf(s) && ObjectsOk(s, p) && id >= 1 && Counted(s.hist, id, p.client) > 0
    ensures ObjectsOk(WithObject(s, id, p), p)
  {
    var s' := WithObject(s, id, p);
    forall o | 0 <= o < |s'.heap.objs|
      ensures BucketOk(s'.heap.objs[o], s'.arrived[o], s'.removed, s'.hist, s'.client.bucketID, p)
    {
      if o < |s.heap.objs| {
        assert BucketOk(s.heap.objs[o], s.arrived[o], s.removed, s.hist, s.client.bucketID, p);
      }
    }
  }

  lemma WithObjectKeepsTasks(s: State, id: int, p: Params)
    requires HeapWf(s) && TasksOk(s, p)
    ensures TasksOk(WithObject(s, id, p), p)
  {
    var s' := WithObject(s, id, p);
    forall t | 0 <= t < |s'.tasks| ensures TaskOk(s', s'.tasks[t], p) { assert TaskOk(s, s.tasks[t], p); }
  }

  lemma WithObjectKeepsInv(s: State, id: int, p: Params)
    requires Inv(s, p) && id >= 1 && Counted(s.hist, id, p.client) > 0
    ensures Inv(WithObject(s, id, p), p)
  {
    WithObjectKeepsHeap(s, id, p);
    WithObjectKeepsObjects(s, id, p);
    WithObjectKeepsTasks(s, id, p);
  }

  /** Rewriting one object, keeping its identifier and its entries. */
  function Rewrite(s: State, o: nat, b: S.BucketState, arrived: set<u64>): State
    requires HeapWf(s) && o < |s.heap.objs|
  {
    WriteObject(s, o, b).(arrived := s.arrived[o := arrived])
  }

  lemma RewriteKeepsHeap(s: State, o: nat, b: S.BucketState, arrived: set<u64>)
    requires HeapOk(s) && o < |s.heap.objs| && b.id == s.heap.objs[o].id
    ensures HeapOk(Rewrite(s, o, b, arrived))
    ensures forall i :: 0 <= i < |s.heap.objs| ==> (Live(s, i) <==> Live(Rewrite(s, o, b, arrived), i))
  {
    var s' := Rewrite(s, o, b, arrived);
    forall i | 0 <= i < |s.heap.objs| ensures Live(s, i) <==> Live(s', i) {}
    forall i | 0 <= i < |s'.heap.objs| && s'.heap.objs[i].id !in s'.removed ensures Live(s', i) {
      assert Live(s, i);
    }
  }

  lemma RewriteKeepsInv(s: State, o: nat, b: S.BucketState, arrived: set<u64>, p: Params)
    requires Inv(s, p) && o < |s.heap.objs| && b.id == s.heap.objs[o].id
    requires s.heap.objs[o].requests.Keys <= b.requests.Keys
    requires BucketOk(b, arrived, s.removed, s.hist, s.client.bucketID, p)
    ensures Inv(Rewrite(s, o, b, arrived), p)
  {
    var s' := Rewrite(s, o, b, arrived);
    RewriteKeepsHeap(s, o, b, arrived);
    forall i | 0 <= i < |s'.heap.objs|
      ensures BucketOk(s'.heap.objs[i], s'.arrived[i], s'.removed, s'.hist, s'.client.bucketID, p)
    {
      if i != o {
        assert BucketOk(s.heap.objs[i], s.arrived[i], s.removed, s.hist, s.client.bucketID, p);
      }
    }
    forall t | 0 <= t < |s'.tasks| ensures TaskOk(s', s'.tasks[t], p) { assert TaskOk(s, s.tasks[t], p); }
  }

  lemma LookupKeepsInv(s: State, t: nat, p: Params)
    requires Inv(s, p) && Wf(s) && t < |s.tasks| && s.tasks[t].pc.PutLookup?
    ensures Inv(LookupStep(s, t, p), p)
  {
    TaskSpanCounted(s, t, p);
    assert TaskOk(s, s.tasks[t], p);
    var s1 := WithObject(s, TaskSpan(s, t, p), p);
    WithObjectKeepsInv(s, TaskSpan(s, t, p), p);
    SetPcKeepsInv(s1, t, PutStore(s1.heap.index[TaskSpan(s, t, p)]), p);
  }

  lemma PutAnswers(b: S.BucketState, src: u16, dst: u16, seqNo: u64, ts: i64)
    ensures Answered(S.BucketPut(b, src, dst, seqNo, ts).requests) == Answered(b.requests)
    ensures S.BucketPut(b, src, dst, seqNo, ts).requests.Keys == b.requests.Keys + {seqNo}
  {
  }

  /** Recording an arrival makes it answer, unless the measured time is the sentinel. */
  lemma ReceivedAnswers(b: S.BucketState, seqNo: u64, rtt: i64, hasBitflip: bool)
    ensures Answered(S.BucketReceived(b, seqNo, rtt, hasBitflip).requests)
         == if rtt == S.RTT_UNSET then Answered(b.requests) - {seqNo} else Answered(b.requests) + {seqNo}
    ensures S.BucketReceived(b, seqNo, rtt, hasBitflip).requests.Keys == b.requests.Keys + {seqNo}
  {
  }

  /** Recording the ports of a probe in an object of its span. */
  lemma PutKeepsBucket(s: State, o: nat, i: nat, p: Params)
    requires Inv(s, p) && p.putFirst && o < |s.heap.objs| && i < |s.hist|
    requires s.heap.objs[o].id == SpanOf(s.hist[i], p.client)
    ensures var x := s.hist[i];
            BucketOk(S.BucketPut(s.heap.objs[o], x.pair.src, x.pair.dst, x.seqNo, WrapI64(x.ts)),
                     s.arrived[o], s.removed, s.hist, s.client.bucketID, p)
  {
    var b, x := s.heap.objs[o], s.hist[i];
    var b' := S.BucketPut(b, x.pair.src, x.pair.dst, x.seqNo, WrapI64(x.ts));
    assert BucketOk(b, s.arrived[o], s.removed, s.hist, s.client.bucketID, p);
    PutAnswers(b, x.pair.src, x.pair.dst, x.seqNo, WrapI64(x.ts));
    if b.id !in s.removed {
      forall q | q in b'.requests
        ensures Used(s.hist, b.id, Pair(b'.requests[q].clientPort, b'.requests[q].serverPort), q, p.client)
      {
        if q == x.seqNo {
          assert SpanOf(s.hist[i], p.client) == b.id && s.hist[i].seqNo == q;
        } else {
          assert Used(s.hist, b.id, Pair(b.requests[q].clientPort, b.requests[q].serverPort), q, p.client);
        }
      }
    }
  }

  lemma StoreKeepsInv(s: State, t: nat, p: Params)
    requires Inv(s, p) && Wf(s) && t < |s.tasks| && s.tasks[t].pc.PutStore?
    ensures Inv(StoreStep(s, t, p), p)
  {
    assert TaskOk(s, s.tasks[t], p);
    var o, i := s.tasks[t].pc.o, s.tasks[t].probe;
    var x := s.hist[i];
    var b' := S.BucketPut(s.heap.objs[o], x.pair.src, x.pair.dst, x.seqNo, WrapI64(x.ts));
    PutAnswers(s.heap.objs[o], x.pair.src, x.pair.dst, x.seqNo, WrapI64(x.ts));
    PutKeepsBucket(s, o, i, p);
    RewriteKeepsInv(s, o, b', s.arrived[o], p);
    var s1 := Rewrite(s, o, b', s.arrived[o]);
    assert s1 == WriteObject(s, o, b') by { assert s.arrived[o := s.arrived[o]] == s.arrived; }
    assert b'.id !in s1.removed ==> Live(s1, o);
    SetPcKeepsInv(s1, t, Record, p);
  }

  /** An arrival keeps the entries of an object right, provided its ports were stored first. */
  lemma ReceivedKeepsEntries(b: S.BucketState, seqNo: u64, rtt: i64, hasBitflip: bool, h: seq<Probe>, p: Params)
    requires EntriesOk(b.requests, b.id, h, p) && seqNo in SeqsIn(h, b.id, p.client)
    ensures EntriesOk(S.BucketReceived(b, seqNo, rtt, hasBitflip).requests, b.id, h, p)
    ensures PortsOk(b.requests, b.id, h, p) && seqNo in b.requests
        ==> PortsOk(S.BucketReceived(b, seqNo, rtt, hasBitflip).requests, b.id, h, p)
  {
    var r' := S.BucketReceived(b, seqNo, rtt, hasBitflip).requests;
    if PortsOk(b.requests, b.id, h, p) && seqNo in b.requests {
      forall q | q in r' ensures Used(h, b.id, Pair(r'[q].clientPort, r'[q].serverPort), q, p.client) {
        assert Used(h, b.id, Pair(b.requests[q].clientPort, b.requests[q].serverPort), q, p.client);
      }
    }
  }

  /** Recording the arrival of a probe in the live object of its span. */
  lemma ReceivedKeepsBucket(s: State, t: nat, o: nat, rtt: i64, hasBitflip: bool, p: Params)
    requires Inv(s, p) && t < |s.tasks| && s.tasks[t].pc.Record?
    requires s.tasks[t].probe < |s.hist| && o < |s.heap.objs| && s.heap.objs[o].id == TaskSpan(s, t, p) && Live(s, o)
    ensures var b' := S.BucketReceived(s.heap.objs[o], s.hist[s.tasks[t].probe].seqNo, rtt, hasBitflip).(fixed := true);
            BucketOk(b', s.arrived[o] + {s.hist[s.tasks[t].probe].seqNo}, s.removed, s.hist, s.client.bucketID, p)
  {
    var b, x := s.heap.objs[o], s.hist[s.tasks[t].probe];
    TaskSpanCounted(s, t, p);
    assert BucketOk(b, s.arrived[o], s.removed, s.hist, s.client.bucketID, p);
    ReceivedAnswers(b, x.seqNo, rtt, hasBitflip);
    ReceivedKeepsEntries(b, x.seqNo, rtt, hasBitflip, s.hist, p);
    assert TaskOk(s, s.tasks[t], p);
  }

  lemma RecordKeepsInv(s: State, t: nat, rtt: i64, hasBitflip: bool, p: Params)
    requires Inv(s, p) && Wf(s) && t < |s.tasks| && s.tasks[t].pc.Record?
    ensures Inv(RecordStep(s, t, rtt, hasBitflip, p), p)
  {
    TaskSpanCounted(s, t, p);
    var id, x := TaskSpan(s, t, p), s.hist[s.tasks[t].probe];
    WithObjectKeepsInv(s, id, p);
    var s1 := WithObject(s, id, p);
    var o := s1.heap.index[id];
    var b := s1.heap.objs[o];
    ReceivedKeepsBucket(s1, t, o, rtt, hasBitflip, p);
    ReceivedAnswers(b, x.seqNo, rtt, hasBitflip);
    var b' := S.BucketReceived(b, x.seqNo, rtt, hasBitflip).(fixed := true);
    RewriteKeepsInv(s1, o, b', s1.arrived[o] + {x.seqNo}, p);
    var s2 := Rewrite(s1, o, b', s1.arrived[o] + {x.seqNo});
    SetPcKeepsInv(s2, t, if !b.fixed && x.last.count > 0 then FixLookup else Done, p);
  }

  lemma FixLookupTaskOk(s: State, t: nat, p: Params)
    requires Inv(s, p) && Wf(s) && t < |s.tasks| && s.tasks[t].pc.FixLookup?
    ensures var id := TaskSpan(s, t, p) - 1;
      TaskOk(s, s.tasks[t].(pc := if id in s.heap.index then FixWrite(s.heap.index[id]) else Done), p)
  {
    assert TaskOk(s, s.tasks[t], p);
  }

  lemma FixLookupKeepsInv(s: State, t: nat, p: Params)
    requires Inv(s, p) && Wf(s) && t < |s.tasks| && s.tasks[t].pc.FixLookup?
    ensures Inv(FixLookupStep(s, t, p), p)
  {
    var id := TaskSpan(s, t, p) - 1;
    var pc := if id in s.heap.index then FixWrite(s.heap.index[id]) else Done;
    FixLookupTaskOk(s, t, p);
    SetPcKeepsInv(s, t, pc, p);
    assert FixLookupStep(s, t, p) == SetPc(s, t, pc);
  }

  /** The repair of the previous span's object writes that span's true count and first pair. */
  lemma RepairKeepsBucket(s: State, o: nat, i: nat, p: Params)
    requires Inv(s, p) && o < |s.heap.objs| && i < |s.hist|
    requires s.heap.objs[o].id == SpanOf(s.hist[i], p.client) - 1
    ensures var last := s.hist[i].last;
            BucketOk(S.BucketRepair(s.heap.objs[o], last.count, last.src, last.dst),
                     s.arrived[o], s.removed, s.hist, s.client.bucketID, p)
  {
    assert BucketOk(s.heap.objs[o], s.arrived[o], s.removed, s.hist, s.client.bucketID, p);
    assert TellsPrevious(s.hist[i], s.hist, p.client);
    assert SpanOf(s.hist[i], p.client) <= SpanOf(s.hist[|s.hist| - 1], p.client);
  }

  lemma FixWriteKeepsInv(s: State, t: nat, p: Params)
    requires Inv(s, p) && Wf(s) && t < |s.tasks| && s.tasks[t].pc.FixWrite?
    ensures Inv(FixWriteStep(s, t, p), p)
  {
    assert TaskOk(s, s.tasks[t], p);
    var o, i := s.tasks[t].pc.o, s.tasks[t].probe;
    var last := s.hist[i].last;
    RepairKeepsBucket(s, o, i, p);
    var b' := S.BucketRepair(s.heap.objs[o], last.count, last.src, last.dst);
    RewriteKeepsInv(s, o, b', s.arrived[o], p);
    var s1 := Rewrite(s, o, b', s.arrived[o]);
    assert s1 == WriteObject(s, o, b') by { assert s.arrived[o := s.arrived[o]] == s.arrived; }
    SetPcKeepsInv(s1, t, Done, p);
  }

  lemma TaskStepKeepsInv(s: State, t: nat, rtt: i64, hasBitflip: bool, p: Params)
    requires Inv(s, p) && Wf(s) && t < |s.tasks|
    ensures Inv(TaskStep(s, t, rtt, hasBitflip, p), p)
  {
    match s.tasks[t].pc
    case PutLookup => LookupKeepsInv(s, t, p);
    case PutStore(_) => StoreKeepsInv(s, t, p);
    case Record => RecordKeepsInv(s, t, rtt, hasBitflip, p);
    case FixLookup => FixLookupKeepsInv(s, t, p);
    case FixWrite(_) => FixWriteKeepsInv(s, t, p);
    case Done =>
  }

  // ----- the reporter -----

  lemma RemoveKeepsHeap(s: State, id: int)
    requires HeapOk(s) && id <= s.lastID
    ensures HeapOk(RemoveID(s, id))
  {
    var s' := RemoveID(s, id);
    forall o | 0 <= o < |s'.heap.objs| && s'.heap.objs[o].id !in s'.removed ensures Live(s', o) { assert Live(s, o); }
    var ids := s.heap.index.Keys;
    assert s'.heap.index.Keys == ids - {id};
    if id != s.heap.minID && ids != {} {
      assert s.heap.minID in ids - {id};
    }
  }

  lemma RemoveKeepsObjects(s: State, id: int, p: Params)
    requires HeapWf(s) && ObjectsOk(s, p)
    ensures ObjectsOk(RemoveID(s, id), p)
  {
    var s' := RemoveID(s, id);
    forall o | 0 <= o < |s'.heap.objs|
      ensures BucketOk(s'.heap.objs[o], s'.arrived[o], s'.removed, s'.hist, s'.client.bucketID, p)
    {
      assert BucketOk(s.heap.objs[o], s.arrived[o], s.removed, s.hist, s.client.bucketID, p);
    }
  }

  lemma RemoveKeepsTasks(s: State, id: int, p: Params)
    requires HeapWf(s) && TasksOk(s, p)
    ensures TasksOk(RemoveID(s, id), p)
  {
    var s' := RemoveID(s, id);
    forall t | 0 <= t < |s'.tasks| ensures TaskOk(s', s'.tasks[t], p) { assert TaskOk(s, s.tasks[t], p); }
  }

  /** Removing a reported or stale bucket; the reporter then holds no object. */
  lemma RemoveKeepsInv(s: State, id: int, next: Reporter, p: Params)
    requires Inv(s, p) && id <= s.lastID && (next.Idle? || next.Rescan?)
    ensures Inv(RemoveID(s, id).(reporter := next), p)
  {
    var s1 := s.(reporter := next);
    assert RemoveID(s, id).(reporter := next) == RemoveID(s1, id);
    MoveKeepsInv(s, next, p);
    RemoveKeepsHeap(s1, id);
    RemoveKeepsObjects(s1, id, p);
    RemoveKeepsTasks(s1, id, p);
  }

  lemma OldestIsLive(s: State)
    requires HeapOk(s) && Oldest(s.heap).Some?
    ensures Oldest(s.heap).value < |s.heap.objs| && Live(s, Oldest(s.heap).value)
  {
  }

  lemma SubsetCard<T>(a: set<T>, b: set<T>)
    requires a <= b
    ensures |a| <= |b|
  {
    assert b == a + (b - a);
  }

  /** The figures of one locked section make a right report. */
  lemma FiguresOk(s: State, o: nat, p: Params)
    requires Inv(s, p) && o < |s.heap.objs|
    ensures var b := s.heap.objs[o];
            ReportOk(Report(b.id, b.packetCountFixed, b.requests, ServerTotals(b), s.arrived[o], None),
                     s.hist, s.client.bucketID, p)
  {
    var b := s.heap.objs[o];
    assert BucketOk(b, s.arrived[o], s.removed, s.hist, s.client.bucketID, p);
    SubsetCard(Answered(b.requests), b.requests.Keys);
  }

  lemma ScanKeepsInv(s: State, o: nat, p: Params)
    requires Inv(s, p) && s.reporter == Scan(o)
    ensures Inv(ScanStep(s, o), p)
  {
    var b := s.heap.objs[o];
    assert BucketOk(b, s.arrived[o], s.removed, s.hist, s.client.bucketID, p);
    if b.id <= s.lastID {
      RemoveKeepsInv(s, b.id, Rescan, p);
    } else {
      FiguresOk(s, o, p);
      var s' := ScanStep(s, o);
      forall i | 0 <= i < |s'.heap.objs| && s'.heap.objs[i].id !in s'.removed ensures Live(s', i) { assert Live(s, i); }
      forall t | 0 <= t < |s'.tasks| ensures TaskOk(s', s'.tasks[t], p) { assert TaskOk(s, s.tasks[t], p); }
    }
  }

  lemma AppendKeepsReports(s: State, r: Report, next: Reporter, p: Params)
    requires ReportsOk(s, p) && (s.reporter.ReadSpan? || s.reporter.ReadEntries?) && next.Finish?
    requires ReportOk(r, s.hist, s.client.bucketID, p) && r.id == s.lastID
    ensures ReportsOk(s.(reports := s.reports + [r], reporter := next), p)
  {
  }

  /** Handing over a finished report. */
  lemma AppendKeepsInv(s: State, o: nat, r: Report, p: Params)
    requires Inv(s, p) && (s.reporter.ReadSpan? || s.reporter.ReadEntries?) && s.reporter.o == o
    requires ReportOk(r, s.hist, s.client.bucketID, p) && r.id == s.lastID
    ensures Inv(s.(reports := s.reports + [r], reporter := Finish(o)), p)
  {
    var s' := s.(reports := s.reports + [r], reporter := Finish(o));
    forall i | 0 <= i < |s'.heap.objs| && s'.heap.objs[i].id !in s'.removed ensures Live(s', i) { assert Live(s, i); }
    forall t | 0 <= t < |s'.tasks| ensures TaskOk(s', s'.tasks[t], p) { assert TaskOk(s, s.tasks[t], p); }
    AppendKeepsReports(s, r, Finish(o), p);
  }

  lemma ReadKeepsInv(s: State, now: int, p: Params)
    requires Inv(s, p) && Wf(s) && (s.reporter.ReadSpan? || s.reporter.ReadEntries?)
    ensures Inv(ReporterStep(s, now, p), p)
  {
    var o, part := s.reporter.o, s.reporter.part;
    var b := s.heap.objs[o];
    assert BucketOk(b, s.arrived[o], s.removed, s.hist, s.client.bucketID, p);
    if s.reporter.ReadSpan? {
      if HasTable(b) {
        MoveKeepsInv(s, ReadEntries(o, part, Pair(b.startSrcPort, b.startDstPort), b.packetCount), p);
      } else {
        AppendKeepsInv(s, o, part, p);
      }
    } else {
      var table := TableInput(s.reporter.start, s.reporter.count, b.requests, s.arrived[o]);
      AppendKeepsInv(s, o, part.(table := Some(table)), p);
    }
  }

  /** A reporter move that changes nothing but its own position. */
  lemma MoveKeepsInv(s: State, next: Reporter, p: Params)
    requires Inv(s, p) && ReporterOk(s.(reporter := next), p)
    requires next.ReadSpan? || next.ReadEntries? ==> s.reporter.ReadSpan? || s.reporter.ReadEntries?
    ensures Inv(s.(reporter := next), p)
  {
    var s' := s.(reporter := next);
    forall i | 0 <= i < |s'.heap.objs| && s'.heap.objs[i].id !in s'.removed ensures Live(s', i) { assert Live(s, i); }
    forall t | 0 <= t < |s'.tasks| ensures TaskOk(s', s'.tasks[t], p) { assert TaskOk(s, s.tasks[t], p); }
  }

  lemma ReporterKeepsInv(s: State, now: int, p: Params)
    requires Inv(s, p) && Wf(s)
    ensures Inv(ReporterStep(s, now, p), p)
  {
    match s.reporter
    case Idle =>
      if Oldest(s.heap).Some? {
        OldestIsLive(s);
        MoveKeepsInv(s, Scan(Oldest(s.heap).value), p);
      }
    case Scan(o) => ScanKeepsInv(s, o, p);
    case Rescan =>
      if Oldest(s.heap).Some? { OldestIsLive(s); }
      MoveKeepsInv(s, if Oldest(s.heap).None? then Idle else Scan(Oldest(s.heap).value), p);
    case ReadSpan(_, _) => ReadKeepsInv(s, now, p);
    case ReadEntries(_, _, _, _) => ReadKeepsInv(s, now, p);
    case Finish(o) => RemoveKeepsInv(s, s.heap.objs[o].id, Idle, p);
  }

  /** Every step keeps the invariant. */
  lemma StepKeepsInv(s: State, a: Action, p: Params)
    requires Inv(s, p) && Wf(s) && Enabled(s, a, p)
    ensures Inv(Do(s, a, p), p)
  {
    match a
    case SendProbe(ts, onWire) => SendKeepsInv(s, ts, onWire, p);
    case Deliver(i) => DeliverKeepsInv(s, i, p);
    case RunTask(t, rtt, flip) => TaskStepKeepsInv(s, t, rtt, flip, p);
    case RunReporter(now) => ReporterKeepsInv(s, now, p);
  }

  /** The invariant holds in every reachable state, and no run gets stuck on a dangling reference. */
  lemma {:induction false} ReachableInv(p: Params, acts: seq<Action>, s: State)
    requires Reaches(p, acts, s)
    ensures Inv(s, p) && Wf(s)
  {
    if acts == [] {
      InitInv(p);
    } else {
      var n := |acts| - 1;
      var prev :| Reaches(p, acts[..n], prev) && Wf(prev) && Enabled(prev, acts[n], p) && s == Do(prev, acts[n], p);
      ReachableInv(p, acts[..n], prev);
      StepKeepsInv(prev, acts[n], p);
    }
    InvIsWf(s, p);
  }
}
