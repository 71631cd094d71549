/** Run without interruption, a handler's lock sections are exactly the store operations. */
module ProtocolRefinement {
  import opened Machine
  import opened Odometer
  import opened SpanClient
  import opened BucketStats
  import opened BucketHeap
  import opened Protocol
  import opened ProtocolInvariant
  import opened ProtocolSafety
  import S = BucketStore

  /** Lookup then store, on the same handler, is Put. */
  lemma PutIsTwoSections(s: State, t: nat, p: Params)
    requires Inv(s, p) && Wf(s) && t < |s.tasks| && s.tasks[t].pc.PutLookup?
    requires s.hist[s.tasks[t].probe].ts < 0x8000_0000_0000_0000
    ensures var s1, x := LookupStep(s, t, p), s.hist[s.tasks[t].probe];
      Wf(s1) && View(StoreStep(s1, t, p).heap) == S.Put(View(s.heap), p.Server(), x.pair.src, x.pair.dst, x.seqNo, x.ts)
  {
    var s1, x, id := LookupStep(s, t, p), s.hist[s.tasks[t].probe], TaskSpan(s, t, p);
    TaskSpanCounted(s, t, p);
    LookupKeepsInv(s, t, p);
    InvIsWf(s1, p);
    ViewWith(s.heap, id, p.Server());
    assert View(s1.heap) == View(WithObject(s, id, p).heap);
    var o := s1.heap.index[id];
    ViewWrite(s1.heap, id, S.BucketPut(s1.heap.objs[o], x.pair.src, x.pair.dst, x.seqNo, x.ts));
  }

  /** `v1` is `v` after the recording half of ReceivedAndFix for probe `x`. */
  predicate RecordingHalf(v: S.Store, v1: S.Store, x: Probe, rtt: i64, hasBitflip: bool, p: Params) {
    var id := SpanOf(x, p.client);
    var w := S.WithBucket(v, id, p.Server());
    v1 == S.SetBucket(w, id, S.BucketReceived(w.buckets[id], x.seqNo, rtt, hasBitflip).(fixed := true))
  }

  /** Whether that probe goes on to repair the previous bucket. */
  predicate Repairs(v: S.Store, x: Probe, p: Params) {
    var id := SpanOf(x, p.client);
    !S.WithBucket(v, id, p.Server()).buckets[id].fixed && x.last.count > 0
  }

  /** The recording section is the recording half; the handler then repairs, or is done. */
  lemma RecordView(s: State, t: nat, rtt: i64, hasBitflip: bool, p: Params)
    requires Inv(s, p) && Wf(s) && t < |s.tasks| && s.tasks[t].pc.Record?
    ensures var s', x := RecordStep(s, t, rtt, hasBitflip, p), s.hist[s.tasks[t].probe];
      && Inv(s', p) && Wf(s') && s'.hist == s.hist && |s'.tasks| == |s.tasks| && s'.tasks[t].probe == s.tasks[t].probe
      && RecordingHalf(View(s.heap), View(s'.heap), x, rtt, hasBitflip, p)
      && s'.tasks[t].pc == if Repairs(View(s.heap), x, p) then FixLookup else Done
  {
    var x, id := s.hist[s.tasks[t].probe], TaskSpan(s, t, p);
    TaskSpanCounted(s, t, p);
    WithObjectKeepsHeap(s, id, p);
    ViewWith(s.heap, id, p.Server());
    var s1 := WithObject(s, id, p);
    var o := s1.heap.index[id];
    ViewWrite(s1.heap, id, S.BucketReceived(s1.heap.objs[o], x.seqNo, rtt, hasBitflip).(fixed := true));
    RecordKeepsInv(s, t, rtt, hasBitflip, p);
    InvIsWf(RecordStep(s, t, rtt, hasBitflip, p), p);
  }

  lemma FixLookupView(s: State, t: nat, p: Params)
    requires Inv(s, p) && Wf(s) && t < |s.tasks| && s.tasks[t].pc.FixLookup?
    ensures var s', id := FixLookupStep(s, t, p), TaskSpan(s, t, p) - 1;
      && Inv(s', p) && Wf(s') && s' == s.(tasks := s'.tasks) && |s'.tasks| == |s.tasks| && s'.tasks[t].probe == s.tasks[t].probe
      && View(s'.heap) == View(s.heap)
      && s'.tasks[t].pc == if id in s.heap.index then FixWrite(s.heap.index[id]) else Done
  {
    FixLookupKeepsInv(s, t, p);
    InvIsWf(FixLookupStep(s, t, p), p);
  }

  lemma FixWriteView(s: State, t: nat, id: int, p: Params)
    requires Inv(s, p) && Wf(s) && t < |s.tasks| && id in s.heap.index && s.tasks[t].pc == FixWrite(s.heap.index[id])
    ensures var s', last := FixWriteStep(s, t, p), s.hist[s.tasks[t].probe].last;
      && HeapWf(s') && |s'.tasks| == |s.tasks| && s'.tasks[t].pc.Done?
      && View(s'.heap) == S.SetBucket(View(s.heap), id, S.BucketRepair(View(s.heap).buckets[id], last.count, last.src, last.dst))
  {
    var o, last := s.heap.index[id], s.hist[s.tasks[t].probe].last;
    ViewWrite(s.heap, id, S.BucketRepair(s.heap.objs[o], last.count, last.src, last.dst));
  }

  /** What the two repairing sections do to a store, the second only if the bucket is there. */
  function AfterRepair(v: S.Store, x: Probe, p: Params): S.Store {
    var id := SpanOf(x, p.client) - 1;
    if id in v.buckets then S.SetBucket(v, id, S.BucketRepair(v.buckets[id], x.last.count, x.last.src, x.last.dst)) else v
  }

  /** The two repairing sections, whether the bucket is found or not. */
  lemma RepairView(s: State, t: nat, p: Params)
    requires Inv(s, p) && Wf(s) && t < |s.tasks| && s.tasks[t].pc.FixLookup?
    ensures var s2, x := FixLookupStep(s, t, p), s.hist[s.tasks[t].probe];
      && Wf(s2)
      && (s2.tasks[t].pc.Done? ==> View(s2.heap) == AfterRepair(View(s.heap), x, p))
      && (s2.tasks[t].pc.FixWrite? ==>
            HeapWf(FixWriteStep(s2, t, p)) && View(FixWriteStep(s2, t, p).heap) == AfterRepair(View(s.heap), x, p))
  {
    FixLookupView(s, t, p);
    var s2, id := FixLookupStep(s, t, p), TaskSpan(s, t, p) - 1;
    if s2.tasks[t].pc.FixWrite? { FixWriteView(s2, t, id, p); }
  }

  /** ReceivedAndFix, given the store after its recording half. */
  lemma SecondHalf(v: S.Store, v1: S.Store, x: Probe, rtt: i64, hasBitflip: bool, p: Params)
    requires x.ts < 0x8000_0000_0000_0000 && RecordingHalf(v, v1, x, rtt, hasBitflip, p)
    ensures S.ReceivedAndFix(v, p.Server(), x.seqNo, x.ts, rtt, x.last, hasBitflip)
         == if Repairs(v, x, p) then AfterRepair(v1, x, p) else v1
  {
  }

  /** A handler that does not repair has done ReceivedAndFix once it has recorded. */
  lemma RecordOnlyIsReceivedAndFix(s: State, t: nat, rtt: i64, hasBitflip: bool, p: Params)
    requires Inv(s, p) && Wf(s) && t < |s.tasks| && s.tasks[t].pc.Record?
    requires s.hist[s.tasks[t].probe].ts < 0x8000_0000_0000_0000
    ensures var s', x := RecordStep(s, t, rtt, hasBitflip, p), s.hist[s.tasks[t].probe];
      HeapWf(s') && t < |s'.tasks|
      && (s'.tasks[t].pc.Done? ==>
            View(s'.heap) == S.ReceivedAndFix(View(s.heap), p.Server(), x.seqNo, x.ts, rtt, x.last, hasBitflip))
  {
    RecordView(s, t, rtt, hasBitflip, p);
    SecondHalf(View(s.heap), View(RecordStep(s, t, rtt, hasBitflip, p).heap), s.hist[s.tasks[t].probe], rtt, hasBitflip, p);
  }

  /** One that repairs completes ReceivedAndFix in its last two sections, whatever store `v` it began on. */
  lemma RepairCompletesReceivedAndFix(v: S.Store, s: State, t: nat, rtt: i64, hasBitflip: bool, p: Params)
    requires Inv(s, p) && Wf(s) && t < |s.tasks| && s.tasks[t].pc.FixLookup?
    requires var x := s.hist[s.tasks[t].probe];
      x.ts < 0x8000_0000_0000_0000 && Repairs(v, x, p) && RecordingHalf(v, View(s.heap), x, rtt, hasBitflip, p)
    ensures var s2, x := FixLookupStep(s, t, p), s.hist[s.tasks[t].probe];
            var v2 := S.ReceivedAndFix(v, p.Server(), x.seqNo, x.ts, rtt, x.last, hasBitflip);
      && Wf(s2)
      && (s2.tasks[t].pc.Done? ==> View(s2.heap) == v2)
      && (s2.tasks[t].pc.FixWrite? ==> HeapWf(FixWriteStep(s2, t, p)) && View(FixWriteStep(s2, t, p).heap) == v2)
  {
    RepairView(s, t, p);
    SecondHalf(v, View(s.heap), s.hist[s.tasks[t].probe], rtt, hasBitflip, p);
  }
}
