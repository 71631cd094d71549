/** Run without interruption, a handler's sections in the protocol are what the servers do with a packet. */
module HandlerRefinement {
  import opened Machine
  import opened SpanClient
  import T = StatTable
  import opened BucketHeap
  import opened Protocol
  import opened ProtocolInvariant
  import opened ProtocolSafety
  import opened ProtocolRefinement
  import A = SonarServer
  import K = KuiniuServer
  import KC = KuiniuCodec
  import E = Echo
  import S = BucketStore

  /** One section of handler `t`. */
  ghost predicate Goes(s: State, s': State, t: nat, rtt: i64, hasBitflip: bool, p: Params) {
    Wf(s) && t < |s.tasks| && s' == TaskStep(s, t, rtt, hasBitflip, p)
  }

  /** Sections of handler `t` in a row, from the first state of the path to its last. */
  ghost predicate HandlerRuns(path: seq<State>, t: nat, rtt: i64, hasBitflip: bool, p: Params) {
    path != [] && forall i :: 0 <= i < |path| - 1 ==> Goes(path[i], path[i + 1], t, rtt, hasBitflip, p)
  }

  function Last(path: seq<State>): State
    requires path != []
  {
    path[|path| - 1]
  }

  lemma Prepend(s: State, path: seq<State>, t: nat, rtt: i64, hasBitflip: bool, p: Params)
    requires HandlerRuns(path, t, rtt, hasBitflip, p) && Goes(s, path[0], t, rtt, hasBitflip, p)
    ensures HandlerRuns([s] + path, t, rtt, hasBitflip, p) && Last([s] + path) == Last(path)
  {
    var longer := [s] + path;
    forall i | 0 <= i < |longer| - 1 ensures Goes(longer[i], longer[i + 1], t, rtt, hasBitflip, p) {
      if i > 0 { assert Goes(path[i - 1], path[i], t, rtt, hasBitflip, p); }
    }
  }

  /** The handler is done and left this store. */
  ghost predicate Left(s: State, t: nat, v: S.Store) {
    HeapWf(s) && t < |s.tasks| && s.tasks[t].pc.Done? && View(s.heap) == v
  }

  /** Uninterrupted, handler `t` goes from `s` to its end and leaves this store. */
  ghost predicate Handles(path: seq<State>, s: State, t: nat, rtt: i64, hasBitflip: bool, v: S.Store, p: Params) {
    HandlerRuns(path, t, rtt, hasBitflip, p) && path[0] == s && Left(Last(path), t, v)
  }

  /** So it does on some path. */
  ghost predicate Leaves(s: State, t: nat, rtt: i64, hasBitflip: bool, v: S.Store, p: Params) {
    exists path :: Handles(path, s, t, rtt, hasBitflip, v, p)
  }

  /** The store after receivedAndFix of a probe. */
  function Fixed(v: S.Store, x: Probe, rtt: i64, hasBitflip: bool, p: Params): S.Store
    requires x.ts < 0x8000_0000_0000_0000
  {
    S.ReceivedAndFix(v, p.Server(), x.seqNo, x.ts, rtt, x.last, hasBitflip)
  }

  /** Which section a handler runs. */
  lemma SectionIs(s: State, t: nat, rtt: i64, hasBitflip: bool, p: Params)
    requires Wf(s) && t < |s.tasks|
    ensures s.tasks[t].pc.PutLookup? ==> Goes(s, LookupStep(s, t, p), t, rtt, hasBitflip, p)
    ensures s.tasks[t].pc.PutStore? ==> Goes(s, StoreStep(s, t, p), t, rtt, hasBitflip, p)
    ensures s.tasks[t].pc.Record? ==> Goes(s, RecordStep(s, t, rtt, hasBitflip, p), t, rtt, hasBitflip, p)
    ensures s.tasks[t].pc.FixLookup? ==> Goes(s, FixLookupStep(s, t, p), t, rtt, hasBitflip, p)
    ensures s.tasks[t].pc.FixWrite? ==> Goes(s, FixWriteStep(s, t, p), t, rtt, hasBitflip, p)
  {
  }

  /** The write of a repair ends the handler. */
  lemma WriteEnds(s: State, s2: State, t: nat, rtt: i64, hasBitflip: bool, p: Params)
    requires Inv(s, p) && Wf(s) && t < |s.tasks| && s.tasks[t].pc.FixLookup?
    requires s2 == FixLookupStep(s, t, p) && s2.tasks[t].pc.FixWrite? && Wf(s2)
    ensures var s' := FixWriteStep(s2, t, p);
      Goes(s2, s', t, rtt, hasBitflip, p) && HeapWf(s') && t < |s'.tasks| && s'.tasks[t].pc.Done?
  {
    FixLookupView(s, t, p);
    FixWriteView(s2, t, TaskSpan(s, t, p) - 1, p);
    SectionIs(s2, t, rtt, hasBitflip, p);
  }

  /** What is known when the previous bucket was looked up. */
  lemma RepairLeaves(v: S.Store, s: State, s2: State, t: nat, x: Probe, rtt: i64, hasBitflip: bool, p: Params)
    requires Inv(s, p) && Wf(s) && t < |s.tasks| && s.tasks[t].pc.FixLookup?
    requires x == s.hist[s.tasks[t].probe] && x.ts < 0x8000_0000_0000_0000
    requires Repairs(v, x, p) && RecordingHalf(v, View(s.heap), x, rtt, hasBitflip, p) && s2 == FixLookupStep(s, t, p)
    ensures Goes(s, s2, t, rtt, hasBitflip, p) && t < |s2.tasks|
    ensures s2.tasks[t].pc.Done? ==> Left(s2, t, Fixed(v, x, rtt, hasBitflip, p))
    ensures s2.tasks[t].pc.Done? || s2.tasks[t].pc.FixWrite?
    ensures s2.tasks[t].pc.FixWrite? ==>
      Goes(s2, FixWriteStep(s2, t, p), t, rtt, hasBitflip, p) && Left(FixWriteStep(s2, t, p), t, Fixed(v, x, rtt, hasBitflip, p))
  {
    SectionIs(s, t, rtt, hasBitflip, p);
    RepairCompletesReceivedAndFix(v, s, t, rtt, hasBitflip, p);
    if s2.tasks[t].pc.FixWrite? { WriteEnds(s, s2, t, rtt, hasBitflip, p); }
  }

  /** From the lookup of the previous bucket on. */
  lemma RepairRuns(v: S.Store, s: State, t: nat, x: Probe, rtt: i64, hasBitflip: bool, p: Params) returns (path: seq<State>)
    requires Inv(s, p) && Wf(s) && t < |s.tasks| && s.tasks[t].pc.FixLookup?
    requires x == s.hist[s.tasks[t].probe] && x.ts < 0x8000_0000_0000_0000
    requires Repairs(v, x, p) && RecordingHalf(v, View(s.heap), x, rtt, hasBitflip, p)
    ensures Handles(path, s, t, rtt, hasBitflip, Fixed(v, x, rtt, hasBitflip, p), p)
  {
    var s2 := FixLookupStep(s, t, p);
    RepairLeaves(v, s, s2, t, x, rtt, hasBitflip, p);
    if s2.tasks[t].pc.Done? {
      path := [s2];
    } else {
      path := [FixWriteStep(s2, t, p)];
      Prepend(s2, path, t, rtt, hasBitflip, p);
      path := [s2] + path;
    }
    Prepend(s, path, t, rtt, hasBitflip, p);
    path := [s] + path;
  }

  /** What is known when the recording section is done. */
  lemma RecordLeaves(s: State, s1: State, t: nat, x: Probe, rtt: i64, hasBitflip: bool, p: Params)
    requires Inv(s, p) && Wf(s) && t < |s.tasks| && s.tasks[t].pc.Record?
    requires x == s.hist[s.tasks[t].probe] && x.ts < 0x8000_0000_0000_0000
    requires s1 == RecordStep(s, t, rtt, hasBitflip, p)
    ensures Goes(s, s1, t, rtt, hasBitflip, p) && t < |s1.tasks|
    ensures s1.tasks[t].pc.Done? ==> Left(s1, t, Fixed(View(s.heap), x, rtt, hasBitflip, p))
    ensures !s1.tasks[t].pc.Done? ==>
      && Inv(s1, p) && Wf(s1) && s1.tasks[t].pc.FixLookup? && x == s1.hist[s1.tasks[t].probe]
      && Repairs(View(s.heap), x, p) && RecordingHalf(View(s.heap), View(s1.heap), x, rtt, hasBitflip, p)
  {
    SectionIs(s, t, rtt, hasBitflip, p);
    RecordView(s, t, rtt, hasBitflip, p);
    RecordOnlyIsReceivedAndFix(s, t, rtt, hasBitflip, p);
  }

  /** From the recording section on: receivedAndFix of the probe. */
  lemma RecordRuns(s: State, t: nat, x: Probe, rtt: i64, hasBitflip: bool, p: Params) returns (path: seq<State>)
    requires Inv(s, p) && Wf(s) && t < |s.tasks| && s.tasks[t].pc.Record?
    requires x == s.hist[s.tasks[t].probe] && x.ts < 0x8000_0000_0000_0000
    ensures Handles(path, s, t, rtt, hasBitflip, Fixed(View(s.heap), x, rtt, hasBitflip, p), p)
  {
    var s1 := RecordStep(s, t, rtt, hasBitflip, p);
    RecordLeaves(s, s1, t, x, rtt, hasBitflip, p);
    if s1.tasks[t].pc.Done? {
      path := [s1];
    } else {
      path := RepairRuns(View(s.heap), s1, t, x, rtt, hasBitflip, p);
    }
    Prepend(s, path, t, rtt, hasBitflip, p);
    path := [s] + path;
  }

  /** The two sections of put. */
  lemma PutSections(s: State, t: nat, rtt: i64, hasBitflip: bool, p: Params) returns (s1: State, s2: State)
    requires Inv(s, p) && Wf(s) && t < |s.tasks| && s.tasks[t].pc.PutLookup?
    requires s.hist[s.tasks[t].probe].ts < 0x8000_0000_0000_0000
    ensures Goes(s, s1, t, rtt, hasBitflip, p) && Goes(s1, s2, t, rtt, hasBitflip, p)
    ensures Inv(s2, p) && Wf(s2) && t < |s2.tasks| && s2.tasks[t].pc.Record? && s2.tasks[t].probe == s.tasks[t].probe && s2.hist == s.hist
    ensures var x := s.hist[s.tasks[t].probe];
      View(s2.heap) == S.Put(View(s.heap), p.Server(), x.pair.src, x.pair.dst, x.seqNo, x.ts)
  {
    PutIsTwoSections(s, t, p);
    LookupKeepsInv(s, t, p);
    SectionIs(s, t, rtt, hasBitflip, p);
    s1 := LookupStep(s, t, p);
    SectionIs(s1, t, rtt, hasBitflip, p);
    StoreKeepsInv(s1, t, p);
    s2 := StoreStep(s1, t, p);
    InvIsWf(s2, p);
  }

  /** From the lookup of the probe's bucket on: put, then receivedAndFix. */
  lemma PutRuns(s: State, t: nat, rtt: i64, hasBitflip: bool, v: S.Store, p: Params) returns (path: seq<State>)
    requires Inv(s, p) && Wf(s) && t < |s.tasks| && s.tasks[t].pc.PutLookup?
    requires var x := s.hist[s.tasks[t].probe];
      x.ts < 0x8000_0000_0000_0000 && v == S.Put(View(s.heap), p.Server(), x.pair.src, x.pair.dst, x.seqNo, x.ts)
    ensures Handles(path, s, t, rtt, hasBitflip, Fixed(v, s.hist[s.tasks[t].probe], rtt, hasBitflip, p), p)
  {
    var s1, s2 := PutSections(s, t, rtt, hasBitflip, p);
    path := RecordRuns(s2, t, s.hist[s.tasks[t].probe], rtt, hasBitflip, p);
    Prepend(s1, path, t, rtt, hasBitflip, p);
    path := [s1] + path;
    Prepend(s, path, t, rtt, hasBitflip, p);
    path := [s] + path;
  }

  /** What the server's handler leaves in the sender's store, in the protocol's terms. */
  lemma SonarLeaves(v: T.View, w: S.Store, p: Params, msgLen: int, x: Probe, remote: string, now: i64)
    requires x.ts < 0x8000_0000_0000_0000 && A.StoreOf(v, remote) == w
    ensures var v' := A.Handle(v, p.Server(), msgLen, A.Datagram(A.ProbeBytes(x, msgLen), remote, x.pair.src, x.pair.dst, now));
      && remote in v'
      && v'[remote] == Fixed(S.Put(w, p.Server(), x.pair.src, x.pair.dst, x.seqNo, x.ts), x, WrapI64(now - x.ts), false, p)
  {
    A.IntactProbeIsHandled(v, p.Server(), msgLen, x, remote, now);
  }

  /** The sections leave that store. */
  lemma SectionsLeave(s: State, t: nat, x: Probe, rtt: i64, hasBitflip: bool, v: S.Store, p: Params)
    requires Inv(s, p) && Wf(s) && t < |s.tasks| && s.tasks[t].pc.PutLookup?
    requires x == s.hist[s.tasks[t].probe] && x.ts < 0x8000_0000_0000_0000
    requires v == Fixed(S.Put(View(s.heap), p.Server(), x.pair.src, x.pair.dst, x.seqNo, x.ts), x, rtt, hasBitflip, p)
    ensures Leaves(s, t, rtt, hasBitflip, v, p)
  {
    var put := S.Put(View(s.heap), p.Server(), x.pair.src, x.pair.dst, x.seqNo, x.ts);
    var path := PutRuns(s, t, rtt, hasBitflip, put, p);
  }

  /** sonar: on an intact probe the protocol's handler leaves the store that the server's handler leaves. */
  lemma SonarHandlerIsSections(s: State, t: nat, p: Params, v: T.View, msgLen: int, x: Probe, remote: string, now: i64)
    requires Inv(s, p) && Wf(s) && t < |s.tasks| && s.tasks[t].pc.PutLookup?
    requires x == s.hist[s.tasks[t].probe] && x.ts < 0x8000_0000_0000_0000 && A.StoreOf(v, remote) == View(s.heap)
    ensures var v' := A.Handle(v, p.Server(), msgLen, A.Datagram(A.ProbeBytes(x, msgLen), remote, x.pair.src, x.pair.dst, now));
      remote in v' && Leaves(s, t, WrapI64(now - x.ts), false, v'[remote], p)
  {
    SonarLeaves(v, View(s.heap), p, msgLen, x, remote, now);
    var v' := A.Handle(v, p.Server(), msgLen, A.Datagram(A.ProbeBytes(x, msgLen), remote, x.pair.src, x.pair.dst, now));
    SectionsLeave(s, t, x, WrapI64(now - x.ts), false, v'[remote], p);
  }

  /** kuiniu: the same for its handler, which records no ports and no time. */
  lemma KuiniuHandlerIsSections(
    s: State, t: nat, p: Params, v: T.View, msgLen: int, local: set<string>, q: E.Payload, tail: seq<u8>)
    requires Inv(s, p) && Wf(s) && t < |s.tasks| && s.tasks[t].pc.Record?
    requires var x := s.hist[s.tasks[t].probe]; x.ts < 0x8000_0000_0000_0000 && q.seqNo == x.seqNo
    requires E.Text(q.srcIP) !in local && A.StoreOf(v, E.Text(q.srcIP)) == View(s.heap)
    requires |tail| == KC.Length(msgLen) - KC.HEADER
    ensures var x := s.hist[s.tasks[t].probe];
      var v' := K.Handle(v, p.Server(), msgLen, local, K.PayloadBytes(q, x.ts, x.last, tail, msgLen));
         E.Text(q.srcIP) in v' && Leaves(s, t, 0, K.HasOtherTail(q.seqNo, tail), v'[E.Text(q.srcIP)], p)
  {
    var x := s.hist[s.tasks[t].probe];
    K.ProbeIsRecorded(v, p.Server(), msgLen, local, q, x.ts, x.last, tail);
    var path := RecordRuns(s, t, x, 0, K.HasOtherTail(q.seqNo, tail), p);
  }
}
