/** The invariant of the one-way loss protocol and its preservation by every step. */
module ProtocolInvariant {
  import opened Machine
  import opened Odometer
  import opened SpanClient
  import opened SpanHistory
  import opened BucketStats
  import opened BucketHeap
  import opened Protocol
  import S = BucketStore

  /** Entries name probes of their span; their ports are right when the handler puts first. */
  ghost predicate EntriesOk(requests: map<u64, S.Request>, id: int, h: seq<Probe>, p: Params) {
    && (forall q :: q in requests ==> q in SeqsIn(h, id, p.client))
    && (!p.putFirst ==> forall q :: q in requests ==> requests[q].clientPort == 0)
  }

  ghost predicate PortsOk(requests: map<u64, S.Request>, id: int, h: seq<Probe>, p: Params) {
    forall q :: q in requests ==>
      Used(h, id, Pair(requests[q].clientPort, requests[q].serverPort), q, p.client)
  }

  /** A repaired span is over, and the repair tells the truth about it. */
  ghost predicate RepairOk(id: int, count: int, start: Pair, h: seq<Probe>, cur: int, p: Params) {
    && id < cur
    && 0 < Counted(h, id, p.client) == count
    && First(h, id, p.client) == start
  }

  /** Entries of probes that arrived exist, and only they can answer; a measured -1 looks like no answer. */
  predicate ArrivalsOk(requests: map<u64, S.Request>, arrived: set<u64>) {
    Answered(requests) <= arrived <= requests.Keys
  }

  ghost predicate BucketOk(b: S.BucketState, arrived: set<u64>, removed: set<BucketID>, h: seq<Probe>, cur: int, p: Params) {
    && b.id >= 1 && Counted(h, b.id, p.client) > 0
    && ArrivalsOk(b.requests, arrived)
    && EntriesOk(b.requests, b.id, h, p)
    && (p.putFirst && b.id !in removed ==> PortsOk(b.requests, b.id, h, p))
    && (b.packetCountFixed ==> RepairOk(b.id, b.packetCount, Pair(b.startSrcPort, b.startDstPort), h, cur, p))
  }

  ghost predicate TableOk(t: TableInput, id: int, h: seq<Probe>, cur: int, p: Params) {
    && RepairOk(id, t.count, t.start, h, cur, p)
    && ArrivalsOk(t.requests, t.arrived)
    && EntriesOk(t.requests, id, h, p)
    && (p.putFirst ==> PortsOk(t.requests, id, h, p))
  }

  ghost predicate ReportOk(r: Report, h: seq<Probe>, cur: int, p: Params) {
    && r.id >= 1 && Counted(h, r.id, p.client) > 0
    && r.requests.Keys <= SeqsIn(h, r.id, p.client)
    && ArrivalsOk(r.requests, r.arrived)
    && (r.fixed ==> r.id < cur)
    && r.totals == (if |r.requests| == 0 then Totals(0, 0, 0) else
         var sent, received := if r.fixed then Counted(h, r.id, p.client) else |r.requests|, |Answered(r.requests)|;
         Totals(sent, received, if sent < received then 0 else sent - received))
    && (r.table.Some? ==> TableOk(r.table.value, r.id, h, cur, p))
  }

  /** Distinct live objects, found under their own identifier until their identifier is removed. */
  ghost predicate HeapOk(s: State) {
    && HeapWf(s)
    && IdsOk(s.heap)
    && (forall o :: 0 <= o < |s.heap.objs| && s.heap.objs[o].id !in s.removed ==> Live(s, o))
    && (forall k :: k in s.heap.index ==> k >= 1)
    && S.IsLeast(s.heap.minID, s.heap.index.Keys)
    && (forall k :: k in s.removed ==> k <= s.lastID)
    && s.lastID >= 0
  }

  predicate Live(s: State, o: nat)
    requires o < |s.heap.objs|
  {
    s.heap.objs[o].id in s.heap.index && s.heap.index[s.heap.objs[o].id] == o
  }

  ghost predicate ObjectsOk(s: State, p: Params)
    requires HeapWf(s)
  {
    forall o :: 0 <= o < |s.heap.objs| ==>
      BucketOk(s.heap.objs[o], s.arrived[o], s.removed, s.hist, s.client.bucketID, p)
  }

  ghost predicate TaskOk(s: State, x: Task, p: Params)
    requires HeapWf(s)
  {
    && x.probe < |s.hist|
    && var k := SpanOf(s.hist[x.probe], p.client);
       match x.pc
       case PutLookup => p.putFirst
       case PutStore(o) => p.putFirst && o < |s.heap.objs| && s.heap.objs[o].id == k
       case Record => p.putFirst ==> k in s.removed || InLiveBucket(s, k, s.hist[x.probe].seqNo)
       case FixLookup => s.hist[x.probe].last.count > 0
       case FixWrite(o) => o < |s.heap.objs| && s.heap.objs[o].id == k - 1
       case Done => true
  }

  predicate InLiveBucket(s: State, k: int, seqNo: u64)
    requires HeapWf(s)
  {
    k in s.heap.index && seqNo in s.heap.objs[s.heap.index[k]].requests
  }

  ghost predicate TasksOk(s: State, p: Params)
    requires HeapWf(s)
  {
    forall t :: 0 <= t < |s.tasks| ==> TaskOk(s, s.tasks[t], p)
  }

  ghost predicate ReporterOk(s: State, p: Params) {
    match s.reporter
    case Idle => true
    case Rescan => true
    case Scan(o) => o < |s.heap.objs| && Live(s, o)
    case ReadSpan(o, part) => Reporting(s, o, part, p)
    case ReadEntries(o, part, start, count) =>
      Reporting(s, o, part, p) && RepairOk(part.id, count, start, s.hist, s.client.bucketID, p)
    case Finish(o) => o < |s.heap.objs| && Live(s, o) && s.heap.objs[o].id == s.lastID
  }

  /** A report is being put together for the newest, still live, bucket. */
  ghost predicate Reporting(s: State, o: nat, part: Report, p: Params) {
    && o < |s.heap.objs| && Live(s, o)
    && s.heap.objs[o].id == s.lastID == part.id
    && s.lastID !in s.removed
    && part.table.None?
    && ReportOk(part, s.hist, s.client.bucketID, p)
  }

  ghost predicate ReportsOk(s: State, p: Params) {
    && (forall i :: 0 <= i < |s.reports| ==> ReportOk(s.reports[i], s.hist, s.client.bucketID, p))
    && (forall i :: 0 <= i < |s.reports| ==>
          s.reports[i].id <= s.lastID && (s.reporter.ReadSpan? || s.reporter.ReadEntries? ==> s.reports[i].id < s.lastID))
    && (forall i, j :: 0 <= i < j < |s.reports| ==> s.reports[i].id < s.reports[j].id)
  }

  ghost predicate Inv(s: State, p: Params) {
    && ClientOk(s.client, s.hist, p.client)
    && HeapOk(s)
    && ObjectsOk(s, p)
    && TasksOk(s, p)
    && ReporterOk(s, p)
    && ReportsOk(s, p)
  }

  lemma InvIsWf(s: State, p: Params)
    requires Inv(s, p)
    ensures Wf(s)
  {
    forall t | 0 <= t < |s.tasks| ensures s.tasks[t].probe < |s.hist| { assert TaskOk(s, s.tasks[t], p); }
    forall t | 0 <= t < |s.tasks| && s.tasks[t].pc.PutStore? ensures s.tasks[t].pc.o < |s.heap.objs| { assert TaskOk(s, s.tasks[t], p); }
    forall t | 0 <= t < |s.tasks| && s.tasks[t].pc.FixWrite? ensures s.tasks[t].pc.o < |s.heap.objs| { assert TaskOk(s, s.tasks[t], p); }
  }

  lemma InitInv(p: Params)
    ensures Inv(Init(p), p)
  {
  }
}
