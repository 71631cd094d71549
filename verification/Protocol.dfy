/**
 The one-way loss protocol as a step system: a client, a network that drops, duplicates and
 reorders, any number of server handlers interleaving at lock granularity, and the reporter.
 */
module Protocol {
  import opened Machine
  import opened Odometer
  import opened SpanClient
  import opened BucketStats
  import opened BucketHeap
  import S = BucketStore

  /** `putFirst`: the handler records the ports before it records the arrival (sonar, not kuiniu). */
  datatype Params = Params(client: Settings, serverRate: int, delay: int, putFirst: bool) {
    function Server(): S.Config { S.Config(client.span, serverRate, true) }
  }

  /** Where a handler is between two lock sections. */
  datatype Pc =
    | PutLookup
    | PutStore(o: nat)
    | Record
    | FixLookup
    | FixWrite(o: nat)
    | Done

  datatype Task = Task(probe: nat, pc: Pc)

  /** The entries and figures read in one locked section, and which probes had arrived by then. */
  datatype Report = Report(
    id: int, fixed: bool, requests: map<u64, S.Request>, totals: Totals, arrived: set<u64>, table: Option<TableInput>)

  /** What the loss table is computed from: one section reads the span, a later one the entries. */
  datatype TableInput = TableInput(start: Pair, count: nat, requests: map<u64, S.Request>, arrived: set<u64>)

  datatype Reporter =
    | Idle
    | Scan(o: nat)
    | Rescan
    | ReadSpan(o: nat, part: Report)
    | ReadEntries(o: nat, part: Report, start: Pair, count: nat)
    | Finish(o: nat)

  /** `arrived[o]` and `removed` are history: whose arrival was recorded in an object, which ids were removed. */
  datatype State = State(
    client: Client, hist: seq<Probe>,
    heap: Heap, arrived: seq<set<u64>>, tasks: seq<Task>,
    reporter: Reporter, lastID: int, removed: set<BucketID>, reports: seq<Report>)

  function Init(p: Params): State {
    State(InitClient(p.client), [], EMPTY_HEAP, [], [], Idle, 0, {}, [])
  }

  // ----- lock sections of the store -----

  predicate HeapWf(s: State) {
    |s.arrived| == |s.heap.objs| && IndexOk(s.heap)
  }

  /** Find the bucket object or create it. */
  function WithObject(s: State, id: int, p: Params): (s': State)
    requires HeapWf(s)
    ensures HeapWf(s') && id in s'.heap.index
    ensures s' == s.(heap := s'.heap, arrived := s'.arrived)
  {
    s.(heap := With(s.heap, id, p.Server()), arrived := if id in s.heap.index then s.arrived else s.arrived + [{}])
  }

  function WriteObject(s: State, o: nat, b: S.BucketState): State
    requires o < |s.heap.objs|
  {
    s.(heap := Write(s.heap, o, b))
  }

  ghost function RemoveID(s: State, id: int): State {
    s.(heap := Remove(s.heap, id), removed := s.removed + {id})
  }

  // ----- steps -----

  datatype Action =
    | SendProbe(ts: nat, onWire: bool)
    | Deliver(i: nat)
    | RunTask(t: nat, rtt: i64, hasBitflip: bool)
    | RunReporter(now: int)

  function TaskSpan(s: State, t: nat, p: Params): int
    requires t < |s.tasks| && s.tasks[t].probe < |s.hist|
  {
    SpanOf(s.hist[s.tasks[t].probe], p.client)
  }

  /** References handlers and the reporter hold are to existing objects. */
  predicate Wf(s: State) {
    && HeapWf(s)
    && (forall t :: 0 <= t < |s.tasks| ==>
          s.tasks[t].probe < |s.hist|
          && (s.tasks[t].pc.PutStore? ==> s.tasks[t].pc.o < |s.heap.objs|)
          && (s.tasks[t].pc.FixWrite? ==> s.tasks[t].pc.o < |s.heap.objs|))
    && (!s.reporter.Idle? && !s.reporter.Rescan? ==> s.reporter.o < |s.heap.objs|)
  }

  predicate Enabled(s: State, a: Action, p: Params) {
    match a
    case SendProbe(ts, _) => MaySend(s.hist, ts, p.client)
    case Deliver(i) => i < |s.hist| && s.hist[i].onWire
    case RunTask(t, _, _) => t < |s.tasks| && !s.tasks[t].pc.Done?
    case RunReporter(_) => true
  }

  function SetPc(s: State, t: nat, pc: Pc): State
    requires t < |s.tasks|
  {
    s.(tasks := s.tasks[t := s.tasks[t].(pc := pc)])
  }

  function SendStep(s: State, ts: nat, onWire: bool, p: Params): State {
    var c' := AfterSend(s.client, ts, p.client);
    s.(client := c', hist := s.hist + [ProbeSent(c', ts, onWire)])
  }

  function DeliverStep(s: State, i: nat, p: Params): State {
    s.(tasks := s.tasks + [Task(i, if p.putFirst then PutLookup else Record)])
  }

  function LookupStep(s: State, t: nat, p: Params): State
    requires Wf(s) && t < |s.tasks|
  {
    var s1 := WithObject(s, TaskSpan(s, t, p), p);
    SetPc(s1, t, PutStore(s1.heap.index[TaskSpan(s, t, p)]))
  }

  function StoreStep(s: State, t: nat, p: Params): State
    requires Wf(s) && t < |s.tasks| && s.tasks[t].pc.PutStore?
  {
    var o, x := s.tasks[t].pc.o, s.hist[s.tasks[t].probe];
    var ts := WrapI64(x.ts);
    SetPc(WriteObject(s, o, S.BucketPut(s.heap.objs[o], x.pair.src, x.pair.dst, x.seqNo, ts)), t, Record)
  }

  /** Record the arrival; the first packet of a bucket goes on to repair the previous one. */
  function RecordStep(s: State, t: nat, rtt: i64, hasBitflip: bool, p: Params): State
    requires Wf(s) && t < |s.tasks|
  {
    var id, x := TaskSpan(s, t, p), s.hist[s.tasks[t].probe];
    var s1 := WithObject(s, id, p);
    var o := s1.heap.index[id];
    var b := s1.heap.objs[o];
    var s2 := WriteObject(s1, o, S.BucketReceived(b, x.seqNo, rtt, hasBitflip).(fixed := true));
    var s3 := s2.(arrived := s2.arrived[o := s2.arrived[o] + {x.seqNo}]);
    SetPc(s3, t, if !b.fixed && x.last.count > 0 then FixLookup else Done)
  }

  function FixLookupStep(s: State, t: nat, p: Params): State
    requires Wf(s) && t < |s.tasks|
  {
    var id := TaskSpan(s, t, p) - 1;
    SetPc(s, t, if id in s.heap.index then FixWrite(s.heap.index[id]) else Done)
  }

  function FixWriteStep(s: State, t: nat, p: Params): State
    requires Wf(s) && t < |s.tasks| && s.tasks[t].pc.FixWrite?
  {
    var o, last := s.tasks[t].pc.o, s.hist[s.tasks[t].probe].last;
    SetPc(WriteObject(s, o, S.BucketRepair(s.heap.objs[o], last.count, last.src, last.dst)), t, Done)
  }

  function TaskStep(s: State, t: nat, rtt: i64, hasBitflip: bool, p: Params): State
    requires Wf(s) && t < |s.tasks|
  {
    match s.tasks[t].pc
    case PutLookup => LookupStep(s, t, p)
    case PutStore(_) => StoreStep(s, t, p)
    case Record => RecordStep(s, t, rtt, hasBitflip, p)
    case FixLookup => FixLookupStep(s, t, p)
    case FixWrite(_) => FixWriteStep(s, t, p)
    case Done => s
  }

  /** The scan found object `o` at the head: discard it as stale, or take its figures. */
  ghost function ScanStep(s: State, o: nat): State
    requires o < |s.heap.objs| && o < |s.arrived|
  {
    var b := s.heap.objs[o];
    if b.id <= s.lastID then RemoveID(s, b.id).(reporter := Rescan) else
      var part := Report(b.id, b.packetCountFixed, b.requests, ServerTotals(b), s.arrived[o], None);
      s.(lastID := b.id, reporter := ReadSpan(o, part))
  }

  ghost function ReporterStep(s: State, now: int, p: Params): State
    requires Wf(s)
  {
    match s.reporter
    case Idle =>
      var found := Oldest(s.heap);
      if found.None? then s else
        var b := s.heap.objs[found.value];
        if s.lastID > 0 && b.id > 0 && GoDiv(now - p.delay, p.client.span) < b.id then s
        else s.(reporter := Scan(found.value))
    case Scan(o) => ScanStep(s, o)
    case Rescan =>
      var found := Oldest(s.heap);
      s.(reporter := if found.None? then Idle else Scan(found.value))
    case ReadSpan(o, part) =>
      var b := s.heap.objs[o];
      if HasTable(b)
      then s.(reporter := ReadEntries(o, part, Pair(b.startSrcPort, b.startDstPort), b.packetCount))
      else s.(reports := s.reports + [part], reporter := Finish(o))
    case ReadEntries(o, part, start, count) =>
      var table := TableInput(start, count, s.heap.objs[o].requests, s.arrived[o]);
      s.(reports := s.reports + [part.(table := Some(table))], reporter := Finish(o))
    case Finish(o) =>
      RemoveID(s, s.heap.objs[o].id).(reporter := Idle)
  }

  ghost function Do(s: State, a: Action, p: Params): State
    requires Wf(s) && Enabled(s, a, p)
  {
    match a
    case SendProbe(ts, onWire) => SendStep(s, ts, onWire, p)
    case Deliver(i) => DeliverStep(s, i, p)
    case RunTask(t, rtt, flip) => TaskStep(s, t, rtt, flip, p)
    case RunReporter(now) => ReporterStep(s, now, p)
  }

  /** The states reachable by a sequence of enabled steps. */
  ghost predicate Reaches(p: Params, acts: seq<Action>, s: State)
  {
    if acts == [] then s == Init(p) else
      exists prev :: Reaches(p, acts[..|acts| - 1], prev) && Wf(prev)
        && Enabled(prev, acts[|acts| - 1], p) && s == Do(prev, acts[|acts| - 1], p)
  }
}
