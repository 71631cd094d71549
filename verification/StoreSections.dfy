/** The store's operations cut at their locks: any number of callers and a reporter interleave. */
module StoreSections {
  import opened Machine
  import opened BucketHeap
  import S = BucketStore

  /** Which section a caller runs next, and the objects it holds. */
  datatype Pc =
    | Find
    | PutWrite(o: nat)
    | DeleteWrite(o: nat)
    | UpdateCurrent(current: Option<nat>, previous: Option<nat>)
    | UpdatePrevious(previous: Option<nat>)
    | Create
    | ReceiveWrite(o: nat)
    | FixFind
    | FixWrite(o: nat)
    | Done

  datatype Task = Task(op: S.Operation, pc: Pc)

  datatype State = State(heap: Heap, tasks: seq<Task>)

  const INIT := State(EMPTY_HEAP, [])

  predicate Held(h: Heap, o: Option<nat>) { o.Some? ==> o.value < |h.objs| }

  /** The objects a caller holds exist; the section suits the operation. */
  predicate TaskOk(h: Heap, t: Task) {
    match t.pc
    case Find => true
    case PutWrite(o) => t.op.OpPut? && o < |h.objs|
    case DeleteWrite(o) => t.op.OpDelete? && o < |h.objs|
    case UpdateCurrent(c, p) => IsReply(t.op) && Held(h, c) && Held(h, p)
    case UpdatePrevious(p) => IsReply(t.op) && Held(h, p)
    case Create => IsReply(t.op)
    case ReceiveWrite(o) => IsReply(t.op) && o < |h.objs|
    case FixFind => t.op.OpReceivedAndFix?
    case FixWrite(o) => t.op.OpReceivedAndFix? && o < |h.objs|
    case Done => true
  }

  predicate IsReply(op: S.Operation) { op.OpReceived? || op.OpReceivedRST? }

  function At(h: Heap, id: int): Option<nat> {
    if id in h.index then Some(h.index[id]) else None
  }

  /** An object after a reply was recorded in it. */
  function Answer(b: S.BucketState, op: S.Operation): (b': S.BucketState)
    requires IsReply(op)
    ensures b'.id == b.id
  {
    match op
    case OpReceived(q, _, rtt, flip) => S.BucketReceived(b, q, rtt, flip)
    case OpReceivedRST(q, _, rtt) => S.BucketReceivedRST(b, q, rtt)
  }

  /** The first section of each operation. */
  function FindSection(h: Heap, op: S.Operation, cfg: S.Config): (r: (Heap, Pc))
    requires IndexOk(h)
    ensures IndexOk(r.0)
  {
    var id := S.BucketOf(op.ts, cfg);
    match op
    case OpPut(_, _, _, _) => var h' := With(h, id, cfg); (h', PutWrite(h'.index[id]))
    case OpDelete(_, _) => (h, if id in h.index then DeleteWrite(h.index[id]) else Done)
    case OpReceived(_, _, _, _) => (h, UpdateCurrent(At(h, id), At(h, id - 1)))
    case OpReceivedRST(_, _, _) => (h, UpdateCurrent(At(h, id), At(h, id - 1)))
    case OpReceivedAndFix(q, _, rtt, last, flip) =>
      var h1 := With(h, id, cfg);
      var o := h1.index[id];
      var b := h1.objs[o];
      (Write(h1, o, S.BucketReceived(b, q, rtt, flip).(fixed := true)), if !b.fixed && last.count > 0 then FixFind else Done)
  }

  /** Updates an object that holds the number; otherwise the search goes on. */
  function UpdateSection(h: Heap, op: S.Operation, o: Option<nat>, next: Pc): (r: (Heap, Pc))
    requires IndexOk(h) && IsReply(op) && Held(h, o)
    ensures IndexOk(r.0)
  {
    if o.Some? && op.seqNo in h.objs[o.value].requests then (Write(h, o.value, Answer(h.objs[o.value], op)), Done) else (h, next)
  }

  /** One section. */
  function Section(h: Heap, t: Task, cfg: S.Config): (r: (Heap, Pc))
    requires IndexOk(h) && TaskOk(h, t)
    ensures IndexOk(r.0)
  {
    var op, id := t.op, S.BucketOf(t.op.ts, cfg);
    match t.pc
    case Find => FindSection(h, op, cfg)
    case PutWrite(o) => (Write(h, o, S.BucketPut(h.objs[o], op.clientPort, op.serverPort, op.seqNo, op.ts)), Done)
    case DeleteWrite(o) => (Write(h, o, S.BucketDelete(h.objs[o], op.seqNo)), Done)
    case UpdateCurrent(c, p) => UpdateSection(h, op, c, UpdatePrevious(p))
    case UpdatePrevious(p) => UpdateSection(h, op, p, Create)
    case Create => var h' := With(h, id, cfg); (h', ReceiveWrite(h'.index[id]))
    case ReceiveWrite(o) => (Write(h, o, Answer(h.objs[o], op)), Done)
    case FixFind => (h, if id - 1 in h.index then FixWrite(h.index[id - 1]) else Done)
    case FixWrite(o) => (Write(h, o, S.BucketRepair(h.objs[o], op.last.count, op.last.src, op.last.dst)), Done)
    case Done => (h, Done)
  }

  // ----- every interleaving -----

  /** A caller starts, a caller runs its next section, or a bucket is removed. */
  datatype Action = Start(op: S.Operation) | Run(t: nat) | RemoveBucket(id: int)

  predicate Wf(s: State) {
    IndexOk(s.heap) && forall t :: 0 <= t < |s.tasks| ==> TaskOk(s.heap, s.tasks[t])
  }

  predicate Enabled(s: State, a: Action, cfg: S.Config) {
    match a
    case Start(op) => S.BucketOf(op.ts, cfg) >= 0
    case Run(t) => t < |s.tasks|
    case RemoveBucket(_) => true
  }

  ghost function Do(s: State, a: Action, cfg: S.Config): State
    requires Wf(s) && Enabled(s, a, cfg)
  {
    match a
    case Start(op) => s.(tasks := s.tasks + [Task(op, Find)])
    case Run(t) =>
      var (h, pc) := Section(s.heap, s.tasks[t], cfg);
      State(h, s.tasks[t := s.tasks[t].(pc := pc)])
    case RemoveBucket(id) => s.(heap := Remove(s.heap, id))
  }

  ghost predicate Reaches(cfg: S.Config, acts: seq<Action>, s: State) {
    if acts == [] then s == INIT else
      exists prev :: Reaches(cfg, acts[..|acts| - 1], prev) && Wf(prev)
        && Enabled(prev, acts[|acts| - 1], cfg) && s == Do(prev, acts[|acts| - 1], cfg)
  }

  /** The cache is right and live objects are found under their own identifier. */
  predicate HeapRight(h: Heap) {
    && IndexOk(h) && IdsOk(h)
    && S.IsLeast(h.minID, h.index.Keys)
    && forall k :: k in h.index ==> k >= 0
  }

  predicate Inv(s: State, cfg: S.Config) {
    && HeapRight(s.heap) && Wf(s)
    && forall t :: 0 <= t < |s.tasks| ==> S.BucketOf(s.tasks[t].op.ts, cfg) >= 0
  }

  lemma WithKeepsRight(h: Heap, id: int, cfg: S.Config)
    requires HeapRight(h) && id >= 0
    ensures HeapRight(With(h, id, cfg)) && |With(h, id, cfg).objs| >= |h.objs|
  {
    if id !in h.index { assert With(h, id, cfg).index.Keys == h.index.Keys + {id}; }
  }

  lemma WriteKeepsRight(h: Heap, o: nat, b: S.BucketState)
    requires HeapRight(h) && o < |h.objs| && b.id == h.objs[o].id
    ensures HeapRight(Write(h, o, b)) && |Write(h, o, b).objs| == |h.objs|
  {
  }

  lemma RemoveKeepsRight(h: Heap, id: int)
    requires HeapRight(h)
    ensures HeapRight(Remove(h, id))
  {
    var rest := h.index - {id};
    assert rest.Keys == h.index.Keys - {id};
    if id != h.minID && h.index.Keys != {} { assert h.minID in rest.Keys; }
  }

  lemma FindKeepsRight(h: Heap, op: S.Operation, cfg: S.Config)
    requires HeapRight(h) && S.BucketOf(op.ts, cfg) >= 0
    ensures var (h', pc) := FindSection(h, op, cfg); HeapRight(h') && |h'.objs| >= |h.objs| && TaskOk(h', Task(op, pc))
  {
    var id := S.BucketOf(op.ts, cfg);
    WithKeepsRight(h, id, cfg);
    if op.OpReceivedAndFix? {
      var h1 := With(h, id, cfg);
      WriteKeepsRight(h1, h1.index[id], S.BucketReceived(h1.objs[h1.index[id]], op.seqNo, op.rtt, op.hasBitflip).(fixed := true));
    }
  }

  lemma UpdateKeepsRight(h: Heap, op: S.Operation, o: Option<nat>, next: Pc)
    requires HeapRight(h) && IsReply(op) && Held(h, o)
    ensures var (h', pc) := UpdateSection(h, op, o, next); HeapRight(h') && |h'.objs| == |h.objs| && (pc == Done || pc == next)
  {
    if o.Some? { WriteKeepsRight(h, o.value, Answer(h.objs[o.value], op)); }
  }

  /** Every section of every operation keeps the minimum right. */
  lemma SectionKeepsRight(h: Heap, t: Task, cfg: S.Config)
    requires HeapRight(h) && TaskOk(h, t) && S.BucketOf(t.op.ts, cfg) >= 0
    ensures var (h', pc) := Section(h, t, cfg); HeapRight(h') && |h'.objs| >= |h.objs| && TaskOk(h', t.(pc := pc))
  {
    var op := t.op;
    match t.pc
    case Find => FindKeepsRight(h, op, cfg);
    case PutWrite(o) => WriteKeepsRight(h, o, S.BucketPut(h.objs[o], op.clientPort, op.serverPort, op.seqNo, op.ts));
    case DeleteWrite(o) => WriteKeepsRight(h, o, S.BucketDelete(h.objs[o], op.seqNo));
    case UpdateCurrent(c, p) => UpdateKeepsRight(h, op, c, UpdatePrevious(p));
    case UpdatePrevious(p) => UpdateKeepsRight(h, op, p, Create);
    case Create => WithKeepsRight(h, S.BucketOf(op.ts, cfg), cfg);
    case ReceiveWrite(o) => WriteKeepsRight(h, o, Answer(h.objs[o], op));
    case FixFind =>
    case FixWrite(o) => WriteKeepsRight(h, o, S.BucketRepair(h.objs[o], op.last.count, op.last.src, op.last.dst));
    case Done =>
  }

  lemma StepKeepsInv(s: State, a: Action, cfg: S.Config)
    requires Inv(s, cfg) && Enabled(s, a, cfg)
    ensures Inv(Do(s, a, cfg), cfg)
  {
    match a
    case Start(op) =>
    case Run(t) => SectionKeepsRight(s.heap, s.tasks[t], cfg);
    case RemoveBucket(id) => RemoveKeepsRight(s.heap, id);
  }

  /** In every interleaving, after every section, minID is -1 exactly on an empty store and otherwise
      the least identifier present; so oldest is the true oldest bucket, and nil only when there is none. */
  lemma {:induction false} MinimumAlwaysRight(cfg: S.Config, acts: seq<Action>, s: State)
    requires Reaches(cfg, acts, s)
    ensures Inv(s, cfg) && S.MinOk(View(s.heap))
    ensures Oldest(s.heap).None? <==> s.heap.index == map[]
    ensures Oldest(s.heap).Some? ==>
      var b := s.heap.objs[Oldest(s.heap).value]; b.id in s.heap.index && forall k :: k in s.heap.index ==> b.id <= k
  {
    if acts != [] {
      var n := |acts| - 1;
      var prev :| Reaches(cfg, acts[..n], prev) && Wf(prev) && Enabled(prev, acts[n], cfg) && s == Do(prev, acts[n], cfg);
      MinimumAlwaysRight(cfg, acts[..n], prev);
      StepKeepsInv(prev, acts[n], cfg);
    }
    RightView(s.heap);
  }

  lemma RightView(h: Heap)
    requires HeapRight(h)
    ensures S.MinOk(View(h)) && View(h).buckets.Keys == h.index.Keys
  {
    assert View(h).buckets.Keys == h.index.Keys;
  }

  // ----- an operation without interruption -----

  function Rank(pc: Pc): nat {
    match pc
    case Find => 5
    case UpdateCurrent(_, _) => 4
    case UpdatePrevious(_) => 3
    case Create => 2
    case FixFind => 2
    case Done => 0
    case _ => 1
  }

  /** The heap after the remaining sections of one caller, run in a row. */
  function RunOut(h: Heap, t: Task, cfg: S.Config): (h': Heap)
    requires HeapRight(h) && TaskOk(h, t) && S.BucketOf(t.op.ts, cfg) >= 0
    ensures IndexOk(h')
    decreases Rank(t.pc)
  {
    if t.pc.Done? then h else
      var (h1, pc) := Section(h, t, cfg);
      SectionKeepsRight(h, t, cfg);
      RunOut(h1, t.(pc := pc), cfg)
  }

  lemma RunOutOnce(h: Heap, t: Task, cfg: S.Config)
    requires HeapRight(h) && TaskOk(h, t) && S.BucketOf(t.op.ts, cfg) >= 0 && !t.pc.Done?
    ensures var (h1, pc) := Section(h, t, cfg);
      HeapRight(h1) && TaskOk(h1, t.(pc := pc)) && RunOut(h, t, cfg) == RunOut(h1, t.(pc := pc), cfg)
  {
    SectionKeepsRight(h, t, cfg);
  }

  lemma PutRuns(h: Heap, op: S.Operation, cfg: S.Config)
    requires HeapRight(h) && S.BucketOf(op.ts, cfg) >= 0 && op.OpPut?
    ensures View(RunOut(h, Task(op, Find), cfg)) == S.Apply(View(h), cfg, op)
  {
    var id := S.BucketOf(op.ts, cfg);
    var h1 := With(h, id, cfg);
    WithKeepsRight(h, id, cfg);
    RunOutOnce(h, Task(op, Find), cfg);
    RunOutOnce(h1, Task(op, PutWrite(h1.index[id])), cfg);
    ViewWith(h, id, cfg);
    ViewWrite(h1, id, S.BucketPut(h1.objs[h1.index[id]], op.clientPort, op.serverPort, op.seqNo, op.ts));
  }

  lemma DeleteRuns(h: Heap, op: S.Operation, cfg: S.Config)
    requires HeapRight(h) && S.BucketOf(op.ts, cfg) >= 0 && op.OpDelete?
    ensures View(RunOut(h, Task(op, Find), cfg)) == S.Apply(View(h), cfg, op)
  {
    var id := S.BucketOf(op.ts, cfg);
    RunOutOnce(h, Task(op, Find), cfg);
    if id in h.index {
      RunOutOnce(h, Task(op, DeleteWrite(h.index[id])), cfg);
      ViewWrite(h, id, S.BucketDelete(h.objs[h.index[id]], op.seqNo));
    }
  }

  /** What recording a reply in bucket `id` does to the store. */
  function Answered(s: S.Store, id: int, op: S.Operation): S.Store
    requires IsReply(op) && id in s.buckets
  {
    S.SetBucket(s, id, Answer(s.buckets[id], op))
  }

  lemma ReplyIsAnswered(s: S.Store, cfg: S.Config, op: S.Operation)
    requires IsReply(op)
    ensures var id := S.CreditedBucket(s, S.BucketOf(op.ts, cfg), op.seqNo);
      S.Apply(s, cfg, op) == Answered(S.WithBucket(s, id, cfg), id, op)
  {
  }

  lemma CreateRuns(h: Heap, op: S.Operation, cfg: S.Config)
    requires HeapRight(h) && S.BucketOf(op.ts, cfg) >= 0 && IsReply(op)
    ensures var id := S.BucketOf(op.ts, cfg);
      View(RunOut(h, Task(op, Create), cfg)) == Answered(S.WithBucket(View(h), id, cfg), id, op)
  {
    var id := S.BucketOf(op.ts, cfg);
    var h1 := With(h, id, cfg);
    WithKeepsRight(h, id, cfg);
    RunOutOnce(h, Task(op, Create), cfg);
    RunOutOnce(h1, Task(op, ReceiveWrite(h1.index[id])), cfg);
    ViewWith(h, id, cfg);
    ViewWrite(h1, id, Answer(h1.objs[h1.index[id]], op));
  }

  /** An update section that finds the number ends the operation. */
  lemma UpdateRuns(h: Heap, t: Task, id: int, next: Pc, cfg: S.Config)
    requires HeapRight(h) && TaskOk(h, t) && S.BucketOf(t.op.ts, cfg) >= 0 && IsReply(t.op)
    requires !t.pc.Done? && Section(h, t, cfg) == UpdateSection(h, t.op, At(h, id), next)
    ensures S.Holds(View(h), id, t.op.seqNo) ==> View(RunOut(h, t, cfg)) == Answered(View(h), id, t.op)
    ensures !S.Holds(View(h), id, t.op.seqNo) ==> TaskOk(h, t.(pc := next)) && RunOut(h, t, cfg) == RunOut(h, t.(pc := next), cfg)
  {
    RunOutOnce(h, t, cfg);
    if S.Holds(View(h), id, t.op.seqNo) { ViewWrite(h, id, Answer(h.objs[h.index[id]], t.op)); }
  }

  lemma ReplyRuns(h: Heap, op: S.Operation, cfg: S.Config)
    requires HeapRight(h) && S.BucketOf(op.ts, cfg) >= 0 && IsReply(op)
    ensures View(RunOut(h, Task(op, Find), cfg)) == S.Apply(View(h), cfg, op)
  {
    var id := S.BucketOf(op.ts, cfg);
    var first := Task(op, UpdateCurrent(At(h, id), At(h, id - 1)));
    var second := Task(op, UpdatePrevious(At(h, id - 1)));
    ReplyIsAnswered(View(h), cfg, op);
    RunOutOnce(h, Task(op, Find), cfg);
    UpdateRuns(h, first, id, second.pc, cfg);
    if !S.Holds(View(h), id, op.seqNo) {
      UpdateRuns(h, second, id - 1, Create, cfg);
      if !S.Holds(View(h), id - 1, op.seqNo) { CreateRuns(h, op, cfg); }
    }
  }

  /** The repair, once its sections are reached. */
  lemma RepairRuns(h: Heap, op: S.Operation, cfg: S.Config)
    requires HeapRight(h) && S.BucketOf(op.ts, cfg) >= 0 && op.OpReceivedAndFix?
    ensures var v, id, last := View(h), S.BucketOf(op.ts, cfg) - 1, op.last;
      View(RunOut(h, Task(op, FixFind), cfg))
      == if id in v.buckets then S.SetBucket(v, id, S.BucketRepair(v.buckets[id], last.count, last.src, last.dst)) else v
  {
    var id := S.BucketOf(op.ts, cfg) - 1;
    RunOutOnce(h, Task(op, FixFind), cfg);
    if id in h.index {
      RunOutOnce(h, Task(op, FixWrite(h.index[id])), cfg);
      ViewWrite(h, id, S.BucketRepair(h.objs[h.index[id]], op.last.count, op.last.src, op.last.dst));
    }
  }

  lemma ReceivedAndFixRuns(h: Heap, op: S.Operation, cfg: S.Config)
    requires HeapRight(h) && S.BucketOf(op.ts, cfg) >= 0 && op.OpReceivedAndFix?
    ensures View(RunOut(h, Task(op, Find), cfg)) == S.Apply(View(h), cfg, op)
  {
    var id := S.BucketOf(op.ts, cfg);
    var h1 := With(h, id, cfg);
    var b := h1.objs[h1.index[id]];
    WithKeepsRight(h, id, cfg);
    RunOutOnce(h, Task(op, Find), cfg);
    ViewWith(h, id, cfg);
    ViewWrite(h1, id, S.BucketReceived(b, op.seqNo, op.rtt, op.hasBitflip).(fixed := true));
    if !b.fixed && op.last.count > 0 { RepairRuns(FindSection(h, op, cfg).0, op, cfg); }
  }

  /** Run without interruption, the sections of an operation are the operation. */
  lemma SectionsAreOperation(h: Heap, op: S.Operation, cfg: S.Config)
    requires HeapRight(h) && S.BucketOf(op.ts, cfg) >= 0
    ensures View(RunOut(h, Task(op, Find), cfg)) == S.Apply(View(h), cfg, op)
  {
    match op
    case OpPut(_, _, _, _) => PutRuns(h, op, cfg);
    case OpDelete(_, _) => DeleteRuns(h, op, cfg);
    case OpReceivedAndFix(_, _, _, _, _) => ReceivedAndFixRuns(h, op, cfg);
    case _ => ReplyRuns(h, op, cfg);
  }
}
