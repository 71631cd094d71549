/** Run without interruption, the reporter's sections are one call of the reporting machine. */
module ReporterRefinement {
  import opened Machine
  import opened BucketStats
  import opened BucketHeap
  import opened Protocol
  import opened ProtocolInvariant
  import opened ProtocolSafety
  import R = Reporting
  import S = BucketStore

  function Ids(reports: seq<Report>): (ids: seq<int>) {
    seq(|reports|, i requires 0 <= i < |reports| => reports[i].id)
  }

  /** The protocol's state as the reporting machine sees it. */
  function Book(s: State): R.Book
    requires HeapWf(s)
  {
    R.Book(View(s.heap), s.lastID, Ids(s.reports))
  }

  function Settings(p: Params): R.Settings { R.Settings(p.Server(), p.delay) }

  /** `n` reporter sections in a row lead from one state to another. */
  ghost predicate RunsTo(s: State, now: int, s': State, n: nat, p: Params)
    decreases n
  {
    if n == 0 then s == s' else Wf(s) && RunsTo(ReporterStep(s, now, p), now, s', n - 1, p)
  }

  /** The call is over, with the given book. */
  ghost predicate Ended(s: State, b: R.Book) {
    HeapWf(s) && s.reporter.Idle? && Book(s) == b
  }

  lemma ViewIsMinOk(s: State)
    requires HeapOk(s)
    ensures S.MinOk(View(s.heap)) && View(s.heap).buckets.Keys == s.heap.index.Keys
  {
    assert View(s.heap).buckets.Keys == s.heap.index.Keys;
  }

  lemma OldestIsView(s: State)
    requires HeapOk(s)
    ensures Oldest(s.heap).None? <==> S.Oldest(View(s.heap)).None?
    ensures Oldest(s.heap).Some? ==> S.Oldest(View(s.heap)) == Option.Some(s.heap.objs[Oldest(s.heap).value])
  {
  }

  /** Removing a stale bucket first changes nothing about what is served. */
  lemma ServedSkips(b: R.Book, id: int)
    requires S.MinOk(b.store) && id in b.store.buckets && id <= b.lastID
    ensures R.Served(b.(store := S.Remove(b.store, id))) == R.Served(b)
  {
    var b' := b.(store := S.Remove(b.store, id));
    assert b'.store.buckets.Keys == b.store.buckets.Keys - {id};
    assert R.Fresh(b') == R.Fresh(b);
    KeepSkips(b.store, id, {});
    if R.Fresh(b) != {} { KeepSkips(b.store, id, R.Fresh(b) - {S.Least(R.Fresh(b))}); }
  }

  lemma KeepSkips(s: S.Store, id: int, ids: set<BucketID>)
    requires id !in ids
    ensures R.Keep(S.Remove(s, id), ids) == R.Keep(s, ids)
  {
    var m, m' := R.Keep(S.Remove(s, id), ids).buckets, R.Keep(s, ids).buckets;
    assert m.Keys == m'.Keys;
    forall k: BucketID | k in m ensures m[k] == m'[k] {}
    assert m == m';
  }

  /** Serving a store without fresh buckets, and one whose oldest bucket is fresh. */
  lemma ServedEmpty(b: R.Book)
    requires S.MinOk(b.store) && b.store.buckets == map[]
    ensures R.Served(b) == b
  {
    assert R.Fresh(b) == {};
    R.KeepAll(b.store);
    assert b.store.buckets.Keys == {};
  }

  lemma ServedOldest(b: R.Book)
    requires S.MinOk(b.store) && b.store.minID in b.store.buckets && b.store.minID > b.lastID
    ensures R.Served(b) == R.Book(S.Remove(b.store, b.store.minID), b.store.minID, b.reported + [b.store.minID])
  {
    var all, id := b.store.buckets.Keys, b.store.minID;
    assert R.Fresh(b) == all;
    S.LeastUnique(id, all);
    R.KeepAll(b.store);
    R.KeepRemove(b.store, all, id);
  }

  // ----- the sections -----

  /** From the figures of the oldest bucket to the end of the call. */
  lemma ReportRuns(s: State, o: nat, now: int, p: Params) returns (n: nat, s': State)
    requires Inv(s, p) && s.reporter.ReadSpan? && s.reporter.o == o && o < |s.heap.objs| && s.heap.objs[o].id == s.lastID
    ensures RunsTo(s, now, s', n, p)
    ensures Ended(s', R.Book(S.Remove(View(s.heap), s.lastID), s.lastID, Ids(s.reports) + [s.lastID]))
  {
    InvIsWf(s, p);
    var s1 := ReporterStep(s, now, p);
    ReporterKeepsInv(s, now, p);
    InvIsWf(s1, p);
    if s1.reporter.Finish? {
      s' := FinishRuns(s, s1, o, now, p);
      n := 2;
      assert RunsTo(s1, now, s', 1, p);
    } else {
      var s2 := ReporterStep(s1, now, p);
      ReporterKeepsInv(s1, now, p);
      InvIsWf(s2, p);
      s' := FinishRuns(s, s2, o, now, p);
      n := 3;
      assert RunsTo(s2, now, s', 1, p);
      assert RunsTo(s1, now, s', 2, p);
    }
  }

  lemma IdsGrow(reports: seq<Report>, more: seq<Report>, id: int)
    requires |more| == |reports| + 1 && more[..|reports|] == reports && more[|reports|].id == id
    ensures Ids(more) == Ids(reports) + [id]
  {
    forall i | 0 <= i < |reports| ensures more[i].id == reports[i].id { assert more[..|reports|][i] == reports[i]; }
  }

  lemma FinishRuns(s: State, s1: State, o: nat, now: int, p: Params) returns (s': State)
    requires HeapWf(s) && Inv(s1, p) && Wf(s1) && s1.reporter == Finish(o) && s1.heap == s.heap && s1.lastID == s.lastID
    requires o < |s.heap.objs| && s.heap.objs[o].id == s.lastID
    requires |s1.reports| == |s.reports| + 1 && s1.reports[..|s.reports|] == s.reports && s1.reports[|s.reports|].id == s.lastID
    ensures RunsTo(s1, now, s', 1, p)
    ensures Ended(s', R.Book(S.Remove(View(s.heap), s.lastID), s.lastID, Ids(s.reports) + [s.lastID]))
  {
    s' := ReporterStep(s1, now, p);
    assert s' == RemoveID(s1, s.lastID).(reporter := Idle);
    assert RunsTo(s', now, s', 0, p);
    ViewRemove(s.heap, s.lastID);
    IdsGrow(s.reports, s1.reports, s.lastID);
  }

  /** From the oldest bucket under examination to the end of the call: stale buckets go, one is reported. */
  lemma {:induction false} ScanRuns(s: State, o: nat, now: int, p: Params) returns (n: nat, s': State)
    requires Inv(s, p) && s.reporter == Scan(o) && Oldest(s.heap) == Option.Some(o)
    ensures RunsTo(s, now, s', n, p) && Ended(s', R.Served(Book(s)))
    decreases |s.heap.index.Keys|, 0
  {
    InvIsWf(s, p);
    ViewIsMinOk(s);
    var b := s.heap.objs[o];
    var s1 := ReporterStep(s, now, p);
    ReporterKeepsInv(s, now, p);
    InvIsWf(s1, p);
    if b.id <= s.lastID {
      ViewRemove(s.heap, b.id);
      ServedSkips(Book(s), b.id);
      var m: nat;
      m, s' := RescanRuns(s1, now, p);
      n := m + 1;
    } else {
      ServedOldest(Book(s));
      var m: nat;
      m, s' := ReportRuns(s1, o, now, p);
      n := m + 1;
    }
  }

  /** Looking for the oldest bucket moves nothing but the reporter. */
  lemma RescanStep(s: State, now: int, p: Params)
    requires Inv(s, p) && Wf(s) && s.reporter.Rescan?
    ensures var s1, found := ReporterStep(s, now, p), Oldest(s.heap);
      s1 == s.(reporter := if found.None? then Idle else Scan(found.value)) && Inv(s1, p)
  {
    ReporterKeepsInv(s, now, p);
  }

  /** So does starting a call, unless it ends at once. */
  lemma IdleStep(s: State, now: int, p: Params)
    requires Inv(s, p) && Wf(s) && s.reporter.Idle?
    ensures var s1, found := ReporterStep(s, now, p), Oldest(s.heap);
      && Inv(s1, p)
      && s1 == if found.None? || R.TooYoung(Book(s), now, Settings(p)) then s else s.(reporter := Scan(found.value))
  {
    ReporterKeepsInv(s, now, p);
    OldestIsView(s);
  }

  lemma {:induction false} RescanRuns(s: State, now: int, p: Params) returns (n: nat, s': State)
    requires Inv(s, p) && s.reporter.Rescan?
    ensures RunsTo(s, now, s', n, p) && Ended(s', R.Served(Book(s)))
    decreases |s.heap.index.Keys|, 1
  {
    InvIsWf(s, p);
    ViewIsMinOk(s);
    var s1 := ReporterStep(s, now, p);
    RescanStep(s, now, p);
    if Oldest(s.heap).None? {
      n, s' := 1, s1;
      assert View(s.heap).buckets == map[];
      ServedEmpty(Book(s));
      assert RunsTo(s1, now, s', 0, p);
    } else {
      var m: nat;
      m, s' := ScanRuns(s1, s1.reporter.o, now, p);
      n := m + 1;
    }
  }

  lemma NothingToServe(s: State, now: int, p: Params)
    requires HeapOk(s) && (Oldest(s.heap).None? || R.TooYoung(Book(s), now, Settings(p)))
    ensures R.StatOnce(Book(s), now, Settings(p)) == Book(s)
  {
    ViewIsMinOk(s);
    if Oldest(s.heap).None? {
      assert View(s.heap).buckets == map[];
      ServedEmpty(Book(s));
    }
  }

  /** A call that is not over at once serves the store. */
  lemma CallServes(s: State, now: int, p: Params) returns (n: nat, s': State)
    requires Inv(s, p) && Wf(s) && s.reporter.Idle? && Oldest(s.heap).Some?
    requires ReporterStep(s, now, p) == s.(reporter := Scan(Oldest(s.heap).value)) && Inv(ReporterStep(s, now, p), p)
    ensures n > 0 && RunsTo(s, now, s', n, p) && Ended(s', R.Served(Book(s)))
  {
    var m: nat;
    m, s' := ScanRuns(ReporterStep(s, now, p), Oldest(s.heap).value, now, p);
    n := m + 1;
  }

  /** From an idle reporter, some number of sections is exactly one call at that time. */
  lemma CallIsStatOnce(s: State, now: int, p: Params) returns (n: nat, s': State)
    requires Inv(s, p) && s.reporter.Idle?
    ensures n > 0 && RunsTo(s, now, s', n, p) && Ended(s', R.StatOnce(Book(s), now, Settings(p)))
  {
    InvIsWf(s, p);
    IdleStep(s, now, p);
    if Oldest(s.heap).None? || R.TooYoung(Book(s), now, Settings(p)) {
      n, s' := 1, s;
      assert RunsTo(ReporterStep(s, now, p), now, s', 0, p);
      NothingToServe(s, now, p);
    } else {
      n, s' := CallServes(s, now, p);
    }
  }
}
