/** The reporting state machine over any sequence of store operations. */
module Reporting {
  import opened Machine
  import S = BucketStore

  datatype Settings = Settings(store: S.Config, delay: int)

  /** The store, the last identifier handled, and the identifiers handed to the sender, in order. */
  datatype Book = Book(store: S.Store, lastID: int, reported: seq<int>)

  const NEW_BOOK := Book(S.EMPTY_STORE, 0, [])

  function Fresh(b: Book): set<BucketID> {
    set k: BucketID | k in b.store.buckets && k > b.lastID
  }

  /** The newest bucket old enough to report at `now`. */
  function Cutoff(now: int, cfg: Settings): int {
    GoDiv(now - cfg.delay, cfg.store.span)
  }

  /** The early return: reporting has begun and the oldest bucket is too young. */
  predicate TooYoung(b: Book, now: int, cfg: Settings) {
    var oldest := S.Oldest(b.store);
    oldest.Some? && b.lastID > 0 && oldest.value.id > 0 && Cutoff(now, cfg) < oldest.value.id
  }

  /** The store restricted to the given identifiers. */
  ghost function Keep(s: S.Store, ids: set<BucketID>): S.Store {
    var kept := map k: BucketID | k in s.buckets && k in ids :: s.buckets[k];
    S.Store(kept, S.Least(kept.Keys))
  }

  /** Drop every bucket not newer than the last one, then report and drop the oldest remaining. */
  ghost function Served(b: Book): Book {
    var newer := Fresh(b);
    if newer == {} then b.(store := Keep(b.store, {})) else
      var id := S.Least(newer);
      Book(Keep(b.store, newer - {id}), id, b.reported + [id])
  }

  /** One call. */
  ghost function StatOnce(b: Book, now: int, cfg: Settings): Book {
    if TooYoung(b, now, cfg) then b else Served(b)
  }

  lemma StatOnceCases(b: Book, now: int, cfg: Settings)
    ensures TooYoung(b, now, cfg) ==> StatOnce(b, now, cfg) == b
    ensures !TooYoung(b, now, cfg) && Fresh(b) == {} ==> StatOnce(b, now, cfg) == b.(store := Keep(b.store, {}))
    ensures !TooYoung(b, now, cfg) && Fresh(b) != {} ==>
      var id := S.Least(Fresh(b));
      StatOnce(b, now, cfg) == Book(Keep(b.store, Fresh(b) - {id}), id, b.reported + [id])
  {
  }

  ghost predicate BookOk(b: Book) {
    && S.MinOk(b.store)
    && b.lastID >= 0
    && (b.reported == [] ==> b.lastID == 0)
    && (b.reported != [] ==> b.reported[|b.reported| - 1] == b.lastID)
    && (forall i :: 0 <= i < |b.reported| ==> b.reported[i] > 0)
    && (forall i, j :: 0 <= i < j < |b.reported| ==> b.reported[i] < b.reported[j])
  }

  lemma KeepOk(s: S.Store, ids: set<BucketID>)
    requires S.MinOk(s)
    ensures S.MinOk(Keep(s, ids))
    ensures Keep(s, ids).buckets.Keys == s.buckets.Keys * ids
  {
  }

  lemma KeepAll(s: S.Store)
    requires S.MinOk(s)
    ensures Keep(s, s.buckets.Keys) == s
  {
    assert Keep(s, s.buckets.Keys).buckets == s.buckets;
    S.LeastUnique(s.minID, s.buckets.Keys);
  }

  lemma KeepRemove(s: S.Store, ids: set<BucketID>, id: int)
    requires S.MinOk(s) && ids <= s.buckets.Keys
    ensures S.Remove(Keep(s, ids), id) == Keep(s, ids - {id})
  {
    KeepOk(s, ids);
    KeepOk(s, ids - {id});
    assert S.Remove(Keep(s, ids), id).buckets == Keep(s, ids - {id}).buckets;
    MinOkAfterRemove(Keep(s, ids), id);
    assert Keep(s, ids).buckets.Keys == ids && Keep(s, ids - {id}).buckets.Keys == ids - {id};
    S.LeastUnique(S.Remove(Keep(s, ids), id).minID, ids - {id});
  }

  lemma MinOkAfterRemove(s: S.Store, id: int)
    requires S.MinOk(s)
    ensures S.IsLeast(S.Remove(s, id).minID, s.buckets.Keys - {id})
  {
    S.MinOkRemove(s, id);
    assert S.Remove(s, id).buckets.Keys == s.buckets.Keys - {id};
  }

  /** When only stale buckets were dropped and the oldest one left is fresh, the fresh ones are left. */
  lemma SkipLeavesFresh(b: Book, ids: set<BucketID>)
    requires ids <= b.store.buckets.Keys
    requires forall k :: k in b.store.buckets && k !in ids ==> k <= b.lastID
    requires ids == {} || S.Least(ids) > b.lastID
    ensures ids == Fresh(b)
  {
  }

  /** A call reports at most one bucket, the oldest fresh one; what else disappears is not newer
      than the last report before it. */
  lemma StatOnceEffect(b: Book, now: int, cfg: Settings)
    requires BookOk(b)
    ensures var b' := StatOnce(b, now, cfg);
      && BookOk(b')
      && b'.store.buckets.Keys <= b.store.buckets.Keys
      && (b'.reported == b.reported || b'.reported == b.reported + [b'.lastID])
      && (b'.reported == b.reported ==>
            b'.lastID == b.lastID && forall k :: k in b.store.buckets && k !in b'.store.buckets ==> k <= b.lastID)
      && (b'.reported != b.reported ==>
            && b'.lastID in b.store.buckets && b'.lastID > b.lastID
            && (forall k :: k in b.store.buckets && k > b.lastID ==> b'.lastID <= k)
            && (forall k :: k in b.store.buckets && k !in b'.store.buckets ==> k <= b.lastID || k == b'.lastID))
  {
    if !TooYoung(b, now, cfg) {
      var newer := Fresh(b);
      assert forall k :: k in b.store.buckets && k > b.lastID ==> k in newer;
      if newer == {} {
        KeepOk(b.store, {});
      } else {
        KeepOk(b.store, newer - {S.Least(newer)});
      }
    }
  }

  /** The delay has passed since the start of a bucket. */
  predicate Due(id: int, now: int, cfg: Settings) { id * cfg.store.span + cfg.delay <= now }

  /** For buckets past the first the cutoff says just that. */
  lemma CutoffReached(id: int, now: int, cfg: Settings)
    requires id > 0
    ensures id <= Cutoff(now, cfg) <==> Due(id, now, cfg)
  {
    var span: int, age := cfg.store.span, now - cfg.delay;
    GoDivTruncates(age, span);
    ReachesIff(id, span, age, Cutoff(now, cfg));
  }

  lemma ReachesIff(id: int, span: int, age: int, q: int)
    requires id > 0 && span > 0 && (if age >= 0 then q * span <= age < (q + 1) * span else q <= 0)
    ensures id <= q <==> id * span <= age
  {
    if id <= q { assert id * span <= q * span; }
    if id > q { assert (q + 1) * span <= id * span; }
  }

  /** Once reporting has begun and the oldest bucket is fresh, the cutoff decides. */
  lemma CutoffDecides(b: Book, now: int, cfg: Settings)
    requires BookOk(b) && b.lastID > 0
    requires S.Oldest(b.store).Some? && S.Oldest(b.store).value.id > b.lastID
    ensures var b', oldest := StatOnce(b, now, cfg), S.Oldest(b.store).value.id;
      if oldest <= Cutoff(now, cfg) then b'.reported == b.reported + [oldest] else b' == b
  {
    S.OldestIsLeast(b.store);
    var oldest := S.Oldest(b.store).value.id;
    assert oldest in Fresh(b);
    assert S.IsLeast(oldest, Fresh(b));
    S.LeastUnique(oldest, Fresh(b));
  }

  /** Once reporting has begun and the oldest bucket is fresh, it is reported exactly from the delay after its
      start on; before that nothing changes. */
  lemma DelayRespected(b: Book, now: int, cfg: Settings)
    requires BookOk(b) && b.lastID > 0
    requires S.Oldest(b.store).Some? && S.Oldest(b.store).value.id > b.lastID
    ensures var b', oldest := StatOnce(b, now, cfg), S.Oldest(b.store).value.id;
      if oldest * cfg.store.span + cfg.delay <= now then b'.reported == b.reported + [oldest] else b' == b
  {
    CutoffDecides(b, now, cfg);
    CutoffReached(S.Oldest(b.store).value.id, now, cfg);
  }

  /** Whatever the time of the call, no bucket younger than the delay is reported. */
  ghost predicate DelayKept(b: Book, cfg: Settings) {
    forall now :: StatOnce(b, now, cfg).reported != b.reported ==> Due(StatOnce(b, now, cfg).lastID, now, cfg)
  }

  /** A call so early that the cutoff is at most bucket 0, and does not reach the bucket at the head. */
  function EarlyCall(b: Book, cfg: Settings): int {
    if b.lastID == 0 then cfg.delay else cfg.delay + b.store.minID * cfg.store.span
  }

  lemma CutoffAtHead(b: Book, cfg: Settings)
    requires b.store.minID >= 0
    ensures Cutoff(cfg.delay, cfg) == 0
    ensures Cutoff(cfg.delay + b.store.minID * cfg.store.span, cfg) == b.store.minID
  {
    DivModUnique(0, cfg.store.span, 0, 0);
    var id, span: int := b.store.minID, cfg.store.span;
    if id > 0 { MulAtLeast(id, span); }
    DivModUnique(id * span, span, id, 0);
  }

  /** The delay is kept exactly when nothing fresh is stored, or reporting has begun and the oldest
      bucket is not stale. */
  lemma DelayKeptIff(b: Book, cfg: Settings)
    requires BookOk(b)
    ensures DelayKept(b, cfg) <==> Fresh(b) == {} || (b.lastID > 0 && b.store.minID > b.lastID)
  {
    if Fresh(b) == {} {
      forall now ensures StatOnce(b, now, cfg).reported == b.reported {}
    } else if b.lastID > 0 && b.store.minID > b.lastID {
      S.OldestIsLeast(b.store);
      forall now ensures StatOnce(b, now, cfg).reported != b.reported ==> Due(StatOnce(b, now, cfg).lastID, now, cfg) {
        DelayRespected(b, now, cfg);
        StatOnceEffect(b, now, cfg);
        var b' := StatOnce(b, now, cfg);
        assert b'.reported != b.reported ==> b'.reported[|b.reported|] == b'.lastID;
      }
    } else {
      TooEarly(b, cfg);
    }
  }

  lemma TooEarly(b: Book, cfg: Settings)
    requires BookOk(b) && Fresh(b) != {} && (b.lastID == 0 || b.store.minID <= b.lastID)
    ensures !DelayKept(b, cfg)
  {
    var now, id := EarlyCall(b, cfg), S.Least(Fresh(b));
    CutoffAtHead(b, cfg);
    assert id in b.store.buckets && id > b.lastID;
    assert !TooYoung(b, now, cfg);
    assert StatOnce(b, now, cfg) == Served(b);
    assert StatOnce(b, now, cfg).lastID == id > Cutoff(now, cfg);
    CutoffReached(id, now, cfg);
    assert StatOnce(b, now, cfg).reported == b.reported + [id] != b.reported;
  }

  /** A stale bucket lets a younger one through: it is not checked against the delay again. */
  lemma DelaySkippedAfterStale()
    ensures var cfg := Settings(S.Config(10, 0, false), 0);
            var store := S.WithBucket(S.WithBucket(S.EMPTY_STORE, 3, cfg.store), 9, cfg.store);
            var b := Book(store, 5, [5]);
      BookOk(b) && Cutoff(40, cfg) == 4 && StatOnce(b, 40, cfg).reported == [5, 9]
  {
    var cfg := Settings(S.Config(10, 0, false), 0);
    var store := S.WithBucket(S.WithBucket(S.EMPTY_STORE, 3, cfg.store), 9, cfg.store);
    var b := Book(store, 5, [5]);
    assert Fresh(b) == {9};
    S.LeastUnique(9, {9});
    assert [5] + [9] == [5, 9];
  }

  /** The very first call does not apply the delay at all. */
  lemma DelayIgnoredAtFirst(store: S.Store, now: int, cfg: Settings)
    requires S.MinOk(store) && exists k :: k in store.buckets && k > 0
    ensures |StatOnce(Book(store, 0, []), now, cfg).reported| == 1
  {
    var k :| k in store.buckets && k > 0;
    assert k in Fresh(Book(store, 0, []));
  }

  // ----- whole runs -----

  datatype Event = Op(op: S.Operation) | Tick(now: int)

  ghost function Next(b: Book, e: Event, cfg: Settings): Book {
    match e
    case Op(op) => b.(store := S.Apply(b.store, cfg.store, op))
    case Tick(now) => StatOnce(b, now, cfg)
  }

  /** Timestamps of a run never fall into a negative bucket. */
  predicate Recordable(e: Event, cfg: Settings) {
    e.Op? ==> S.BucketOf(e.op.ts, cfg.store) >= 0
  }

  ghost function Exec(es: seq<Event>, cfg: Settings): Book {
    if es == [] then NEW_BOOK else Next(Exec(es[..|es| - 1], cfg), es[|es| - 1], cfg)
  }

  /** In every run the book is right: the cached minimum, and strictly increasing reports. */
  lemma {:induction false} RunsAreOk(es: seq<Event>, cfg: Settings)
    requires forall i :: 0 <= i < |es| ==> Recordable(es[i], cfg)
    ensures BookOk(Exec(es, cfg))
  {
    if es != [] {
      var b, e := Exec(es[..|es| - 1], cfg), es[|es| - 1];
      RunsAreOk(es[..|es| - 1], cfg);
      assert Recordable(e, cfg);
      match e
      case Op(op) => S.MinOkApply(b.store, cfg.store, op);
      case Tick(now) => StatOnceEffect(b, now, cfg);
    }
  }

  /** A fresh bucket stays fresh until it is reported. */
  lemma {:induction false} FreshBucketsAreReported(es: seq<Event>, n: nat, k: int, cfg: Settings)
    requires forall i :: 0 <= i < |es| ==> Recordable(es[i], cfg)
    requires n <= |es| && k in Fresh(Exec(es[..n], cfg))
    ensures k in Fresh(Exec(es, cfg)) || k in Exec(es, cfg).reported
    decreases |es|
  {
    if n < |es| {
      var init, e := es[..|es| - 1], es[|es| - 1];
      assert init[..n] == es[..n];
      FreshBucketsAreReported(init, n, k, cfg);
      RunsAreOk(init, cfg);
      var b := Exec(init, cfg);
      assert Recordable(e, cfg);
      match e
      case Op(op) => S.MinOkApply(b.store, cfg.store, op);
      case Tick(now) => StatOnceEffect(b, now, cfg);
    } else {
      assert es[..n] == es;
    }
  }

  /** The last identifier and the reports only grow along a run. */
  lemma {:induction false} ReportsGrow(es: seq<Event>, n: nat, cfg: Settings)
    requires forall i :: 0 <= i < |es| ==> Recordable(es[i], cfg)
    requires n <= |es|
    ensures Exec(es[..n], cfg).lastID <= Exec(es, cfg).lastID
    ensures Exec(es[..n], cfg).reported <= Exec(es, cfg).reported
    decreases |es|
  {
    if n < |es| {
      var init, e := es[..|es| - 1], es[|es| - 1];
      assert init[..n] == es[..n];
      ReportsGrow(init, n, cfg);
      RunsAreOk(init, cfg);
      if e.Tick? { StatOnceEffect(Exec(init, cfg), e.now, cfg); }
    } else {
      assert es[..n] == es;
    }
  }

  lemma ReportedAtMostLast(b: Book, k: int)
    requires BookOk(b)
    ensures k in b.reported ==> k <= b.lastID
    ensures k in Fresh(b) ==> k in b.store.buckets
  {
  }

  /** Identifiers only disappear by being reported, or by not being newer than the last report. */
  lemma NewerBucketsSurvive(es: seq<Event>, n: nat, k: int, cfg: Settings)
    requires forall i :: 0 <= i < |es| ==> Recordable(es[i], cfg)
    requires n <= |es| && k in Exec(es[..n], cfg).store.buckets
    ensures k in Exec(es, cfg).store.buckets || k <= Exec(es, cfg).lastID
  {
    var before, b := Exec(es[..n], cfg), Exec(es, cfg);
    ReportsGrow(es, n, cfg);
    if k in Fresh(before) {
      FreshBucketsAreReported(es, n, k, cfg);
      RunsAreOk(es, cfg);
      ReportedAtMostLast(b, k);
    } else {
      assert k <= before.lastID <= b.lastID;
    }
  }

  /** A bucket that appears at or below the last report, for instance recreated by late packets,
      is never reported from then on. */
  lemma RecreatedIsNeverReported(es: seq<Event>, n: nat, i: nat, cfg: Settings)
    requires forall j :: 0 <= j < |es| ==> Recordable(es[j], cfg)
    requires n <= |es| && |Exec(es[..n], cfg).reported| <= i < |Exec(es, cfg).reported|
    ensures Exec(es, cfg).reported[i] > Exec(es[..n], cfg).lastID
  {
    RunsAreOk(es, cfg);
    RunsAreOk(es[..n], cfg);
    ReportsGrow(es, n, cfg);
    var before := Exec(es[..n], cfg);
    if before.reported != [] {
      assert before.reported[|before.reported| - 1] == Exec(es, cfg).reported[|before.reported| - 1];
    }
  }
}
