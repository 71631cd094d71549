/** Time-bucketed probe records: what each operation does to the store, as a function. */
module BucketStore {
  import opened Machine

  /** The round-trip time of a probe that has not been answered. */
  const RTT_UNSET: i64 := -1

  type pos = x: int | x > 0 witness 1

  datatype Request = Request(
    clientPort: u16, serverPort: u16, seqNo: u64, ts: i64, rtt: i64, hasBitflip: bool, isRst: bool)

  datatype Config = Config(span: pos, rateInSpan: int, serverSide: bool)

  datatype BucketState = BucketState(
    id: int, packetCount: u32, packetCountFixed: bool, startSrcPort: u16, startDstPort: u16,
    fixed: bool, requests: map<u64, Request>)

  function NewBucket(id: int, cfg: Config): BucketState {
    BucketState(id, cfg.rateInSpan % 0x1_0000_0000, false, 0, 0, false, map[])
  }

  // ----- one bucket -----

  function BucketPut(b: BucketState, clientPort: u16, serverPort: u16, seqNo: u64, ts: i64): BucketState {
    var r := if seqNo in b.requests
             then b.requests[seqNo].(clientPort := clientPort, serverPort := serverPort, ts := ts)
             else Request(clientPort, serverPort, seqNo, ts, RTT_UNSET, false, false);
    b.(requests := b.requests[seqNo := r])
  }

  function BucketDelete(b: BucketState, seqNo: u64): BucketState {
    b.(requests := b.requests - {seqNo})
  }

  function BucketReceived(b: BucketState, seqNo: u64, rtt: i64, hasBitflip: bool): BucketState {
    var r := if seqNo in b.requests
             then b.requests[seqNo].(rtt := rtt, hasBitflip := hasBitflip)
             else Request(0, 0, seqNo, 0, rtt, hasBitflip, false);
    b.(requests := b.requests[seqNo := r])
  }

  function BucketReceivedRST(b: BucketState, seqNo: u64, rtt: i64): BucketState {
    var r := if seqNo in b.requests
             then b.requests[seqNo].(rtt := rtt, isRst := true)
             else Request(0, 0, seqNo, 0, rtt, false, true);
    b.(requests := b.requests[seqNo := r])
  }

  /** A later span's first packet tells how many probes this span really had and where it began. */
  function BucketRepair(b: BucketState, count: u32, src: u16, dst: u16): BucketState {
    b.(packetCount := count, packetCountFixed := true, startSrcPort := src, startDstPort := dst)
  }

  // ----- the whole store -----

  /** The buckets by identifier, and the cached least identifier. */
  datatype Store = Store(buckets: map<BucketID, BucketState>, minID: int)

  const EMPTY_STORE := Store(map[], -1)

  function BucketOf(ts: int, cfg: Config): int {
    GoDiv(ts, cfg.span)
  }

  /** The section every recording operation shares: find the bucket or create it. */
  function WithBucket(s: Store, id: int, cfg: Config): (s': Store)
    ensures id in s'.buckets
  {
    if id in s.buckets then s
    else Store(s.buckets[id := NewBucket(id, cfg)], if s.minID < 0 || id < s.minID then id else s.minID)
  }

  function SetBucket(s: Store, id: int, b: BucketState): Store {
    s.(buckets := s.buckets[id := b])
  }

  function Put(s: Store, cfg: Config, clientPort: u16, serverPort: u16, seqNo: u64, ts: i64): Store {
    var id := BucketOf(ts, cfg);
    var s1 := WithBucket(s, id, cfg);
    SetBucket(s1, id, BucketPut(s1.buckets[id], clientPort, serverPort, seqNo, ts))
  }

  function Delete(s: Store, cfg: Config, seqNo: u64, ts: i64): Store {
    var id := BucketOf(ts, cfg);
    if id in s.buckets then SetBucket(s, id, BucketDelete(s.buckets[id], seqNo)) else s
  }

  predicate Holds(s: Store, id: int, seqNo: u64) {
    id in s.buckets && seqNo in s.buckets[id].requests
  }

  /** The bucket a reply is credited to: the current one, then the previous one, else a new entry. */
  function CreditedBucket(s: Store, id: int, seqNo: u64): int {
    if !Holds(s, id, seqNo) && Holds(s, id - 1, seqNo) then id - 1 else id
  }

  function Received(s: Store, cfg: Config, seqNo: u64, ts: i64, rtt: i64, hasBitflip: bool): Store {
    var id := CreditedBucket(s, BucketOf(ts, cfg), seqNo);
    var s1 := WithBucket(s, id, cfg);
    SetBucket(s1, id, BucketReceived(s1.buckets[id], seqNo, rtt, hasBitflip))
  }

  function ReceivedRST(s: Store, cfg: Config, seqNo: u64, ts: i64, rtt: i64): Store {
    var id := CreditedBucket(s, BucketOf(ts, cfg), seqNo);
    var s1 := WithBucket(s, id, cfg);
    SetBucket(s1, id, BucketReceivedRST(s1.buckets[id], seqNo, rtt))
  }

  /** The report a packet carries about the span before its own. */
  datatype LastSpan = LastSpan(count: u32, src: u16, dst: u16)

  function ReceivedAndFix(s: Store, cfg: Config, seqNo: u64, ts: i64, rtt: i64, last: LastSpan, hasBitflip: bool): Store {
    var id := BucketOf(ts, cfg);
    var s1 := WithBucket(s, id, cfg);
    var first := !s1.buckets[id].fixed;
    var s2 := SetBucket(s1, id, BucketReceived(s1.buckets[id], seqNo, rtt, hasBitflip).(fixed := true));
    if first && last.count > 0 && id - 1 in s2.buckets
    then SetBucket(s2, id - 1, BucketRepair(s2.buckets[id - 1], last.count, last.src, last.dst))
    else s2
  }

  function Oldest(s: Store): Option<BucketState> {
    if s.minID in s.buckets then Some(s.buckets[s.minID]) else None
  }

  predicate IsLeast(m: int, ids: set<BucketID>) {
    if ids == {} then m == -1 else m in ids && forall k :: k in ids ==> m <= k
  }

  lemma {:induction false} LeastExists(ids: set<BucketID>)
    ensures exists m :: IsLeast(m, ids)
  {
    if ids == {} {
      assert IsLeast(-1, ids);
    } else {
      var x := Pick(ids);
      LeastExists(ids - {x});
      var m :| IsLeast(m, ids - {x});
      var least := if ids - {x} == {} || x < m then x else m;
      assert forall k :: k in ids ==> k == x || k in ids - {x};
      assert IsLeast(least, ids);
    }
  }

  ghost function Least(ids: set<BucketID>): (m: int)
    ensures IsLeast(m, ids)
  {
    LeastExists(ids);
    var m :| IsLeast(m, ids);
    m
  }

  lemma LeastUnique(m: int, ids: set<BucketID>)
    requires IsLeast(m, ids)
    ensures m == Least(ids)
  {
  }

  ghost function Remove(s: Store, id: int): Store {
    var rest := s.buckets - {id};
    Store(rest, if id == s.minID then Least(rest.Keys) else s.minID)
  }

  // ----- what each operation changes, and what it leaves -----

  /** For timestamps from the epoch on, the span of a bucket. */
  lemma BucketSpans(ts: nat, cfg: Config)
    ensures BucketOf(ts, cfg) * cfg.span <= ts < (BucketOf(ts, cfg) + 1) * cfg.span
  {
    GoDivTruncates(ts, cfg.span);
  }

  /** The bucket an operation finds: the one stored, or an empty one that expects the configured rate. */
  function Before(s: Store, id: int, cfg: Config): (b: BucketState) {
    if id in s.buckets then s.buckets[id]
    else BucketState(id, cfg.rateInSpan % 0x1_0000_0000, false, 0, 0, false, map[])
  }

  /** Bucket `id` is there, and every other bucket is as it was. */
  predicate OnlyBucket(s: Store, s': Store, id: int) {
    s'.buckets.Keys == s.buckets.Keys + {id} && forall k :: k in s.buckets && k != id ==> s'.buckets[k] == s.buckets[k]
  }

  /** Entry `seqNo` is there, and every other entry and every other field of the bucket is as it was. */
  predicate OnlyEntry(b: BucketState, b': BucketState, seqNo: u64) {
    && b' == b.(requests := b'.requests)
    && b'.requests.Keys == b.requests.Keys + {seqNo}
    && forall q :: q in b.requests && q != seqNo ==> b'.requests[q] == b.requests[q]
  }

  /** A send is recorded in the bucket of its time: unanswered if new, else with its answer kept. */
  lemma PutEffect(s: Store, cfg: Config, clientPort: u16, serverPort: u16, seqNo: u64, ts: i64)
    ensures var s', id := Put(s, cfg, clientPort, serverPort, seqNo, ts), BucketOf(ts, cfg);
      && OnlyBucket(s, s', id) && OnlyEntry(Before(s, id, cfg), s'.buckets[id], seqNo)
      && var old', new' := Before(s, id, cfg).requests, s'.buckets[id].requests[seqNo];
         if seqNo in old' then new' == old'[seqNo].(clientPort := clientPort, serverPort := serverPort, ts := ts)
         else new' == Request(clientPort, serverPort, seqNo, ts, -1, false, false)
  {
  }

  /** A failed send takes its own entry away and nothing else. */
  lemma DeleteEffect(s: Store, cfg: Config, seqNo: u64, ts: i64)
    ensures var s', id := Delete(s, cfg, seqNo, ts), BucketOf(ts, cfg);
      && s'.buckets.Keys == s.buckets.Keys && s'.minID == s.minID
      && (forall k :: k in s.buckets && k != id ==> s'.buckets[k] == s.buckets[k])
      && (id in s.buckets ==> s'.buckets[id] == s.buckets[id].(requests := s.buckets[id].requests - {seqNo}))
  {
  }

  /** The bucket a reply at `ts` belongs to: the current one if it holds the number or the previous one does not. */
  predicate Credits(s: Store, cfg: Config, seqNo: u64, ts: i64, id: int) {
    var now := BucketOf(ts, cfg);
    if now in s.buckets && seqNo in s.buckets[now].requests then id == now
    else if now - 1 in s.buckets && seqNo in s.buckets[now - 1].requests then id == now - 1
    else id == now
  }

  /** An answer sets time and flip of its entry, and leaves ports, send time and reset flag; an answer
      without an entry makes one without ports. */
  lemma ReceivedEffect(s: Store, cfg: Config, seqNo: u64, ts: i64, rtt: i64, hasBitflip: bool, id: int)
    requires Credits(s, cfg, seqNo, ts, id)
    ensures var s' := Received(s, cfg, seqNo, ts, rtt, hasBitflip);
      && OnlyBucket(s, s', id) && OnlyEntry(Before(s, id, cfg), s'.buckets[id], seqNo)
      && var old', new' := Before(s, id, cfg).requests, s'.buckets[id].requests[seqNo];
         if seqNo in old' then new' == old'[seqNo].(rtt := rtt, hasBitflip := hasBitflip)
         else new' == Request(0, 0, seqNo, 0, rtt, hasBitflip, false)
  {
  }

  lemma ReceivedRSTEffect(s: Store, cfg: Config, seqNo: u64, ts: i64, rtt: i64, id: int)
    requires Credits(s, cfg, seqNo, ts, id)
    ensures var s' := ReceivedRST(s, cfg, seqNo, ts, rtt);
      && OnlyBucket(s, s', id) && OnlyEntry(Before(s, id, cfg), s'.buckets[id], seqNo)
      && var old', new' := Before(s, id, cfg).requests, s'.buckets[id].requests[seqNo];
         if seqNo in old' then new' == old'[seqNo].(rtt := rtt, isRst := true)
         else new' == Request(0, 0, seqNo, 0, rtt, false, true)
  {
  }

  /** The bucket before the one of an arrival: repaired by the first arrival that reports a count. */
  predicate RepairedBy(b: BucketState, b': BucketState, first: bool, last: LastSpan) {
    if first && last.count > 0
    then b' == b.(packetCount := last.count, packetCountFixed := true, startSrcPort := last.src, startDstPort := last.dst)
    else b' == b
  }

  /** An arrival marks its bucket, sets time and flip of its entry, repairs the previous bucket if it is the
      bucket's first and that bucket is there, and leaves everything else. */
  lemma ReceivedAndFixEffect(s: Store, cfg: Config, seqNo: u64, ts: i64, rtt: i64, last: LastSpan, hasBitflip: bool)
    ensures var s', id := ReceivedAndFix(s, cfg, seqNo, ts, rtt, last, hasBitflip), BucketOf(ts, cfg);
      && s'.buckets.Keys == s.buckets.Keys + {id}
      && (forall k :: k in s.buckets && k != id && k != id - 1 ==> s'.buckets[k] == s.buckets[k])
      && (id - 1 in s.buckets ==> RepairedBy(s.buckets[id - 1], s'.buckets[id - 1], !Before(s, id, cfg).fixed, last))
      && s'.buckets[id].fixed && OnlyEntry(Before(s, id, cfg).(fixed := true), s'.buckets[id], seqNo)
      && var old', new' := Before(s, id, cfg).requests, s'.buckets[id].requests[seqNo];
         if seqNo in old' then new' == old'[seqNo].(rtt := rtt, hasBitflip := hasBitflip)
         else new' == Request(0, 0, seqNo, 0, rtt, hasBitflip, false)
  {
  }

  /** Removing a bucket leaves the others as they were, and the minimum unless it was that bucket's. */
  lemma RemoveEffect(s: Store, id: int)
    ensures var s' := Remove(s, id);
      && s'.buckets.Keys == s.buckets.Keys - {id} && (forall k :: k in s'.buckets ==> s'.buckets[k] == s.buckets[k])
      && (id != s.minID ==> s'.minID == s.minID)
  {
  }

  // ----- the cached minimum -----

  /** The cache is right: -1 on an empty store, otherwise the least identifier, none negative. */
  predicate MinOk(s: Store) {
    && IsLeast(s.minID, s.buckets.Keys)
    && forall k :: k in s.buckets ==> k >= 0 && s.buckets[k].id == k
  }

  lemma MinOkWithBucket(s: Store, id: int, cfg: Config)
    requires MinOk(s) && id >= 0
    ensures MinOk(WithBucket(s, id, cfg))
  {
  }

  lemma MinOkRemove(s: Store, id: int)
    requires MinOk(s)
    ensures MinOk(Remove(s, id))
  {
  }

  /** What callers may do to the store between two reports. */
  datatype Operation =
    | OpPut(clientPort: u16, serverPort: u16, seqNo: u64, ts: i64)
    | OpDelete(seqNo: u64, ts: i64)
    | OpReceived(seqNo: u64, ts: i64, rtt: i64, hasBitflip: bool)
    | OpReceivedRST(seqNo: u64, ts: i64, rtt: i64)
    | OpReceivedAndFix(seqNo: u64, ts: i64, rtt: i64, last: LastSpan, hasBitflip: bool)

  function Apply(s: Store, cfg: Config, op: Operation): Store {
    match op
    case OpPut(c, d, q, ts) => Put(s, cfg, c, d, q, ts)
    case OpDelete(q, ts) => Delete(s, cfg, q, ts)
    case OpReceived(q, ts, rtt, flip) => Received(s, cfg, q, ts, rtt, flip)
    case OpReceivedRST(q, ts, rtt) => ReceivedRST(s, cfg, q, ts, rtt)
    case OpReceivedAndFix(q, ts, rtt, last, flip) => ReceivedAndFix(s, cfg, q, ts, rtt, last, flip)
  }

  lemma MinOkSetBucket(s: Store, id: int, b: BucketState)
    requires MinOk(s) && id in s.buckets && b.id == id
    ensures MinOk(SetBucket(s, id, b))
    ensures SetBucket(s, id, b).buckets.Keys == s.buckets.Keys
  {
    assert SetBucket(s, id, b).buckets.Keys == s.buckets.Keys;
  }

  /** Finding or creating a bucket and then writing it keeps the cache right. */
  lemma MinOkWrite(s: Store, cfg: Config, id: int, b: BucketState)
    requires MinOk(s) && id >= 0 && b.id == id
    ensures MinOk(SetBucket(WithBucket(s, id, cfg), id, b))
    ensures SetBucket(WithBucket(s, id, cfg), id, b).buckets.Keys == s.buckets.Keys + {id}
  {
    MinOkWithBucket(s, id, cfg);
    MinOkSetBucket(WithBucket(s, id, cfg), id, b);
  }

  lemma MinOkReceivedAndFix(s: Store, cfg: Config, seqNo: u64, ts: i64, rtt: i64, last: LastSpan, hasBitflip: bool)
    requires MinOk(s) && BucketOf(ts, cfg) >= 0
    ensures MinOk(ReceivedAndFix(s, cfg, seqNo, ts, rtt, last, hasBitflip))
    ensures ReceivedAndFix(s, cfg, seqNo, ts, rtt, last, hasBitflip).buckets.Keys == s.buckets.Keys + {BucketOf(ts, cfg)}
  {
    var id := BucketOf(ts, cfg);
    var s1 := WithBucket(s, id, cfg);
    MinOkWithBucket(s, id, cfg);
    var b := BucketReceived(s1.buckets[id], seqNo, rtt, hasBitflip).(fixed := true);
    MinOkWrite(s, cfg, id, b);
    var s2 := SetBucket(s1, id, b);
    if id - 1 in s2.buckets {
      MinOkSetBucket(s2, id - 1, BucketRepair(s2.buckets[id - 1], last.count, last.src, last.dst));
    }
  }

  lemma MinOkReceived(s: Store, cfg: Config, seqNo: u64, ts: i64, rtt: i64, hasBitflip: bool)
    requires MinOk(s) && BucketOf(ts, cfg) >= 0
    ensures var s' := Received(s, cfg, seqNo, ts, rtt, hasBitflip);
            MinOk(s') && s.buckets.Keys <= s'.buckets.Keys <= s.buckets.Keys + {BucketOf(ts, cfg)}
    ensures var s' := ReceivedRST(s, cfg, seqNo, ts, rtt);
            MinOk(s') && s.buckets.Keys <= s'.buckets.Keys <= s.buckets.Keys + {BucketOf(ts, cfg)}
  {
    var id := CreditedBucket(s, BucketOf(ts, cfg), seqNo);
    MinOkWithBucket(s, id, cfg);
    var b := WithBucket(s, id, cfg).buckets[id];
    MinOkWrite(s, cfg, id, BucketReceived(b, seqNo, rtt, hasBitflip));
    MinOkWrite(s, cfg, id, BucketReceivedRST(b, seqNo, rtt));
  }

  /** The minimum is right after any operation whose bucket identifier is not negative;
      the only bucket that can appear is that one, and none disappears. */
  lemma MinOkApply(s: Store, cfg: Config, op: Operation)
    requires MinOk(s) && BucketOf(op.ts, cfg) >= 0
    ensures MinOk(Apply(s, cfg, op))
    ensures s.buckets.Keys <= Apply(s, cfg, op).buckets.Keys <= s.buckets.Keys + {BucketOf(op.ts, cfg)}
  {
    match op
    case OpPut(c, d, q, ts) =>
      var id := BucketOf(ts, cfg);
      MinOkWithBucket(s, id, cfg);
      MinOkWrite(s, cfg, id, BucketPut(WithBucket(s, id, cfg).buckets[id], c, d, q, ts));
    case OpDelete(q, ts) =>
      var id := BucketOf(ts, cfg);
      if id in s.buckets { MinOkSetBucket(s, id, BucketDelete(s.buckets[id], q)); }
    case OpReceived(q, ts, rtt, flip) => MinOkReceived(s, cfg, q, ts, rtt, flip);
    case OpReceivedRST(q, ts, rtt) => MinOkReceived(s, cfg, q, ts, rtt, false);
    case OpReceivedAndFix(q, ts, rtt, last, flip) => MinOkReceivedAndFix(s, cfg, q, ts, rtt, last, flip);
  }

  /** With a right cache the oldest bucket is found exactly when there is one. */
  lemma OldestIsLeast(s: Store)
    requires MinOk(s)
    ensures Oldest(s).None? <==> s.buckets == map[]
    ensures Oldest(s).Some? ==> Oldest(s).value.id in s.buckets && s.buckets[Oldest(s).value.id] == Oldest(s).value
    ensures Oldest(s).Some? ==> forall k :: k in s.buckets ==> Oldest(s).value.id <= k
  {
  }

  /** Finding or creating a bucket keeps the minimum exactly unless a bucket is added behind a negative one. */
  lemma MinStaysWithBucketIff(s: Store, id: int, cfg: Config)
    requires IsLeast(s.minID, s.buckets.Keys)
    ensures var s' := WithBucket(s, id, cfg);
      IsLeast(s'.minID, s'.buckets.Keys) <==> id in s.buckets || s.buckets == map[] || s.minID >= 0 || id < s.minID
  {
    var s' := WithBucket(s, id, cfg);
    if id !in s.buckets {
      assert s'.buckets.Keys == s.buckets.Keys + {id};
      if s.buckets != map[] { assert s.minID in s'.buckets.Keys; }
    }
  }

  /** The bucket an operation writes. */
  function Touched(s: Store, cfg: Config, op: Operation): int {
    match op
    case OpReceived(q, ts, _, _) => CreditedBucket(s, BucketOf(ts, cfg), q)
    case OpReceivedRST(q, ts, _) => CreditedBucket(s, BucketOf(ts, cfg), q)
    case _ => BucketOf(op.ts, cfg)
  }

  lemma TouchedIsAdded(s: Store, cfg: Config, op: Operation)
    ensures var s', id := Apply(s, cfg, op), Touched(s, cfg, op);
      if op.OpDelete? then s'.minID == s.minID && s'.buckets.Keys == s.buckets.Keys
      else s'.minID == WithBucket(s, id, cfg).minID && s'.buckets.Keys == WithBucket(s, id, cfg).buckets.Keys
  {
    var id := Touched(s, cfg, op);
    var w := WithBucket(s, id, cfg);
    assert w.buckets.Keys == s.buckets.Keys + {id};
    match op
    case OpDelete(q, ts) => if id in s.buckets { assert SetBucket(s, id, BucketDelete(s.buckets[id], q)).buckets.Keys == s.buckets.Keys; }
    case OpReceivedAndFix(q, ts, rtt, last, flip) =>
      var s2 := SetBucket(w, id, BucketReceived(w.buckets[id], q, rtt, flip).(fixed := true));
      assert s2.buckets.Keys == w.buckets.Keys;
      if id - 1 in s2.buckets {
        assert SetBucket(s2, id - 1, BucketRepair(s2.buckets[id - 1], last.count, last.src, last.dst)).buckets.Keys == w.buckets.Keys;
      }
    case _ => assert Apply(s, cfg, op).buckets.Keys == w.buckets.Keys;
  }

  /** An operation keeps the cached minimum right exactly when it creates no bucket, or creates it in an
      empty store, in one without negative identifiers, or in front of all others. */
  lemma MinStaysIff(s: Store, cfg: Config, op: Operation)
    requires IsLeast(s.minID, s.buckets.Keys)
    ensures var s', id := Apply(s, cfg, op), Touched(s, cfg, op);
      IsLeast(s'.minID, s'.buckets.Keys)
      <==> op.OpDelete? || id in s.buckets || s.buckets == map[] || s.minID >= 0 || id < s.minID
  {
    TouchedIsAdded(s, cfg, op);
    MinStaysWithBucketIff(s, Touched(s, cfg, op), cfg);
  }

  /** A timestamp one span before the epoch makes the next put forget the older bucket. */
  lemma NegativeTimestampBreaksMin()
    ensures var cfg := Config(10, 0, false);
            var s := Put(Put(EMPTY_STORE, cfg, 1, 2, 3, -10), cfg, 1, 2, 4, 10);
            -1 in s.buckets && s.minID == 1
  {
    var cfg := Config(10, 0, false);
    assert BucketOf(-10, cfg) == -1 && BucketOf(10, cfg) == 1;
  }

  // ----- the search after a removal -----

  /** The minimum the search loop finds when it meets the identifiers in this order. */
  function Search(order: seq<BucketID>): (least: int) {
    if order == [] then -1 else
      var least, id := Search(order[..|order| - 1]), order[|order| - 1];
      if least < 0 || id < least then id else least
  }

  /** Each identifier once, in some order. */
  predicate Orders(order: seq<BucketID>, ids: set<BucketID>) {
    (forall i :: 0 <= i < |order| ==> order[i] in ids) && (forall id :: id in ids ==> id in order)
    && forall i, j :: 0 <= i < j < |order| ==> order[i] != order[j]
  }

  lemma OrdersPrefix(order: seq<BucketID>, ids: set<BucketID>)
    requires order != [] && Orders(order, ids)
    ensures Orders(order[..|order| - 1], ids - {order[|order| - 1]})
  {
    var init, last := order[..|order| - 1], order[|order| - 1];
    forall id | id in ids - {last} ensures id in init {
      var i :| 0 <= i < |order| && order[i] == id;
      assert init[i] == id;
    }
  }

  lemma EmptyOrder(ids: set<BucketID>)
    requires Orders([], ids)
    ensures ids == {}
  {
    if ids != {} { var id := Pick(ids); }
  }

  lemma {:induction false} SearchRight(order: seq<BucketID>, ids: set<BucketID>)
    requires Orders(order, ids) && (|ids| <= 1 || forall id :: id in ids ==> id >= 0)
    ensures IsLeast(Search(order), ids)
  {
    if order == [] {
      EmptyOrder(ids);
    } else {
      var last := order[|order| - 1];
      OrdersPrefix(order, ids);
      assert |ids - {last}| == |ids| - 1;
      SearchRight(order[..|order| - 1], ids - {last});
    }
  }

  lemma {:induction false} AnyOrder(ids: set<BucketID>) returns (order: seq<BucketID>)
    ensures Orders(order, ids)
  {
    if ids == {} { order := []; } else {
      var id := Pick(ids);
      order := AnyOrder(ids - {id});
      order := order + [id];
    }
  }

  /** Behind a negative identifier the search takes any identifier that comes last. */
  lemma SearchForgets(ids: set<BucketID>, least: int, other: int) returns (order: seq<BucketID>)
    requires IsLeast(least, ids) && least < 0 && other in ids && other != least
    ensures Orders(order, ids) && !IsLeast(Search(order), ids)
  {
    var front := AnyOrder(ids - {least, other});
    order := front + [least] + [other];
    TwoBehind(front, ids, least, other);
    assert order[..|order| - 1] == front + [least];
    assert (front + [least])[..|front|] == front;
    SearchInside(front, ids - {least, other});
    assert Search(front + [least]) == least;
    assert Search(order) == other;
  }

  lemma TwoBehind(front: seq<BucketID>, ids: set<BucketID>, a: int, b: int)
    requires Orders(front, ids - {a, b}) && a in ids && b in ids && a != b
    ensures Orders(front + [a] + [b], ids)
  {
    var order := front + [a] + [b];
    assert order[|front|] == a && order[|front| + 1] == b;
    forall id | id in ids ensures id in order { if id != a && id != b { assert id in front; } }
  }

  lemma {:induction false} SearchInside(order: seq<BucketID>, ids: set<BucketID>)
    requires forall i :: 0 <= i < |order| ==> order[i] in ids
    ensures Search(order) in ids || (order == [] && Search(order) == -1)
  {
    if order != [] { SearchInside(order[..|order| - 1], ids); }
  }

  /** The search is right whatever the order of the map exactly when there is at most one identifier or
      none is negative. */
  lemma SearchRightIff(ids: set<BucketID>)
    ensures (forall order :: Orders(order, ids) ==> IsLeast(Search(order), ids))
       <==> |ids| <= 1 || forall id :: id in ids ==> id >= 0
  {
    if |ids| <= 1 || forall id :: id in ids ==> id >= 0 {
      forall order | Orders(order, ids) ensures IsLeast(Search(order), ids) { SearchRight(order, ids); }
    } else {
      var least := Least(ids);
      assert ids != {};
      assert |ids - {least}| == |ids| - 1;
      var other := Pick(ids - {least});
      var order := SearchForgets(ids, least, other);
    }
  }

  // ----- order of recording -----

  lemma BucketPutReceivedCommute(
    b: BucketState, clientPort: u16, serverPort: u16, seqNo: u64, sent: i64, rtt: i64, hasBitflip: bool)
    ensures BucketReceived(BucketPut(b, clientPort, serverPort, seqNo, sent), seqNo, rtt, hasBitflip)
         == BucketPut(BucketReceived(b, seqNo, rtt, hasBitflip), clientPort, serverPort, seqNo, sent)
    ensures BucketReceivedRST(BucketPut(b, clientPort, serverPort, seqNo, sent), seqNo, rtt)
         == BucketPut(BucketReceivedRST(b, seqNo, rtt), clientPort, serverPort, seqNo, sent)
  {
    assert BucketReceived(BucketPut(b, clientPort, serverPort, seqNo, sent), seqNo, rtt, hasBitflip).requests
        == BucketPut(BucketReceived(b, seqNo, rtt, hasBitflip), clientPort, serverPort, seqNo, sent).requests;
    assert BucketReceivedRST(BucketPut(b, clientPort, serverPort, seqNo, sent), seqNo, rtt).requests
        == BucketPut(BucketReceivedRST(b, seqNo, rtt), clientPort, serverPort, seqNo, sent).requests;
  }

  /** Writing one bucket twice keeps the second write. */
  lemma WriteTwice(s: Store, cfg: Config, id: int, b: BucketState, b': BucketState)
    ensures var s1 := SetBucket(WithBucket(s, id, cfg), id, b);
            SetBucket(WithBucket(s1, id, cfg), id, b') == SetBucket(WithBucket(s, id, cfg), id, b')
  {
  }

  /** A reply recorded before its send in the same bucket leaves what the usual order leaves,
      unless the previous bucket holds the same sequence number. */
  lemma PutReceivedCommute(
    s: Store, cfg: Config, clientPort: u16, serverPort: u16, seqNo: u64, sent: i64, ts: i64, rtt: i64, hasBitflip: bool)
    requires BucketOf(sent, cfg) == BucketOf(ts, cfg)
    requires !Holds(s, BucketOf(ts, cfg) - 1, seqNo)
    ensures Received(Put(s, cfg, clientPort, serverPort, seqNo, sent), cfg, seqNo, ts, rtt, hasBitflip)
         == Put(Received(s, cfg, seqNo, ts, rtt, hasBitflip), cfg, clientPort, serverPort, seqNo, sent)
  {
    var id := BucketOf(ts, cfg);
    var b := WithBucket(s, id, cfg).buckets[id];
    var put, got := BucketPut(b, clientPort, serverPort, seqNo, sent), BucketReceived(b, seqNo, rtt, hasBitflip);
    BucketPutReceivedCommute(b, clientPort, serverPort, seqNo, sent, rtt, hasBitflip);
    assert Put(s, cfg, clientPort, serverPort, seqNo, sent) == SetBucket(WithBucket(s, id, cfg), id, put);
    assert Received(s, cfg, seqNo, ts, rtt, hasBitflip) == SetBucket(WithBucket(s, id, cfg), id, got);
    WriteTwice(s, cfg, id, put, BucketReceived(put, seqNo, rtt, hasBitflip));
    WriteTwice(s, cfg, id, got, BucketPut(got, clientPort, serverPort, seqNo, sent));
  }

  lemma PutReceivedRSTCommute(
    s: Store, cfg: Config, clientPort: u16, serverPort: u16, seqNo: u64, sent: i64, ts: i64, rtt: i64)
    requires BucketOf(sent, cfg) == BucketOf(ts, cfg)
    requires !Holds(s, BucketOf(ts, cfg) - 1, seqNo)
    ensures ReceivedRST(Put(s, cfg, clientPort, serverPort, seqNo, sent), cfg, seqNo, ts, rtt)
         == Put(ReceivedRST(s, cfg, seqNo, ts, rtt), cfg, clientPort, serverPort, seqNo, sent)
  {
    var id := BucketOf(ts, cfg);
    var b := WithBucket(s, id, cfg).buckets[id];
    var put, got := BucketPut(b, clientPort, serverPort, seqNo, sent), BucketReceivedRST(b, seqNo, rtt);
    BucketPutReceivedCommute(b, clientPort, serverPort, seqNo, sent, rtt, false);
    assert Put(s, cfg, clientPort, serverPort, seqNo, sent) == SetBucket(WithBucket(s, id, cfg), id, put);
    assert ReceivedRST(s, cfg, seqNo, ts, rtt) == SetBucket(WithBucket(s, id, cfg), id, got);
    WriteTwice(s, cfg, id, put, BucketReceivedRST(put, seqNo, rtt));
    WriteTwice(s, cfg, id, got, BucketPut(got, clientPort, serverPort, seqNo, sent));
  }

  /** A reply handled before the send is recorded, in the same bucket or the next one: the order does not
      matter exactly when it is the same bucket. */
  lemma EarlyReplyIff(
    s: Store, cfg: Config, clientPort: u16, serverPort: u16, seqNo: u64, sent: i64, ts: i64, rtt: i64, hasBitflip: bool)
    requires BucketOf(ts, cfg) == BucketOf(sent, cfg) || BucketOf(ts, cfg) == BucketOf(sent, cfg) + 1
    requires !Holds(s, BucketOf(sent, cfg) - 1, seqNo) && !Holds(s, BucketOf(sent, cfg), seqNo)
    requires !Holds(s, BucketOf(sent, cfg) + 1, seqNo)
    ensures Received(Put(s, cfg, clientPort, serverPort, seqNo, sent), cfg, seqNo, ts, rtt, hasBitflip)
         == Put(Received(s, cfg, seqNo, ts, rtt, hasBitflip), cfg, clientPort, serverPort, seqNo, sent)
       <==> BucketOf(ts, cfg) == BucketOf(sent, cfg)
  {
    if BucketOf(ts, cfg) == BucketOf(sent, cfg) {
      PutReceivedCommute(s, cfg, clientPort, serverPort, seqNo, sent, ts, rtt, hasBitflip);
    } else {
      EarlyReplySplits(s, cfg, clientPort, serverPort, seqNo, sent, ts, rtt, hasBitflip);
      var late := Received(Put(s, cfg, clientPort, serverPort, seqNo, sent), cfg, seqNo, ts, rtt, hasBitflip);
      assert !Holds(late, BucketOf(ts, cfg), seqNo);
    }
  }

  /** Across the boundary the entry is split: the send stays unanswered in its bucket, and the next one
      holds an answer without ports. */
  lemma EarlyReplySplits(
    s: Store, cfg: Config, clientPort: u16, serverPort: u16, seqNo: u64, sent: i64, ts: i64, rtt: i64, hasBitflip: bool)
    requires BucketOf(ts, cfg) == BucketOf(sent, cfg) + 1
    requires !Holds(s, BucketOf(sent, cfg), seqNo) && !Holds(s, BucketOf(ts, cfg), seqNo)
    ensures var s', b := Put(Received(s, cfg, seqNo, ts, rtt, hasBitflip), cfg, clientPort, serverPort, seqNo, sent), BucketOf(sent, cfg);
      && Holds(s', b, seqNo) && s'.buckets[b].requests[seqNo] == Request(clientPort, serverPort, seqNo, sent, RTT_UNSET, false, false)
      && Holds(s', b + 1, seqNo) && s'.buckets[b + 1].requests[seqNo] == Request(0, 0, seqNo, 0, rtt, hasBitflip, false)
  {
  }
}
