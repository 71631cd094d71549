/** The client's send loop over its per-peer maps. */
module SendLoop {
  import opened Machine
  import opened Odometer
  import opened Buckets
  import opened StatTable
  import opened SpanClient
  import S = BucketStore

  // ----- both ports in one word -----

  function PackPorts(p: Pair): (v: u32) {
    var high: nat, low: nat := p.src, p.dst;
    high * 0x1_0000 + low
  }

  function UnpackPorts(v: u32): Pair { Pair(v / 0x1_0000, v % 0x1_0000) }

  lemma PackRoundTrip(p: Pair, v: u32)
    ensures UnpackPorts(PackPorts(p)) == p && PackPorts(UnpackPorts(v)) == v
  {
  }

  // ----- one pass -----

  /** How a pass for one peer ends once the probe is counted. */
  datatype Fate = EncodeFails | LimitReached | WriteFails | Written

  /** The operations on the peer's statistics. */
  function Recorded(s: S.Store, cfg: S.Config, x: Probe, ts: i64, fate: Fate): (s': S.Store) {
    match fate
    case Written => S.Put(s, cfg, x.pair.src, x.pair.dst, x.seqNo, ts)
    case WriteFails => S.Delete(S.Put(s, cfg, x.pair.src, x.pair.dst, x.seqNo, ts), cfg, x.seqNo, ts)
    case _ => s
  }

  /** A failed write leaves no trace of the probe: at most its empty bucket was created. */
  lemma FailedWriteLeavesNoTrace(s: S.Store, cfg: S.Config, x: Probe, ts: i64)
    requires !S.Holds(s, S.BucketOf(ts, cfg), x.seqNo)
    ensures Recorded(s, cfg, x, ts, WriteFails) == S.WithBucket(s, S.BucketOf(ts, cfg), cfg)
  {
    var id := S.BucketOf(ts, cfg);
    var s1 := S.WithBucket(s, id, cfg);
    var b := s1.buckets[id];
    assert S.BucketDelete(S.BucketPut(b, x.pair.src, x.pair.dst, x.seqNo, ts), x.seqNo).requests == b.requests;
    assert S.BucketDelete(S.BucketPut(b, x.pair.src, x.pair.dst, x.seqNo, ts), x.seqNo) == b;
    assert s1.buckets[id := S.BucketPut(b, x.pair.src, x.pair.dst, x.seqNo, ts)][id := b] == s1.buckets;
  }

  /** A probe that was written and is new in its bucket is there unanswered, under its number, with the
      pair it went out on and its send time; nothing else in the store is changed. */
  lemma WrittenProbeIsRecorded(s: S.Store, cfg: S.Config, x: Probe, ts: nat)
    requires ts < 0x8000_0000_0000_0000 && !(ts / cfg.span in s.buckets && x.seqNo in s.buckets[ts / cfg.span].requests)
    ensures var s', id := Recorded(s, cfg, x, ts, Written), ts / cfg.span;
      && S.OnlyBucket(s, s', id) && S.OnlyEntry(S.Before(s, id, cfg), s'.buckets[id], x.seqNo)
      && s'.buckets[id].requests[x.seqNo] == S.Request(x.pair.src, x.pair.dst, x.seqNo, ts, -1, false, false)
  {
    S.PutEffect(s, cfg, x.pair.src, x.pair.dst, x.seqNo, ts);
  }

  /** A probe that could not be encoded, or was held back by the limit, leaves the store as it was. */
  lemma UnsentProbeIsNotRecorded(s: S.Store, cfg: S.Config, x: Probe, ts: i64, fate: Fate)
    requires fate == EncodeFails || fate == LimitReached
    ensures Recorded(s, cfg, x, ts, fate) == s
  {
  }

  function At<V>(m: map<string, V>, key: string, zero: V): V { if key in m then m[key] else zero }

  /** The calls made on the peer's statistics. */
  method Record(st: Buckets, x: Probe, ts: i64, fate: Fate)
    requires st.Valid()
    modifies st, st.buckets.Values
    ensures st.Kept() && st.State() == Recorded(old(st.State()), st.cfg, x, ts, fate)
  {
    if fate.Written? || fate.WriteFails? {
      st.Put(x.pair.src, x.pair.dst, x.seqNo, ts);
      if fate.WriteFails? {
        st.Delete(x.seqNo, ts);
      }
    }
  }

  function RecordedFor(v: View, p: string, cfg: S.Config, x: Probe, ts: i64, fate: Fate): (v': View)
    requires p in v
    ensures v'.Keys == v.Keys
  {
    v[p := Recorded(v[p], cfg, x, ts, fate)]
  }

  /** The same on the peer's store within the table. */
  method RecordIn(table: Table, p: string, x: Probe, ts: i64, fate: Fate)
    requires table.Valid() && p in table.stats
    modifies table.stats[p], table.stats[p].buckets.Values
    ensures table.Valid() && table.stats == old(table.stats)
    ensures forall q :: q in table.stats && q != p ==> table.stats[q].buckets == old(table.stats[q].buckets)
    ensures p in old(table.State()) && table.State() == RecordedFor(old(table.State()), p, table.cfg, x, ts, fate)
  {
    var st := table.stats[p];
    Record(st, x, ts, fate);
    table.OnePeerWritten(p, st.State());
  }

  /** When a pass for a peer happens, and how it ends. */
  datatype PassInput = PassInput(ts: nat, fate: Fate)

  /** The peers in `done` were counted once; the others are as before. */
  predicate CountedDone(c: map<string, Client>, c': map<string, Client>, done: set<string>, passes: map<string, PassInput>, cfg: Settings) {
    && c'.Keys == c.Keys && done <= c.Keys && c.Keys <= passes.Keys
    && forall p :: p in c ==> c'[p] == if p in done then AfterSend(c[p], passes[p].ts, cfg) else c[p]
  }

  /** The probe of a pass, as the loop's state after it shows it. */
  function ProbeOf(c': map<string, Client>, p: string, input: PassInput): Probe
    requires p in c'
  {
    ProbeSent(c'[p], input.ts, input.fate.Written?)
  }

  /** The probes of the peers in `done` were recorded by their fates; the other stores are as before. */
  predicate RecordedDone(c': map<string, Client>, v: View, v': View, done: set<string>, passes: map<string, PassInput>, store: S.Config) {
    && v'.Keys == v.Keys && done <= c'.Keys && c'.Keys <= v.Keys && c'.Keys <= passes.Keys
    && (forall p :: p in done ==> passes[p].ts < 0x8000_0000_0000_0000)
    && (forall p :: p in v && p !in done ==> v'[p] == v[p])
    && (forall p :: p in done ==> v'[p] == Recorded(v[p], store, ProbeOf(c', p, passes[p]), passes[p].ts, passes[p].fate))
  }

  lemma CountedStep(c: map<string, Client>, c1: map<string, Client>, done: set<string>, passes: map<string, PassInput>, cfg: Settings, p: string)
    requires CountedDone(c, c1, done, passes, cfg) && p in c && p !in done
    ensures p in c1 && CountedDone(c, c1[p := AfterSend(c1[p], passes[p].ts, cfg)], done + {p}, passes, cfg)
  {
  }

  lemma RecordedStep(
    c1: map<string, Client>, c2: map<string, Client>, v: View, w: View, done: set<string>,
    passes: map<string, PassInput>, store: S.Config, p: string)
    requires RecordedDone(c1, v, w, done, passes, store) && p in c1 && p !in done && passes[p].ts < 0x8000_0000_0000_0000
    requires c2.Keys == c1.Keys && forall q :: q in done ==> c2[q] == c1[q]
    ensures p in w
    ensures RecordedDone(c2, v, RecordedFor(w, p, store, ProbeOf(c2, p, passes[p]), passes[p].ts, passes[p].fate), done + {p}, passes, store)
  {
  }

  /** Every peer is either still to be visited or done. */
  ghost predicate Parts(peers: set<string>, left: set<string>, done: set<string>) {
    left !! done && forall p :: p in peers <==> p in left || p in done
  }

  lemma PartsMove(peers: set<string>, left: set<string>, done: set<string>, p: string)
    requires Parts(peers, left, done) && p in left
    ensures Parts(peers, left - {p}, done + {p}) && done + {p} <= peers && left - {p} <= peers && |left - {p}| < |left|
  {
  }

  class Sender {
    const cfg: Settings
    const peers: set<string>
    var seqs: map<string, u64>
    var ports: map<string, u32>
    var bucketIDs: map<string, int>
    var lastSent: map<string, u32>
    var curSent: map<string, u32>
    var lastStart: map<string, Pair>
    var curStart: map<string, Pair>

    constructor (cfg: Settings, firstSeqs: map<string, u64>)
      ensures this.cfg == cfg && peers == firstSeqs.Keys && Valid()
      ensures forall p :: p in peers ==> State(p) == InitClient(cfg.(firstSeq := firstSeqs[p]))
    {
      this.cfg, peers, seqs := cfg, firstSeqs.Keys, firstSeqs;
      var start := StartPair(cfg);
      PackRoundTrip(start, 0);
      ports := map p | p in firstSeqs :: PackPorts(start);
      curSent := map p | p in firstSeqs :: cfg.rateInSpan % 0x1_0000_0000;
      curStart := map p | p in firstSeqs :: start;
      bucketIDs, lastSent, lastStart := map[], map[], map[];
    }

    predicate Valid()
      reads this
    {
      peers <= seqs.Keys && peers <= ports.Keys && peers <= curSent.Keys && peers <= curStart.Keys
    }

    /** One peer's share of the maps; Go reads a missing key as zero. */
    function State(p: string): Client
      requires Valid() && p in peers
      reads this
    {
      Client(seqs[p], UnpackPorts(ports[p]), At(bucketIDs, p, 0), At(lastSent, p, 0), curSent[p], At(lastStart, p, Pair(0, 0)), curStart[p])
    }

    /** Peer `p` has counted one more probe; the other peers are as before. */
    twostate predicate Counted(p: string, ts: nat)
      requires old(Valid()) && p in peers
      reads this
    {
      && Valid() && State(p) == AfterSend(old(State(p)), ts, cfg)
      && forall q :: q in peers && q != p ==> State(q) == old(State(q))
    }

    /** The next sequence number and port pair. */
    method Advance(p: string) returns (bizSeq: u64, pair: Pair)
      requires Valid() && p in peers
      modifies `seqs, `ports
      ensures bizSeq == (old(seqs[p]) as int + 1) % 0x1_0000_0000_0000_0000 && seqs == old(seqs)[p := bizSeq]
      ensures pair == GetNextPorts(UnpackPorts(old(ports[p])), cfg.ranges)
      ensures ports == old(ports)[p := PackPorts(pair)] && UnpackPorts(PackPorts(pair)) == pair
    {
      var n: int := seqs[p];
      bizSeq := (n + 1) % 0x1_0000_0000_0000_0000;
      seqs := seqs[p := bizSeq];
      pair := GetNextPorts(UnpackPorts(ports[p]), cfg.ranges);
      PackRoundTrip(pair, 0);
      ports := ports[p := PackPorts(pair)];
    }

    /** Counts the probe in its span; a new span first moves the old one's report aside. */
    method Rollover(p: string, bucketID: int, pair: Pair)
      requires Valid() && p in peers
      modifies `bucketIDs, `lastSent, `curSent, `lastStart, `curStart
      ensures bucketID != At(old(bucketIDs), p, 0) ==>
        && bucketIDs == old(bucketIDs)[p := bucketID]
        && lastSent == old(lastSent)[p := old(curSent)[p]] && curSent == old(curSent)[p := 1]
        && lastStart == old(lastStart)[p := old(curStart)[p]] && curStart == old(curStart)[p := pair]
      ensures bucketID == At(old(bucketIDs), p, 0) ==>
        && bucketIDs == old(bucketIDs) && lastSent == old(lastSent) && lastStart == old(lastStart) && curStart == old(curStart)
        && curSent == old(curSent)[p := (old(curSent[p]) as int + 1) % 0x1_0000_0000]
    {
      if bucketID != At(bucketIDs, p, 0) {
        bucketIDs := bucketIDs[p := bucketID];
        lastSent := lastSent[p := curSent[p]];
        lastStart := lastStart[p := curStart[p]];
        curSent := curSent[p := 1];
        curStart := curStart[p := pair];
      } else {
        var sent: int := curSent[p];
        curSent := curSent[p := (sent + 1) % 0x1_0000_0000];
      }
    }

    /** The loop body's bookkeeping for one peer. */
    method Count(p: string, ts: nat) returns (x: Probe)
      requires Valid() && p in peers
      modifies this
      ensures Counted(p, ts) && x == ProbeSent(State(p), ts, true)
    {
      var bizSeq, pair := Advance(p);
      Rollover(p, ts / cfg.span, pair);
      var last := At(lastStart, p, Pair(0, 0));
      x := Probe(bizSeq, ts, pair, S.LastSpan(At(lastSent, p, 0), last.src, last.dst), true);
    }

    /** Every peer's share of the maps. */
    ghost function States(): map<string, Client>
      requires Valid()
      reads this
    {
      map p | p in peers :: State(p)
    }

    /** Counts a probe; no statistics are touched. */
    method CountBeside(p: string, ts: nat, fate: Fate, table: Table) returns (x: Probe)
      requires Valid() && p in peers && table.Valid()
      modifies this
      ensures Valid() && States() == old(States())[p := AfterSend(old(States())[p], ts, cfg)]
      ensures x == ProbeSent(States()[p], ts, fate.Written?)
      ensures table.Valid() && table.State() == old(table.State()) && table.Objects() == old(table.Objects())
    {
      ghost var c := States();
      x := Count(p, ts);
      x := x.(onWire := fate.Written?);
      assert States() == c[p := AfterSend(c[p], ts, cfg)];
      table.Untouched();
    }

    /** One pass for one peer: count, then record the probe unless it was not sent. */
    method Pass(p: string, ts: nat, fate: Fate, table: Table) returns (x: Probe)
      requires Valid() && p in peers && ts < 0x8000_0000_0000_0000
      requires table.Valid() && p in table.stats
      modifies this, table.stats[p], table.stats[p].buckets.Values
      ensures Valid() && States() == old(States())[p := AfterSend(old(States())[p], ts, cfg)]
      ensures x == ProbeSent(States()[p], ts, fate.Written?)
      ensures table.Valid() && table.stats == old(table.stats)
      ensures forall q :: q in table.stats && q != p ==> table.stats[q].buckets == old(table.stats[q].buckets)
      ensures p in old(table.State()) && table.State() == RecordedFor(old(table.State()), p, table.cfg, x, ts, fate)
    {
      x := CountBeside(p, ts, fate, table);
      ghost var c := States();
      RecordIn(table, p, x, ts, fate);
      assert States() == c;
    }

    /** The next peer of a round. */
    method Visit(
        p: string, passes: map<string, PassInput>, table: Table,
        ghost c: map<string, Client>, ghost v: View, ghost w: View, ghost done: set<string>)
      returns (ghost w': View)
      requires Valid() && p in peers && p !in done && p in passes && passes[p].ts < 0x8000_0000_0000_0000
      requires table.Valid() && p in table.stats && table.State() == w
      requires CountedDone(c, States(), done, passes, cfg) && RecordedDone(States(), v, w, done, passes, table.cfg)
      modifies this, table.stats[p], table.stats[p].buckets.Values
      ensures Valid() && table.Valid() && table.stats == old(table.stats)
      ensures forall q :: q in table.stats && q != p ==> table.stats[q].buckets == old(table.stats[q].buckets)
      ensures table.State() == w'
      ensures CountedDone(c, States(), done + {p}, passes, cfg) && RecordedDone(States(), v, w', done + {p}, passes, table.cfg)
    {
      ghost var c1 := States();
      var x := Pass(p, passes[p].ts, passes[p].fate, table);
      CountedStep(c, c1, done, passes, cfg, p);
      RecordedStep(c1, States(), v, w, done, passes, table.cfg, p);
      w' := RecordedFor(w, p, table.cfg, x, passes[p].ts, passes[p].fate);
    }

    /** One round over the peers, in any order, that ends early when a limit is reached: the peers visited
        are counted once and recorded by their fates, and no other is touched. */
    method Round(passes: map<string, PassInput>, table: Table) returns (ghost done: set<string>)
      requires Valid() && peers <= passes.Keys && (forall p :: p in peers ==> passes[p].ts < 0x8000_0000_0000_0000)
      requires table.Valid() && peers <= table.stats.Keys
      modifies this, table.stats.Values, table.Objects()
      ensures Valid() && table.Valid() && done <= peers
      ensures CountedDone(old(States()), States(), done, passes, cfg)
      ensures RecordedDone(States(), old(table.State()), table.State(), done, passes, table.cfg)
      ensures done == peers || exists p :: p in done && passes[p].fate.LimitReached?
      ensures forall p, q :: p in done && q in done && passes[p].fate.LimitReached? && passes[q].fate.LimitReached? ==> p == q
    {
      ghost var c, v, w := States(), table.State(), table.State();
      var left := peers;
      done := {};
      assert v.Keys == table.stats.Keys && Parts(peers, left, done);
      while left != {}
        invariant Valid() && table.Valid() && left <= peers && done <= peers && Parts(peers, left, done)
        invariant table.stats == old(table.stats) && table.State() == w
        invariant forall q :: q in left ==> table.stats[q].buckets == old(table.stats[q].buckets)
        invariant CountedDone(c, States(), done, passes, cfg) && RecordedDone(States(), v, w, done, passes, table.cfg)
        invariant forall p :: p in done ==> !passes[p].fate.LimitReached?
        decreases |left|
      {
        var p :| p in left;
        w := Visit(p, passes, table, c, v, w, done);
        PartsMove(peers, left, done, p);
        left, done := left - {p}, done + {p};
        if passes[p].fate.LimitReached? {
          return;
        }
      }
    }
  }
}
