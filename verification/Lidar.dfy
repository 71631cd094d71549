/** The SYN scanner: numbering, port rotation, and which target a reply is credited to. */
module Lidar {
  import opened Machine
  import opened StatTable
  import S = BucketStore
  import B = Bpf
  import F = Filters

  datatype Conf = Conf(targets: seq<string>, serverPort: u16, srcPort: u16, portCount: u16, seqStart: u64, store: S.Config)

  predicate ConfOk(c: Conf) { c.targets != [] && c.portCount >= 1 }

  /** A SYN that was sent and recorded. */
  datatype Sent = Sent(target: nat, port: u16, ts: i64)

  /** The scanner's variables, the position in the current round and its time, the stores, the time of
      the latest reply, and the SYNs recorded so far. */
  datatype Scan = Scan(seqNo: u64, currentPort: u16, next: nat, now: i64, stats: View, clock: int, log: map<u64, Sent>)

  datatype Segment = Segment(sport: u16, dport: u16, syn: bool, ack: bool, rst: bool, ackNum: u32)

  datatype Event =
    | Send(ok: bool)
    | NextRound(now: i64)
    | Reply(segment: Segment, now: i64)
    | Report(target: string, id: int)


  function Start(c: Conf, now: i64): Scan {
    Scan(c.seqStart, c.srcPort, 0, now, map t | t in c.targets :: S.EMPTY_STORE, 0, map[])
  }

  /** What one send does to the table. */
  function SendStats(v: View, c: Conf, i: nat, port: u16, seqNo: u64, now: i64, ok: bool): (v': View)
    requires i < |c.targets| && c.targets[i] in v
    ensures v'.Keys == v.Keys
  {
    if ok then OnPeer(v, c.targets[i], c.store, S.OpPut(port, c.serverPort, seqNo, now)) else v
  }

  /** One target of a round: the number is used up even when building or sending fails. */
  function AfterSend(s: Scan, c: Conf, ok: bool): Scan
    requires s.next < |c.targets| && c.targets[s.next] in s.stats
  {
    var seqNo := (s.seqNo + 1) % 0x1_0000_0000_0000_0000;
    s.(seqNo := seqNo, next := s.next + 1,
       stats := SendStats(s.stats, c, s.next, s.currentPort, seqNo, s.now, ok),
       log := if ok then s.log[seqNo := Sent(s.next, s.currentPort, s.now)] else s.log)
  }

  /** The source port of the next round. */
  function Rotated(port: u16, c: Conf): (p: u16) {
    var p := (port + 1) % 0x1_0000;
    if p >= (c.srcPort + c.portCount) % 0x1_0000 then c.srcPort else p
  }

  /** The number and target a reply is taken to answer. */
  function Answered(ackNum: u32): (seqNo: u64) { (ackNum - 1) % 0x1_0000_0000 }

  function TargetOf(seqNo: u64, c: Conf): (i: nat)
    requires c.targets != []
    ensures i < |c.targets|
  {
    (seqNo - c.seqStart - 1) % 0x1_0000_0000_0000_0000 % |c.targets|
  }

  function Recording(g: Segment, now: i64): (op: Option<S.Operation>) {
    if g.syn && g.ack then Some(S.OpReceived(Answered(g.ackNum), now, now, false))
    else if g.rst then Some(S.OpReceivedRST(Answered(g.ackNum), now, 0))
    else None
  }

  function AfterReply(stats: View, c: Conf, g: Segment, now: i64): (stats': View)
    requires c.targets != []
    ensures stats'.Keys == stats.Keys
  {
    var target := c.targets[TargetOf(Answered(g.ackNum), c)];
    if !F.ReplyWanted(g.sport, g.dport, c.serverPort, c.srcPort, c.portCount) || target !in stats || Recording(g, now).None? then stats
    else OnPeer(stats, target, c.store, Recording(g, now).value)
  }

  /** Any segment may arrive; the clock of replies does not run back. */
  predicate Enabled(s: Scan, c: Conf, e: Event) {
    match e
    case Send(_) => s.next < |c.targets| && c.targets[s.next] in s.stats && s.seqNo + 1 < 0x1_0000_0000
    case NextRound(now) => s.next == |c.targets| && now >= 0
    case Reply(_, now) => now >= s.clock
    case Report(t, _) => t in s.stats
  }

  ghost function Do(s: Scan, c: Conf, e: Event): Scan
    requires c.targets != [] && Enabled(s, c, e)
  {
    match e
    case Send(ok) => AfterSend(s, c, ok)
    case NextRound(now) => s.(next := 0, now := now, currentPort := Rotated(s.currentPort, c))
    case Reply(g, now) => s.(stats := AfterReply(s.stats, c, g, now), clock := now)
    case Report(t, id) => s.(stats := s.stats[t := S.Remove(s.stats[t], id)])
  }

  // ----- attribution -----

  /** A reply names the number it answers exactly below 2^32. */
  lemma AnsweredIff(seqNo: u64)
    ensures Answered((seqNo % 0x1_0000_0000 + 1) % 0x1_0000_0000) == seqNo <==> seqNo < 0x1_0000_0000
  {
  }

  // ----- port rotation -----

  function PortOfRound(n: nat, c: Conf): (port: u16) {
    if n == 0 then c.srcPort else Rotated(PortOfRound(n - 1, c), c)
  }

  /** Rounds walk through the ports in turn exactly when the upper bound fits in 16 bits (or there is one port). */
  lemma RotationIff(c: Conf)
    requires c.portCount >= 1
    ensures (forall n: nat :: PortOfRound(n, c) == c.srcPort + n % c.portCount)
       <==> c.srcPort + c.portCount <= 0xffff || c.portCount == 1
  {
    if c.srcPort + c.portCount <= 0xffff || c.portCount == 1 {
      forall n: nat ensures PortOfRound(n, c) == c.srcPort + n % c.portCount { RotationAt(n, c); }
    } else {
      FirstRotation(c);
    }
  }

  lemma RotatedOnce(k: nat, c: Conf)
    requires k < c.portCount && (c.srcPort + c.portCount <= 0xffff || c.portCount == 1)
    ensures Rotated(c.srcPort + k, c) == c.srcPort + if k == c.portCount - 1 then 0 else k + 1
  {
  }

  lemma {:induction false} RotationAt(n: nat, c: Conf)
    requires c.portCount >= 1 && (c.srcPort + c.portCount <= 0xffff || c.portCount == 1)
    ensures PortOfRound(n, c) == c.srcPort + n % c.portCount
  {
    if n > 0 {
      var k := (n - 1) % c.portCount;
      RotationAt(n - 1, c);
      RotatedOnce(k, c);
      ModSucc(n - 1, c.portCount);
    }
  }

  lemma FirstRotation(c: Conf)
    requires c.portCount >= 2 && c.srcPort + c.portCount > 0xffff
    ensures PortOfRound(1, c) != c.srcPort + 1 % c.portCount
  {
    DivModUnique(1, c.portCount, 0, 1);
    assert PortOfRound(1, c) == Rotated(PortOfRound(0, c), c);
  }

  /** Beyond that bound the scanner never leaves its first port, but for a range that begins at 65535. */
  lemma {:induction false} StaysOnFirstPort(n: nat, c: Conf)
    requires c.srcPort + c.portCount > 0xffff && c.srcPort < 0xffff
    ensures PortOfRound(n, c) == c.srcPort
  {
    if n > 0 { StaysOnFirstPort(n - 1, c); }
  }

  // ----- the invariant -----

  /** Recorded numbers lie in the run so far and are told apart by their position. */
  predicate LogOk(s: Scan, c: Conf)
    requires c.targets != []
  {
    forall q :: q in s.log ==> c.seqStart < q <= s.seqNo && s.log[q].target == (q - c.seqStart - 1) % |c.targets| && s.log[q].ts >= 0
  }

  /** Numbers run in step with the position in the round. */
  predicate InStep(s: Scan, c: Conf)
    requires c.targets != []
  {
    && c.seqStart <= s.seqNo < 0x1_0000_0000 && s.next <= |c.targets| && s.now >= 0 && s.clock >= 0
    && (s.seqNo - c.seqStart) % |c.targets| == s.next % |c.targets|
  }

  /** Source ports stay in the configured range, when its upper bound fits in 16 bits. */
  predicate PortsOk(s: Scan, c: Conf) {
    c.srcPort + c.portCount <= 0xffff ==>
      && c.srcPort <= s.currentPort < c.srcPort + c.portCount
      && forall q :: q in s.log ==> c.srcPort <= s.log[q].port < c.srcPort + c.portCount
  }

  function Home(s: Scan, c: Conf, q: u64): int
    requires q in s.log
  {
    S.BucketOf(s.log[q].ts, c.store)
  }

  /** A segment for number `q` answers the SYN after it was recorded. */
  predicate Timely(s: Scan, e: Event, q: u64) {
    e.Reply? && Answered(e.segment.ackNum) == q ==> q in s.log && s.log[q].ts <= e.now
  }

  /** No store holds the number before it is recorded, never before their own bucket, and never beyond it
      before a reply came that late. */
  predicate HeldOk(s: Scan, c: Conf, t: string, id: int, q: u64)
    requires t in s.stats
  {
    S.Holds(s.stats[t], id, q) ==> q in s.log && Home(s, c, q) <= id && (id == Home(s, c, q) || id <= S.BucketOf(s.clock, c.store))
  }

  /** While its own bucket holds a number, the next bucket does not. */
  predicate OneHome(s: Scan, c: Conf, t: string, q: u64)
    requires t in s.stats && q in s.log
  {
    S.Holds(s.stats[t], Home(s, c, q), q) ==> !S.Holds(s.stats[t], Home(s, c, q) + 1, q)
  }

  ghost predicate Inv(s: Scan, c: Conf) {
    && ConfOk(c) && LogOk(s, c) && InStep(s, c) && PortsOk(s, c)
    && (forall i :: 0 <= i < |c.targets| ==> c.targets[i] in s.stats)
  }

  lemma StartInv(c: Conf, now: i64)
    requires ConfOk(c) && now >= 0 && c.seqStart < 0x1_0000_0000
    ensures Inv(Start(c, now), c) && forall q :: StoresOk(Start(c, now), c, q)
  {
    assert 0 % |c.targets| == 0;
  }

  lemma NextPosition(d: int, next: int, n: int)
    requires n > 0 && d >= 0 && 0 <= next < n && d % n == next % n
    ensures d % n == next && (d + 1) % n == (next + 1) % n
  {
    DivModUnique(next, n, 0, next);
    ModSucc(d, n);
    ModSucc(next, n);
  }

  /** What the stores hold of one number. */
  ghost predicate StoresOk(s: Scan, c: Conf, q: u64) {
    && (forall t, id :: t in s.stats ==> HeldOk(s, c, t, id, q))
    && (forall t :: t in s.stats && q in s.log ==> OneHome(s, c, t, q))
  }

  lemma SameStoresOk(s: Scan, s': Scan, c: Conf, q: u64)
    requires StoresOk(s, c, q) && s'.stats == s.stats && s'.log == s.log && s'.clock == s.clock
    ensures StoresOk(s', c, q)
  {
    forall t, id | t in s'.stats ensures HeldOk(s', c, t, id, q) { assert HeldOk(s, c, t, id, q); }
    forall t | t in s'.stats && q in s'.log ensures OneHome(s', c, t, q) { assert OneHome(s, c, t, q); }
  }

  /** The log entry of the next number has the target of this position in the round. */
  lemma SendKeepsLog(s: Scan, c: Conf, ok: bool)
    requires Inv(s, c) && Enabled(s, c, Send(ok))
    ensures var s' := AfterSend(s, c, ok); s'.seqNo == s.seqNo + 1 && s'.seqNo !in s.log && LogOk(s', c) && InStep(s', c)
  {
    NextPosition(s.seqNo - c.seqStart, s.next, |c.targets|);
    var s' := AfterSend(s, c, ok);
    assert s'.seqNo == s.seqNo + 1 && s'.next == s.next + 1;
    assert s'.seqNo - c.seqStart == s.seqNo - c.seqStart + 1;
    assert InStep(s', c);
    forall q | q in s'.log ensures c.seqStart < q <= s'.seqNo && s'.log[q].target == (q - c.seqStart - 1) % |c.targets| && s'.log[q].ts >= 0 {
      if q == s'.seqNo { assert q - c.seqStart - 1 == s.seqNo - c.seqStart; }
    }
  }

  lemma SendKeepsStores(s: Scan, c: Conf, q: u64)
    requires Inv(s, c) && StoresOk(s, c, q) && Enabled(s, c, Send(true))
    ensures StoresOk(AfterSend(s, c, true), c, q)
  {
    SendKeepsLog(s, c, true);
    var s' := AfterSend(s, c, true);
    var t0, q0 := c.targets[s.next], s.seqNo + 1;
    forall t, id | t in s'.stats ensures HeldOk(s', c, t, id, q) {
      assert HeldOk(s, c, t, id, q);
      PutHolds(s.stats[t0], c.store, s.currentPort, c.serverPort, q0, s.now, id, q);
    }
    forall t | t in s'.stats && q in s'.log ensures OneHome(s', c, t, q) {
      var h := Home(s', c, q);
      PutHolds(s.stats[t0], c.store, s.currentPort, c.serverPort, q0, s.now, h, q);
      PutHolds(s.stats[t0], c.store, s.currentPort, c.serverPort, q0, s.now, h + 1, q);
      assert HeldOk(s, c, t, h + 1, q);
      if q in s.log { assert OneHome(s, c, t, q); }
    }
  }

  /** Put adds exactly its own number to exactly its own bucket. */
  lemma PutHolds(st: S.Store, cfg: S.Config, sp: u16, dp: u16, q0: u64, ts: i64, id: int, q: u64)
    ensures S.Holds(S.Put(st, cfg, sp, dp, q0, ts), id, q) <==> S.Holds(st, id, q) || (id == S.BucketOf(ts, cfg) && q == q0)
  {
  }

  /** A reply adds at most its own number, to the bucket it is credited to. */
  lemma ReplyHolds(st: S.Store, cfg: S.Config, op: S.Operation, id: int, q: u64)
    requires op.OpReceived? || op.OpReceivedRST?
    ensures S.Holds(S.Apply(st, cfg, op), id, q)
       <==> S.Holds(st, id, q) || (id == S.CreditedBucket(st, S.BucketOf(op.ts, cfg), op.seqNo) && q == op.seqNo)
  {
  }

  lemma BucketMonotone(a: int, b: int, cfg: S.Config)
    requires 0 <= a <= b
    ensures 0 <= S.BucketOf(a, cfg) <= S.BucketOf(b, cfg)
  {
    DivMonotone(0, a, cfg.span);
    DivMonotone(a, b, cfg.span);
    assert 0 / cfg.span == 0;
  }

  lemma ReplyKeepsHeld(s: Scan, c: Conf, g: Segment, now: i64, t: string, id: int, q: u64)
    requires Inv(s, c) && StoresOk(s, c, q) && Enabled(s, c, Reply(g, now)) && Timely(s, Reply(g, now), q) && t in s.stats
    ensures HeldOk(Do(s, c, Reply(g, now)), c, t, id, q)
  {
    var s' := Do(s, c, Reply(g, now));
    BucketMonotone(s.clock, now, c.store);
    if Answered(g.ackNum) == q { BucketMonotone(s.log[q].ts, now, c.store); }
    assert HeldOk(s, c, t, id, q);
    if s'.stats[t] != s.stats[t] { ReplyHolds(s.stats[t], c.store, Recording(g, now).value, id, q); }
  }

  /** A reply no earlier than its number's own bucket, nor than an entry beyond it, keeps one home. */
  lemma ReplyKeepsOneHome(st: S.Store, cfg: S.Config, op: S.Operation, h: int, q: u64)
    requires op.OpReceived? || op.OpReceivedRST?
    requires S.Holds(st, h, q) ==> !S.Holds(st, h + 1, q)
    requires op.seqNo == q ==> S.BucketOf(op.ts, cfg) >= h && !S.Holds(st, h - 1, q)
    requires op.seqNo == q && S.Holds(st, h + 1, q) ==> S.BucketOf(op.ts, cfg) >= h + 1
    ensures S.Holds(S.Apply(st, cfg, op), h, q) ==> !S.Holds(S.Apply(st, cfg, op), h + 1, q)
  {
    ReplyHolds(st, cfg, op, h, q);
    ReplyHolds(st, cfg, op, h + 1, q);
  }

  lemma ReplyKeepsHome(s: Scan, c: Conf, g: Segment, now: i64, t: string, q: u64)
    requires Inv(s, c) && StoresOk(s, c, q) && Enabled(s, c, Reply(g, now)) && Timely(s, Reply(g, now), q)
    requires t in s.stats && q in s.log
    ensures OneHome(Do(s, c, Reply(g, now)), c, t, q)
  {
    var s', h := Do(s, c, Reply(g, now)), Home(s, c, q);
    BucketMonotone(s.clock, now, c.store);
    if Answered(g.ackNum) == q { BucketMonotone(s.log[q].ts, now, c.store); }
    assert OneHome(s, c, t, q) && HeldOk(s, c, t, h + 1, q) && HeldOk(s, c, t, h - 1, q);
    if s'.stats[t] != s.stats[t] { ReplyKeepsOneHome(s.stats[t], c.store, Recording(g, now).value, h, q); }
  }

  lemma ReplyKeepsStores(s: Scan, c: Conf, g: Segment, now: i64, q: u64)
    requires Inv(s, c) && StoresOk(s, c, q) && Enabled(s, c, Reply(g, now)) && Timely(s, Reply(g, now), q)
    ensures StoresOk(Do(s, c, Reply(g, now)), c, q)
  {
    var s' := Do(s, c, Reply(g, now));
    forall t, id | t in s'.stats ensures HeldOk(s', c, t, id, q) { ReplyKeepsHeld(s, c, g, now, t, id, q); }
    forall t | t in s'.stats && q in s'.log ensures OneHome(s', c, t, q) { ReplyKeepsHome(s, c, g, now, t, q); }
  }

  lemma ReportKeepsStores(s: Scan, c: Conf, t: string, id: int, q: u64)
    requires StoresOk(s, c, q) && t in s.stats
    ensures StoresOk(s.(stats := s.stats[t := S.Remove(s.stats[t], id)]), c, q)
  {
    var s' := s.(stats := s.stats[t := S.Remove(s.stats[t], id)]);
    forall u, k | u in s'.stats ensures HeldOk(s', c, u, k, q) { assert HeldOk(s, c, u, k, q); }
    forall u | u in s'.stats && q in s'.log ensures OneHome(s', c, u, q) { assert OneHome(s, c, u, q); }
  }

  lemma RoundStart(n: int)
    requires n > 0
    ensures n % n == 0 % n
  {
    DivModUnique(n, n, 1, 0);
    DivModUnique(0, n, 0, 0);
  }

  /** Numbers, ports and the log stay right whatever arrives. */
  lemma StepKeepsInv(s: Scan, c: Conf, e: Event)
    requires Inv(s, c) && Enabled(s, c, e)
    ensures Inv(Do(s, c, e), c)
  {
    match e
    case Send(ok) => SendKeepsLog(s, c, ok);
    case NextRound(now) => RoundStart(|c.targets|);
    case _ =>
  }

  /** What the stores hold of a number stays right as long as its own answers come after it was recorded. */
  lemma StepKeepsStores(s: Scan, c: Conf, e: Event, q: u64)
    requires Inv(s, c) && StoresOk(s, c, q) && Enabled(s, c, e) && Timely(s, e, q)
    ensures StoresOk(Do(s, c, e), c, q)
  {
    match e
    case Send(ok) => if ok { SendKeepsStores(s, c, q); } else { SameStoresOk(s, AfterSend(s, c, ok), c, q); }
    case NextRound(now) => SameStoresOk(s, Do(s, c, e), c, q);
    case Reply(g, now) => ReplyKeepsStores(s, c, g, now, q);
    case Report(t, id) => ReportKeepsStores(s, c, t, id, q);
  }

  ghost predicate Runs(c: Conf, s: Scan, es: seq<Event>, s': Scan)
    requires c.targets != []
    decreases |es|
  {
    if es == [] then s == s' else Enabled(s, c, es[0]) && Runs(c, Do(s, c, es[0]), es[1..], s')
  }

  lemma {:induction false} RunKeepsInv(c: Conf, s: Scan, es: seq<Event>, s': Scan)
    requires Inv(s, c) && Runs(c, s, es, s')
    ensures Inv(s', c)
    decreases |es|
  {
    if es != [] {
      StepKeepsInv(s, c, es[0]);
      RunKeepsInv(c, Do(s, c, es[0]), es[1..], s');
    }
  }

  /** Throughout the run, answers to number `q` come after it was recorded; any other segment may arrive. */
  ghost predicate TimelyFor(c: Conf, s: Scan, es: seq<Event>, q: u64)
    requires c.targets != []
    decreases |es|
  {
    es != [] ==> Timely(s, es[0], q) && (Enabled(s, c, es[0]) ==> TimelyFor(c, Do(s, c, es[0]), es[1..], q))
  }

  lemma {:induction false} RunKeepsStores(c: Conf, s: Scan, es: seq<Event>, s': Scan, q: u64)
    requires Inv(s, c) && StoresOk(s, c, q) && Runs(c, s, es, s') && TimelyFor(c, s, es, q)
    ensures StoresOk(s', c, q)
    decreases |es|
  {
    if es != [] {
      StepKeepsInv(s, c, es[0]);
      StepKeepsStores(s, c, es[0], q);
      RunKeepsStores(c, Do(s, c, es[0]), es[1..], s', q);
    }
  }

  // ----- crediting -----

  /** The answer to a recorded SYN. */
  predicate Answers(g: Segment, c: Conf, q: u64, x: Sent) {
    g.sport == c.serverPort && g.dport == x.port && g.ackNum == (q % 0x1_0000_0000 + 1) % 0x1_0000_0000 && ((g.syn && g.ack) || g.rst)
  }

  /** The one entry of the SYN's own bucket after the answer; nothing else in the table changes. */
  function Credited(stats: View, c: Conf, q: u64, x: Sent, g: Segment, now: i64): View
    requires x.target < |c.targets| && c.targets[x.target] in stats
    requires S.Holds(stats[c.targets[x.target]], S.BucketOf(x.ts, c.store), q)
  {
    var t, id := c.targets[x.target], S.BucketOf(x.ts, c.store);
    var b := stats[t].buckets[id];
    var r := b.requests[q];
    var r' := if g.syn && g.ack then r.(rtt := now, hasBitflip := false) else r.(rtt := 0, isRst := true);
    stats[t := stats[t].(buckets := stats[t].buckets[id := b.(requests := b.requests[q := r'])])]
  }

  /** Within one span the bucket is the same or the next. */
  lemma WithinOneSpan(ts: int, now: int, cfg: S.Config)
    requires 0 <= ts <= now <= ts + cfg.span
    ensures S.BucketOf(now, cfg) == S.BucketOf(ts, cfg) || S.BucketOf(now, cfg) == S.BucketOf(ts, cfg) + 1
  {
    DivMonotone(ts, now, cfg.span);
    DivMonotone(now, ts + cfg.span, cfg.span);
    var q := ts / cfg.span;
    assert ts + cfg.span == (q + 1) * cfg.span + ts % cfg.span by { assert (q + 1) * cfg.span == q * cfg.span + cfg.span; }
    DivModUnique(ts + cfg.span, cfg.span, q + 1, ts % cfg.span);
  }

  lemma TargetIsRight(s: Scan, c: Conf, q: u64)
    requires Inv(s, c) && q in s.log
    ensures TargetOf(q, c) == s.log[q].target && q < 0x1_0000_0000
  {
    var d := q - c.seqStart - 1;
    DivModUnique(d, 0x1_0000_0000_0000_0000, 0, d);
  }

  lemma CreditedToOwnBucket(s: Scan, c: Conf, q: u64, now: i64)
    requires Inv(s, c) && StoresOk(s, c, q) && q in s.log && s.log[q].ts <= now <= s.log[q].ts + c.store.span
    requires S.Holds(s.stats[c.targets[s.log[q].target]], Home(s, c, q), q)
    ensures S.CreditedBucket(s.stats[c.targets[s.log[q].target]], S.BucketOf(now, c.store), q) == Home(s, c, q)
  {
    WithinOneSpan(s.log[q].ts, now, c.store);
    assert OneHome(s, c, c.targets[s.log[q].target], q);
  }

  /** In every reachable state, an answer within one span to a SYN whose entry is still kept updates
      exactly that entry: the right target, the right bucket, and no new entry anywhere. Stray segments
      and answers to other numbers may have come at any time. */
  lemma ReplyCreditsItsProbe(c: Conf, start: i64, es: seq<Event>, s: Scan, q: u64, g: Segment, now: i64)
    requires ConfOk(c) && start >= 0 && c.seqStart < 0x1_0000_0000 && Runs(c, Start(c, start), es, s)
    requires TimelyFor(c, Start(c, start), es, q)
    requires q in s.log && Answers(g, c, q, s.log[q]) && s.log[q].ts <= now <= s.log[q].ts + c.store.span
    requires c.srcPort + c.portCount <= 0xffff
    requires s.log[q].target < |c.targets| && c.targets[s.log[q].target] in s.stats
    requires S.Holds(s.stats[c.targets[s.log[q].target]], Home(s, c, q), q)
    ensures AfterReply(s.stats, c, g, now) == Credited(s.stats, c, q, s.log[q], g, now)
  {
    StartInv(c, start);
    RunKeepsInv(c, Start(c, start), es, s);
    RunKeepsStores(c, Start(c, start), es, s, q);
    TargetIsRight(s, c, q);
    AnsweredIff(q);
    CreditedToOwnBucket(s, c, q, now);
    var t, id := c.targets[s.log[q].target], Home(s, c, q);
    assert S.WithBucket(s.stats[t], id, c.store) == s.stats[t];
  }

  /** A segment that is neither a SYN-ACK nor a reset, or has other ports, changes no store. */
  lemma OthersChangeNothing(stats: View, c: Conf, g: Segment, now: i64)
    requires c.targets != []
    requires (!(g.syn && g.ack) && !g.rst) || g.sport != c.serverPort || g.dport < c.srcPort || g.dport >= c.srcPort + c.portCount
    ensures AfterReply(stats, c, g, now) == stats
  {
  }

  /** A SYN that was sent under a new number is in its target's store alone, unanswered, with the ports it
      went out on and the time of its round; one that failed is nowhere. */
  lemma SendIsRecorded(s: Scan, c: Conf)
    requires s.next < |c.targets| && c.targets[s.next] in s.stats
    ensures AfterSend(s, c, false).stats == s.stats
    ensures var v, q, t, id := AfterSend(s, c, true).stats, (s.seqNo + 1) % 0x1_0000_0000_0000_0000, c.targets[s.next], S.BucketOf(s.now, c.store);
      && v.Keys == s.stats.Keys && (forall k :: k in v && k != t ==> v[k] == s.stats[k])
      && S.OnlyBucket(s.stats[t], v[t], id) && S.OnlyEntry(S.Before(s.stats[t], id, c.store), v[t].buckets[id], q)
      && (q !in S.Before(s.stats[t], id, c.store).requests ==>
            v[t].buckets[id].requests[q] == S.Request(s.currentPort, c.serverPort, q, s.now, -1, false, false))
  {
    S.PutEffect(s.stats[c.targets[s.next]], c.store, s.currentPort, c.serverPort, (s.seqNo + 1) % 0x1_0000_0000_0000_0000, s.now);
  }

  /** A frame that carries the answer's ports passes the packet filter, in every reachable state. */
  lemma AnswersPassFilter(c: Conf, start: i64, es: seq<Event>, s: Scan, q: u64, frame: B.Packet)
    requires ConfOk(c) && start >= 0 && c.seqStart < 0x1_0000_0000 && Runs(c, Start(c, start), es, s)
    requires c.srcPort + c.portCount <= 0xffff && q in s.log && F.HasPorts(frame)
    requires B.Be16(frame, F.TransportAt(frame)) == c.serverPort && B.Be16(frame, F.TransportAt(frame) + 2) == s.log[q].port
    ensures B.Accepts(B.DecodeAll(F.ProbeFilter(c.serverPort, c.srcPort, c.portCount)), frame)
  {
    StartInv(c, start);
    RunKeepsInv(c, Start(c, start), es, s);
    F.ProbeFilterIsPredicate(frame, c.serverPort, c.srcPort, c.portCount);
  }

  /** A SYN-ACK handled after its SYN was sent but before it was recorded, with a bucket boundary in
      between, leaves two entries: the SYN without an answer, and an answer without ports. */
  lemma EarlyAnswerSplits(stats: View, c: Conf, i: nat, port: u16, q: u64, sentAt: i64, g: Segment, now: i64)
    requires i < |c.targets| && c.targets[i] in stats && g.syn && g.ack && Answered(g.ackNum) == q && TargetOf(q, c) == i
    requires F.ReplyWanted(g.sport, g.dport, c.serverPort, c.srcPort, c.portCount)
    requires S.BucketOf(now, c.store) == S.BucketOf(sentAt, c.store) + 1
    requires !S.Holds(stats[c.targets[i]], S.BucketOf(sentAt, c.store), q) && !S.Holds(stats[c.targets[i]], S.BucketOf(now, c.store), q)
    ensures var st, b := SendStats(AfterReply(stats, c, g, now), c, i, port, q, sentAt, true)[c.targets[i]], S.BucketOf(sentAt, c.store);
      && S.Holds(st, b, q) && st.buckets[b].requests[q].rtt == S.RTT_UNSET
      && S.Holds(st, b + 1, q) && st.buckets[b + 1].requests[q].rtt == now && st.buckets[b + 1].requests[q].clientPort == 0
  {
    S.EarlyReplySplits(stats[c.targets[i]], c.store, port, c.serverPort, q, sentAt, now, now, false);
  }
}
