/** The scanner object: its send round and its reply handler, proved against the scanning machine. */
module LidarScanner {
  import opened Machine
  import opened StatTable
  import opened Lidar
  import S = BucketStore
  import F = Filters

  /** The machine after the first `k` sends of a round. */
  function Sends(s: Scan, c: Conf, fates: seq<bool>, k: nat): (s': Scan)
    requires k <= |fates| && s.next + k <= |c.targets| && forall t :: t in c.targets ==> t in s.stats
    ensures s'.next == s.next + k && s'.stats.Keys == s.stats.Keys
  {
    if k == 0 then s else AfterSend(Sends(s, c, fates, k - 1), c, fates[k - 1])
  }

  /** The number of the k-th send. */
  function Number(seqNo: u64, k: nat): u64 {
    if k == 0 then seqNo else (Number(seqNo, k - 1) + 1) % 0x1_0000_0000_0000_0000
  }

  /** What the first `k` sends of a round do to the table. */
  function RoundStats(v: View, c: Conf, port: u16, seqNo: u64, now: i64, fates: seq<bool>, k: nat): (v': View)
    requires k <= |fates| && k <= |c.targets| && forall t :: t in c.targets ==> t in v
    ensures v'.Keys == v.Keys
  {
    if k == 0 then v else
      SendStats(RoundStats(v, c, port, seqNo, now, fates, k - 1), c, k - 1, port, Number(seqNo, k), now, fates[k - 1])
  }

  /** The state `s'` shows `k` sends of the round that began in `s`. */
  predicate InRound(s: Scan, s': Scan, c: Conf, fates: seq<bool>, k: nat)
    requires k <= |fates| && k <= |c.targets| && forall t :: t in c.targets ==> t in s.stats
  {
    && s'.next == k && s'.currentPort == s.currentPort && s'.now == s.now && s'.seqNo == Number(s.seqNo, k)
    && s'.stats == RoundStats(s.stats, c, s.currentPort, s.seqNo, s.now, fates, k)
  }

  lemma SendAdvancesRound(s: Scan, s1: Scan, c: Conf, fates: seq<bool>, k: nat)
    requires k < |fates| && k < |c.targets| && forall t :: t in c.targets ==> t in s.stats
    requires InRound(s, s1, c, fates, k)
    ensures c.targets[k] in s1.stats && InRound(s, AfterSend(s1, c, fates[k]), c, fates, k + 1)
  {
  }

  /** A round of the scanner object is a run of Send steps of the machine. */
  lemma {:induction false} RoundIsSends(s: Scan, c: Conf, fates: seq<bool>, k: nat)
    requires s.next == 0 && k <= |fates| && k <= |c.targets| && forall t :: t in c.targets ==> t in s.stats
    ensures InRound(s, Sends(s, c, fates, k), c, fates, k)
  {
    if k > 0 {
      RoundIsSends(s, c, fates, k - 1);
      SendAdvancesRound(s, Sends(s, c, fates, k - 1), c, fates, k - 1);
    }
  }

  function Oks(fates: seq<bool>, k: nat): (n: nat)
    requires k <= |fates|
  {
    if k == 0 then 0 else Oks(fates, k - 1) + if fates[k - 1] then 1 else 0
  }

  /** After the first `k` sends of a round: the table, the last number used, the SYNs sent. */
  predicate RoundDone(v: View, w: View, c: Conf, port: u16, first: u64, now: i64, fates: seq<bool>, k: nat, last: u64, sent: int) {
    && k <= |fates| && k <= |c.targets| && (forall t :: t in c.targets ==> t in v)
    && w == RoundStats(v, c, port, first, now, fates, k)
    && last == Number(first, k) && sent == Oks(fates, k)
  }

  lemma RoundStep(v: View, w: View, c: Conf, port: u16, first: u64, now: i64, fates: seq<bool>, k: nat, last: u64, sent: int)
    requires k < |fates| && k < |c.targets| && RoundDone(v, w, c, port, first, now, fates, k, last, sent)
    ensures var last' := (last + 1) % 0x1_0000_0000_0000_0000;
      && c.targets[k] in w
      && RoundDone(v, SendStats(w, c, k, port, last', now, fates[k]), c, port, first, now, fates, k + 1, last', sent + if fates[k] then 1 else 0)
  {
  }

  class Scanner {
    const conf: Conf
    const table: Table
    var seqNo: u64
    var currentPort: u16
    var count: nat

    ghost predicate Valid()
      reads table, table.stats.Values
    {
      table.Valid() && table.cfg == conf.store && forall t :: t in conf.targets ==> t in table.stats
    }

    constructor (c: Conf)
      ensures Valid() && conf == c && fresh(table) && fresh(table.stats.Values)
      ensures seqNo == c.seqStart && currentPort == c.srcPort && table.State() == Start(c, 0).stats
    {
      conf := c;
      seqNo, currentPort, count := c.seqStart, c.srcPort, 0;
      table := new Table(c.store);
      new;
      table.Prepare(c.targets);
      assert table.State().Keys == table.stats.Keys;
    }

    /** The statistics part of one send; the number is used up even when building or sending fails. */
    method Record(i: nat, port: u16, seqNo: u64, now: i64, ok: bool)
      requires Valid() && i < |conf.targets|
      modifies table.stats[conf.targets[i]], table.stats[conf.targets[i]].buckets.Values
      ensures Valid() && table.stats == old(table.stats)
      ensures fresh(table.Objects() - old(table.Objects()))
      ensures conf.targets[i] in old(table.State())
      ensures table.State() == SendStats(old(table.State()), conf, i, port, seqNo, now, ok)
    {
      if ok {
        table.Do(conf.targets[i], S.OpPut(port, conf.serverPort, seqNo, now));
      }
    }

    /** The next target of a round. */
    method SendNext(ghost v: View, ghost w: View, port: u16, ghost first: u64, now: i64, fates: seq<bool>, k: nat, last: u64, sent: nat)
      returns (ghost w': View, last': u64, sent': nat)
      requires Valid() && table.State() == w && k < |fates| == |conf.targets|
      requires RoundDone(v, w, conf, port, first, now, fates, k, last, sent)
      modifies table.stats[conf.targets[k]], table.stats[conf.targets[k]].buckets.Values
      ensures Valid() && table.State() == w' && table.stats == old(table.stats) && fresh(table.Objects() - old(table.Objects()))
      ensures RoundDone(v, w', conf, port, first, now, fates, k + 1, last', sent')
    {
      RoundStep(v, w, conf, port, first, now, fates, k, last, sent);
      var n: int := last;
      last' := (n + 1) % 0x1_0000_0000_0000_0000;
      Record(k, port, last', now, fates[k]);
      w' := SendStats(w, conf, k, port, last', now, fates[k]);
      sent' := if fates[k] then sent + 1 else sent;
    }

    /** Sends a round's SYNs: one new number for every target. */
    method SendAll(port: u16, first: u64, now: i64, fates: seq<bool>) returns (last: u64, sent: nat)
      requires Valid() && |fates| == |conf.targets|
      modifies table.stats.Values, table.Objects()
      ensures Valid() && RoundDone(old(table.State()), table.State(), conf, port, first, now, fates, |fates|, last, sent)
    {
      ghost var v, w := table.State(), table.State();
      assert v.Keys == table.stats.Keys;
      last, sent := first, 0;
      for k := 0 to |conf.targets|
        invariant Valid() && table.State() == w && table.stats == old(table.stats) && fresh(table.Objects() - old(table.Objects()))
        invariant RoundDone(v, w, conf, port, first, now, fates, k, last, sent)
      {
        w, last, sent := SendNext(v, w, port, first, now, fates, k, last, sent);
      }
    }

    /** One round over all targets, then the next source port. */
    method Round(now: i64, fates: seq<bool>)
      requires Valid() && |fates| == |conf.targets|
      modifies this, table.stats.Values, table.Objects()
      ensures Valid() && RoundDone(old(table.State()), table.State(), conf, old(currentPort), old(seqNo), now, fates, |fates|, seqNo, count - old(count))
      ensures currentPort == Rotated(old(currentPort), conf)
    {
      var last, sent := SendAll(currentPort, seqNo, now, fates);
      label Sent:
      seqNo, count := last, count + sent;
      currentPort := (currentPort + 1) % 0x1_0000;
      if currentPort >= (conf.srcPort + conf.portCount) % 0x1_0000 {
        currentPort := conf.srcPort;
      }
      table.Untouched@Sent();
    }

    /** Credits a reply that passes the checks. */
    method ProcessReply(g: Segment, now: i64)
      requires Valid() && conf.targets != []
      modifies table.stats.Values, table.Objects()
      ensures Valid() && table.stats == old(table.stats)
      ensures table.State() == AfterReply(old(table.State()), conf, g, now)
    {
      if g.sport != conf.serverPort || g.dport < conf.srcPort || g.dport >= conf.srcPort + conf.portCount {
        return;
      }
      Credit(conf.targets[TargetOf(Answered(g.ackNum), conf)], g, now);
    }

    /** Records a SYN-ACK or a reset; any other segment is ignored. */
    method Credit(target: string, g: Segment, now: i64)
      requires Valid() && target in table.stats
      modifies table.stats[target], table.stats[target].buckets.Values
      ensures Valid() && table.stats == old(table.stats) && target in old(table.State())
      ensures var op := Recording(g, now);
        table.State() == if op.None? then old(table.State()) else OnPeer(old(table.State()), target, conf.store, op.value)
    {
      if g.syn && g.ack {
        table.Do(target, S.OpReceived(Answered(g.ackNum), now, now, false));
      } else if g.rst {
        table.Do(target, S.OpReceivedRST(Answered(g.ackNum), now, 0));
      }
    }
  }
}
