/** What a bucket's aggregation reports, stated without reference to the order of its loops. */
module BucketStats {
  import opened Machine
  import opened Odometer
  import S = BucketStore

  /** Sequence numbers with a recorded round-trip time. */
  function Answered(requests: map<u64, S.Request>): set<u64> {
    set q | q in requests && requests[q].rtt != S.RTT_UNSET
  }

  datatype Totals = Totals(sent: int, received: int, loss: int)

  /** The counters of a server-side bucket; an empty bucket reports nothing at all. */
  function ServerTotals(b: S.BucketState): Totals {
    if |b.requests| == 0 then Totals(0, 0, 0) else
      var sent := if b.packetCountFixed then b.packetCount else |b.requests|;
      var received := |Answered(b.requests)|;
      Totals(sent, received, if sent < received then 0 else sent - received)
  }

  /** Sent is the client's count once it is known, else the entries; the loss is what is left, never negative. */
  lemma ServerTotalsMean(b: S.BucketState)
    requires |b.requests| > 0
    ensures var sent, received := if b.packetCountFixed then b.packetCount else |b.requests|, |set q | q in b.requests && b.requests[q].rtt != -1|;
      ServerTotals(b) == Totals(sent, received, if sent > received then sent - received else 0)
  {
    assert Answered(b.requests) == set q | q in b.requests && b.requests[q].rtt != -1;
  }

  /** Does this entry answer a probe sent on pair `q`, with its ports recorded? */
  predicate AnswersOn(r: S.Request, q: Pair) {
    r.rtt != S.RTT_UNSET && r.clientPort != 0 && Pair(r.clientPort, r.serverPort) == q
  }

  function ReceivedOn(requests: map<u64, S.Request>, q: Pair): nat {
    |set k | k in requests && AnswersOn(requests[k], q)|
  }

  /** The loss the server names for pair `q` after replaying the span. */
  function LossCount(start: Pair, count: nat, requests: map<u64, S.Request>, r: Ranges, q: Pair): nat {
    var expected, received := Replay(start, count, r)[q], ReceivedOn(requests, q);
    if received < expected then expected - received else 0
  }

  /** When the loss table is computed at all. */
  predicate HasTable(b: S.BucketState) {
    b.packetCountFixed && b.packetCount > 0 && !(b.startSrcPort == 0 && b.startDstPort == 0)
  }
}
