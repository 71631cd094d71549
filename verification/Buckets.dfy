/** The mutable bucket and bucket collection; each method is proved against its store function. */
module Buckets {
  import opened Machine
  import S = BucketStore

  /** Go's map iteration picks any key next. */
  method Choose<T(==)>(s: set<T>) returns (x: T)
    requires s != {}
    ensures x in s
  {
    x :| x in s;
  }

  class Bucket {
    const id: int
    var packetCount: u32
    var packetCountFixed: bool
    var startSrcPort: u16
    var startDstPort: u16
    var fixed: bool
    var requests: map<u64, S.Request>

    function State(): S.BucketState
      reads this
    {
      S.BucketState(id, packetCount, packetCountFixed, startSrcPort, startDstPort, fixed, requests)
    }

    constructor (bucketID: int, cfg: S.Config)
      ensures State() == S.NewBucket(bucketID, cfg)
    {
      id := bucketID;
      packetCount := cfg.rateInSpan % 0x1_0000_0000;
      packetCountFixed, startSrcPort, startDstPort, fixed := false, 0, 0, false;
      requests := map[];
    }

    method Put(clientPort: u16, serverPort: u16, seqNo: u64, ts: i64)
      modifies `requests
      ensures State() == S.BucketPut(old(State()), clientPort, serverPort, seqNo, ts)
    {
      if seqNo in requests {
        var r := requests[seqNo];
        requests := requests[seqNo := r.(clientPort := clientPort, serverPort := serverPort, ts := ts)];
      } else {
        requests := requests[seqNo := S.Request(clientPort, serverPort, seqNo, ts, S.RTT_UNSET, false, false)];
      }
    }

    method Delete(seqNo: u64)
      modifies `requests
      ensures State() == S.BucketDelete(old(State()), seqNo)
    {
      requests := requests - {seqNo};
    }

    method UpdateReceived(seqNo: u64, rtt: i64, hasBitflip: bool) returns (found: bool)
      modifies `requests
      ensures found <==> seqNo in old(requests)
      ensures State() == if found then S.BucketReceived(old(State()), seqNo, rtt, hasBitflip) else old(State())
    {
      found := seqNo in requests;
      if found {
        requests := requests[seqNo := requests[seqNo].(rtt := rtt, hasBitflip := hasBitflip)];
      }
    }

    method Received(seqNo: u64, rtt: i64, hasBitflip: bool)
      modifies `requests
      ensures State() == S.BucketReceived(old(State()), seqNo, rtt, hasBitflip)
    {
      if seqNo in requests {
        requests := requests[seqNo := requests[seqNo].(rtt := rtt, hasBitflip := hasBitflip)];
      } else {
        requests := requests[seqNo := S.Request(0, 0, seqNo, 0, rtt, hasBitflip, false)];
      }
    }

    method UpdateReceivedRST(seqNo: u64, rtt: i64) returns (found: bool)
      modifies `requests
      ensures found <==> seqNo in old(requests)
      ensures State() == if found then S.BucketReceivedRST(old(State()), seqNo, rtt) else old(State())
    {
      found := seqNo in requests;
      if found {
        requests := requests[seqNo := requests[seqNo].(rtt := rtt, isRst := true)];
      }
    }

    method ReceivedRST(seqNo: u64, rtt: i64)
      modifies `requests
      ensures State() == S.BucketReceivedRST(old(State()), seqNo, rtt)
    {
      if seqNo in requests {
        requests := requests[seqNo := requests[seqNo].(rtt := rtt, isRst := true)];
      } else {
        requests := requests[seqNo := S.Request(0, 0, seqNo, 0, rtt, false, true)];
      }
    }
  }

  class Buckets {
    const cfg: S.Config
    var buckets: map<BucketID, Bucket>
    var minID: int

    ghost predicate Valid()
      reads this
    {
      forall k :: k in buckets ==> buckets[k].id == k
    }

    ghost function State(): S.Store
      reads this, buckets.Values
    {
      S.Store(map k: BucketID | k in buckets :: buckets[k].State(), minID)
    }

    /** What every method keeps: bucket objects are distinct, and new ones are newly allocated. */
    twostate predicate Kept()
      reads this, buckets.Values
    {
      Valid() && fresh(buckets.Values - old(buckets.Values))
    }

    /** Writing to one bucket object changes one entry of the store. */
    twostate lemma OneBucketWritten(k: int)
      requires old(Valid()) && buckets == old(buckets) && minID == old(minID) && k in buckets
      requires forall b :: b in old(buckets.Values) && b != buckets[k] ==> unchanged(b)
      ensures State() == S.SetBucket(old(State()), k, buckets[k].State())
    {
      forall j | j in buckets && j != k ensures buckets[j].State() == old(buckets[j].State()) {
        assert buckets[j].id != buckets[k].id;
        assert buckets[j] in old(buckets.Values);
      }
      assert State().buckets == old(State()).buckets[k := buckets[k].State()];
    }

    constructor (cfg: S.Config)
      ensures Valid() && buckets == map[] && this.cfg == cfg
      ensures State() == S.EMPTY_STORE
    {
      this.cfg := cfg;
      buckets := map[];
      minID := -1;
    }

    /** The locked section of every recording operation: find the bucket or create it. */
    method GetOrCreate(bucketID: int) returns (b: Bucket)
      requires Valid()
      modifies this
      ensures Kept() && bucketID in buckets && b == buckets[bucketID]
      ensures State() == S.WithBucket(old(State()), bucketID, cfg)
    {
      if bucketID in buckets {
        b := buckets[bucketID];
      } else {
        b := new Bucket(bucketID, cfg);
        buckets := buckets[bucketID := b];
        if minID < 0 || bucketID < minID {
          minID := bucketID;
        }
      }
    }

    method Put(clientPort: u16, serverPort: u16, seqNo: u64, ts: i64)
      requires Valid()
      modifies this, buckets.Values
      ensures Kept()
      ensures State() == S.Put(old(State()), cfg, clientPort, serverPort, seqNo, ts)
    {
      var bucketID := S.BucketOf(ts, cfg);
      var b := GetOrCreate(bucketID);
      label Found:
      b.Put(clientPort, serverPort, seqNo, ts);
      OneBucketWritten@Found(bucketID);
    }

    method Delete(seqNo: u64, ts: i64)
      requires Valid()
      modifies buckets.Values
      ensures Kept()
      ensures State() == S.Delete(old(State()), cfg, seqNo, ts)
    {
      var bucketID := S.BucketOf(ts, cfg);
      if bucketID in buckets {
        buckets[bucketID].Delete(seqNo);
        OneBucketWritten(bucketID);
      }
    }

    /** One locked look into a bucket that may hold the probe. */
    method TryUpdateReceived(bucketID: int, seqNo: u64, rtt: i64, hasBitflip: bool) returns (found: bool)
      requires Valid()
      modifies buckets.Values
      ensures Kept()
      ensures found <==> S.Holds(old(State()), bucketID, seqNo)
      ensures State() == if found
                         then S.SetBucket(old(State()), bucketID, S.BucketReceived(old(State()).buckets[bucketID], seqNo, rtt, hasBitflip))
                         else old(State())
    {
      found := false;
      if bucketID in buckets {
        found := buckets[bucketID].UpdateReceived(seqNo, rtt, hasBitflip);
        OneBucketWritten(bucketID);
      }
    }

    /** Records the reply in its bucket, creating bucket and entry if needed. */
    method RecordReceived(bucketID: int, seqNo: u64, rtt: i64, hasBitflip: bool)
      requires Valid()
      modifies this, buckets.Values
      ensures Kept()
      ensures var s := S.WithBucket(old(State()), bucketID, cfg);
              State() == S.SetBucket(s, bucketID, S.BucketReceived(s.buckets[bucketID], seqNo, rtt, hasBitflip))
    {
      var b := GetOrCreate(bucketID);
      label Found:
      b.Received(seqNo, rtt, hasBitflip);
      OneBucketWritten@Found(bucketID);
    }

    method Received(seqNo: u64, ts: i64, rtt: i64, hasBitflip: bool)
      requires Valid()
      modifies this, buckets.Values
      ensures Kept()
      ensures State() == S.Received(old(State()), cfg, seqNo, ts, rtt, hasBitflip)
    {
      var bucketID := S.BucketOf(ts, cfg);
      var found := TryUpdateReceived(bucketID, seqNo, rtt, hasBitflip);
      if found { return; }
      found := TryUpdateReceived(bucketID - 1, seqNo, rtt, hasBitflip);
      if found { return; }
      RecordReceived(bucketID, seqNo, rtt, hasBitflip);
    }

    /** One locked look into a bucket that may hold the probe. */
    method TryUpdateReceivedRST(bucketID: int, seqNo: u64, rtt: i64) returns (found: bool)
      requires Valid()
      modifies buckets.Values
      ensures Kept()
      ensures found <==> S.Holds(old(State()), bucketID, seqNo)
      ensures State() == if found
                         then S.SetBucket(old(State()), bucketID, S.BucketReceivedRST(old(State()).buckets[bucketID], seqNo, rtt))
                         else old(State())
    {
      found := false;
      if bucketID in buckets {
        found := buckets[bucketID].UpdateReceivedRST(seqNo, rtt);
        OneBucketWritten(bucketID);
      }
    }

    /** Records the reply in its bucket, creating bucket and entry if needed. */
    method RecordReceivedRST(bucketID: int, seqNo: u64, rtt: i64)
      requires Valid()
      modifies this, buckets.Values
      ensures Kept()
      ensures var s := S.WithBucket(old(State()), bucketID, cfg);
              State() == S.SetBucket(s, bucketID, S.BucketReceivedRST(s.buckets[bucketID], seqNo, rtt))
    {
      var b := GetOrCreate(bucketID);
      label Found:
      b.ReceivedRST(seqNo, rtt);
      OneBucketWritten@Found(bucketID);
    }

    method ReceivedRST(seqNo: u64, ts: i64, rtt: i64)
      requires Valid()
      modifies this, buckets.Values
      ensures Kept()
      ensures State() == S.ReceivedRST(old(State()), cfg, seqNo, ts, rtt)
    {
      var bucketID := S.BucketOf(ts, cfg);
      var found := TryUpdateReceivedRST(bucketID, seqNo, rtt);
      if found { return; }
      found := TryUpdateReceivedRST(bucketID - 1, seqNo, rtt);
      if found { return; }
      RecordReceivedRST(bucketID, seqNo, rtt);
    }

    /** The locked section of ReceivedAndFix: record, and claim the repair if nobody has. */
    method RecordAndClaim(bucketID: int, seqNo: u64, rtt: i64, hasBitflip: bool) returns (fixed: bool)
      requires Valid()
      modifies this, buckets.Values
      ensures Kept() && bucketID in buckets
      ensures var s := S.WithBucket(old(State()), bucketID, cfg);
              var b := s.buckets[bucketID];
              fixed == b.fixed
              && State() == S.SetBucket(s, bucketID, S.BucketReceived(b, seqNo, rtt, hasBitflip).(fixed := true))
    {
      var b := GetOrCreate(bucketID);
      label Found:
      b.Received(seqNo, rtt, hasBitflip);
      fixed := b.fixed;
      b.fixed := true;
      OneBucketWritten@Found(bucketID);
    }

    /** The section that writes the repair into the previous bucket, when there is one. */
    method Repair(bucketID: int, last: S.LastSpan)
      requires Valid()
      modifies buckets.Values
      ensures Kept()
      ensures State() == if bucketID in old(buckets)
                         then S.SetBucket(old(State()), bucketID,
                                S.BucketRepair(old(State()).buckets[bucketID], last.count, last.src, last.dst))
                         else old(State())
    {
      if bucketID in buckets {
        var prev := buckets[bucketID];
        prev.packetCount := last.count;
        prev.packetCountFixed := true;
        prev.startSrcPort := last.src;
        prev.startDstPort := last.dst;
        OneBucketWritten(bucketID);
      }
    }

    method ReceivedAndFix(seqNo: u64, ts: i64, rtt: i64, last: S.LastSpan, hasBitflip: bool)
      requires Valid()
      modifies this, buckets.Values
      ensures Kept()
      ensures State() == S.ReceivedAndFix(old(State()), cfg, seqNo, ts, rtt, last, hasBitflip)
    {
      var bucketID := S.BucketOf(ts, cfg);
      var fixed := RecordAndClaim(bucketID, seqNo, rtt, hasBitflip);
      if !fixed && last.count > 0 {
        Repair(bucketID - 1, last);
      }
    }

    /** Any recording operation. */
    method Apply(op: S.Operation)
      requires Valid()
      modifies this, buckets.Values
      ensures Kept() && State() == S.Apply(old(State()), cfg, op)
    {
      match op
      case OpPut(c, d, q, ts) => Put(c, d, q, ts);
      case OpDelete(q, ts) => Delete(q, ts);
      case OpReceived(q, ts, rtt, flip) => Received(q, ts, rtt, flip);
      case OpReceivedRST(q, ts, rtt) => ReceivedRST(q, ts, rtt);
      case OpReceivedAndFix(q, ts, rtt, last, flip) => ReceivedAndFix(q, ts, rtt, last, flip);
    }

    method Oldest() returns (b: Bucket?)
      requires Valid()
      ensures S.Oldest(State()) == if b == null then Option.None else Option.Some(b.State())
      ensures if b == null then minID !in buckets else minID in buckets && b == buckets[minID]
    {
      if |buckets| == 0 || minID !in buckets {
        return null;
      }
      b := buckets[minID];
    }

    /** No bucket has a negative identifier. */
    predicate NoneNegative()
      reads this
    {
      forall k :: k in buckets ==> k >= 0
    }

    /** The least identifier present, searched in any order; -1 when there is none. */
    method FindMin() returns (least: int)
      ensures exists order :: S.Orders(order, buckets.Keys) && least == S.Search(order)
      ensures NoneNegative() ==> S.IsLeast(least, buckets.Keys)
    {
      least := -1;
      var rest := buckets.Keys;
      ghost var order: seq<BucketID> := [];
      while rest != {}
        invariant rest <= buckets.Keys && S.Orders(order, buckets.Keys - rest) && least == S.Search(order)
      {
        var next := Choose(rest);
        if least < 0 || next < least {
          least := next;
        }
        assert buckets.Keys - (rest - {next}) == buckets.Keys - rest + {next};
        assert (order + [next])[..|order|] == order;
        rest, order := rest - {next}, order + [next];
      }
      assert buckets.Keys - {} == buckets.Keys;
      if NoneNegative() { S.SearchRight(order, buckets.Keys); }
    }

    /** Deletes a bucket; when it was the oldest, the next minimum is searched. */
    method Remove(bucketID: int)
      requires Valid()
      modifies this
      ensures Valid() && buckets == old(buckets) - {bucketID}
      ensures old(NoneNegative()) ==> State() == S.Remove(old(State()), bucketID)
      ensures State().buckets == old(State()).buckets - {bucketID}
      ensures if bucketID != old(minID) then minID == old(minID)
              else exists order :: S.Orders(order, buckets.Keys) && minID == S.Search(order)
    {
      ghost var before := State().buckets - {bucketID};
      buckets := buckets - {bucketID};
      if bucketID == minID {
        minID := FindMin();
        if NoneNegative() { S.LeastUnique(minID, buckets.Keys); }
      }
      assert State().buckets.Keys == buckets.Keys;
      forall k: BucketID | k in buckets ensures k in before && State().buckets[k] == before[k] {}
      assert State().buckets == before;
    }
  }
}
