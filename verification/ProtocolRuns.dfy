/** Two probes, both delivered and handled in order, and the report of the first span. */
module ProtocolRuns {
  import opened Machine
  import opened Odometer
  import opened SpanClient
  import opened SpanHistory
  import opened BucketStats
  import opened BucketHeap
  import opened Protocol
  import opened ProtocolTheorems
  import opened ProtocolWitness
  import S = BucketStore

  /** The entry of a probe, with or without its ports. */
  function Entry(put: bool, x: Probe, rtt: i64): S.Request {
    if put then S.Request(x.pair.src, x.pair.dst, x.seqNo, WrapI64(x.ts), rtt, false, false)
    else S.Request(0, 0, x.seqNo, 0, rtt, false, false)
  }

  function One(put: bool, rtt: i64): S.BucketState {
    EMPTY_1.(fixed := true, requests := map[1 := Entry(put, PROBE_1, rtt)])
  }

  function OneRepaired(put: bool, rtt: i64): S.BucketState {
    One(put, rtt).(packetCount := 1, packetCountFixed := true, startSrcPort := 1, startDstPort := 2)
  }

  function Two(put: bool): S.BucketState {
    EMPTY_2.(fixed := true, requests := map[2 := Entry(put, PROBE_2, 0)])
  }

  /** A bucket whose entry has been put but has not arrived. */
  function Stored1(): S.BucketState { EMPTY_1.(requests := map[1 := Entry(true, PROBE_1, S.RTT_UNSET)]) }

  function Stored2(): S.BucketState { EMPTY_2.(requests := map[2 := Entry(true, PROBE_2, S.RTT_UNSET)]) }

  function First1(pc: Pc): State { At([], [], [Task(0, pc)]) }

  function Recorded1(put: bool, rtt: i64): State { At([One(put, rtt)], [{1}], [Task(0, FixLookup)]) }

  function Second(put: bool, rtt: i64, pc: Pc): State { At([One(put, rtt)], [{1}], [Task(0, FixLookup), Task(1, pc)]) }

  function Recorded2(put: bool, rtt: i64, pc: Pc): State {
    At([One(put, rtt), Two(put)], [{1}, {2}], [Task(0, FixLookup), Task(1, pc)])
  }

  function Final(put: bool, rtt: i64): State {
    At([OneRepaired(put, rtt), Two(put)], [{1}, {2}], [Task(0, FixLookup), Task(1, Done)])
  }

  // ----- the first probe -----

  lemma FirstPut()
    ensures Reachable(true, At([Stored1()], [{}], [Task(0, Record)]))
  {
    SendBoth(true);
    assert [] + [Task(0, PutLookup)] == [Task(0, PutLookup)];
    NextDelivery(true, AfterTwo(), 0, First1(PutLookup));
    var found := At([EMPTY_1], [{}], [Task(0, PutStore(0))]);
    assert LookupStep(First1(PutLookup), 0, SMALL) == found;
    NextTask(true, First1(PutLookup), 0, 0, found);
    FirstStored(found);
  }

  lemma FirstStored(found: State)
    requires found == At([EMPTY_1], [{}], [Task(0, PutStore(0))]) && Reachable(true, found)
    ensures Reachable(true, At([Stored1()], [{}], [Task(0, Record)]))
  {
    var put := At([Stored1()], [{}], [Task(0, Record)]);
    assert S.BucketPut(EMPTY_1, 1, 2, 1, 10) == Stored1();
    assert StoreStep(found, 0, SMALL) == put;
    NextTask(true, found, 0, 0, put);
  }

  lemma FirstRecordedPut(rtt: i64)
    ensures Reachable(true, Recorded1(true, rtt))
  {
    FirstPut();
    var s := At([Stored1()], [{}], [Task(0, Record)]);
    RecordStored1(rtt);
    NextTask(true, s, 0, rtt, Recorded1(true, rtt));
  }

  lemma RecordStored1(rtt: i64)
    ensures var s := At([Stored1()], [{}], [Task(0, Record)]);
      Wf(s) && TaskStep(s, 0, rtt, false, SMALL) == Recorded1(true, rtt)
  {
    assert {} + {1} == {1};
    ReceiveStored1(rtt);
    assert RecordStep(At([Stored1()], [{}], [Task(0, Record)]), 0, rtt, false, SMALL) == Recorded1(true, rtt);
  }

  lemma FirstRecordedOnly(rtt: i64)
    ensures Reachable(false, Recorded1(false, rtt))
  {
    SendBoth(false);
    assert [] + [Task(0, Record)] == [Task(0, Record)];
    NextDelivery(false, AfterTwo(), 0, First1(Record));
    RecordNew1(rtt);
    NextTask(false, First1(Record), 0, rtt, Recorded1(false, rtt));
  }

  lemma RecordNew1(rtt: i64)
    ensures Wf(First1(Record)) && TaskStep(First1(Record), 0, rtt, false, Small(false)) == Recorded1(false, rtt)
  {
    assert {} + {1} == {1};
    ReceiveNew1(rtt);
    assert RecordStep(First1(Record), 0, rtt, false, Small(false)) == Recorded1(false, rtt);
  }

  lemma FirstRecorded(put: bool, rtt: i64)
    ensures Reachable(put, Recorded1(put, rtt))
  {
    if put { FirstRecordedPut(rtt); } else { FirstRecordedOnly(rtt); }
  }

  lemma ReceiveStored1(rtt: i64)
    ensures S.BucketReceived(Stored1(), 1, rtt, false).(fixed := true) == One(true, rtt)
  {
    var m := Stored1().requests;
    assert m[1 := m[1].(rtt := rtt, hasBitflip := false)] == One(true, rtt).requests;
  }

  lemma ReceiveNew1(rtt: i64)
    ensures S.BucketReceived(EMPTY_1, 1, rtt, false).(fixed := true) == One(false, rtt)
  {
    assert EMPTY_1.requests[1 := Entry(false, PROBE_1, rtt)] == One(false, rtt).requests;
  }

  // ----- the second probe -----

  lemma SecondDelivered(put: bool, rtt: i64)
    ensures Reachable(put, Second(put, rtt, if put then PutLookup else Record))
  {
    FirstRecorded(put, rtt);
    NextDelivery(put, Recorded1(put, rtt), 1, Second(put, rtt, if put then PutLookup else Record));
  }

  function Found2(rtt: i64): State { At([One(true, rtt), EMPTY_2], [{1}, {}], [Task(0, FixLookup), Task(1, PutStore(1))]) }

  function Put2(rtt: i64): State { At([One(true, rtt), Stored2()], [{1}, {}], [Task(0, FixLookup), Task(1, Record)]) }

  lemma SecondFound(rtt: i64)
    ensures Reachable(true, Found2(rtt))
  {
    SecondDelivered(true, rtt);
    assert LookupStep(Second(true, rtt, PutLookup), 1, SMALL) == Found2(rtt);
    NextTask(true, Second(true, rtt, PutLookup), 1, 0, Found2(rtt));
  }

  lemma SecondPut(rtt: i64)
    ensures Reachable(true, Put2(rtt))
  {
    SecondFound(rtt);
    assert S.BucketPut(EMPTY_2, 2, 1, 2, 20) == Stored2();
    assert StoreStep(Found2(rtt), 1, SMALL) == Put2(rtt);
    NextTask(true, Found2(rtt), 1, 0, Put2(rtt));
  }

  lemma ReceiveTwo()
    ensures S.BucketReceived(Stored2(), 2, 0, false).(fixed := true) == Two(true)
    ensures S.BucketReceived(EMPTY_2, 2, 0, false).(fixed := true) == Two(false)
  {
    var m := Stored2().requests;
    assert m[2 := m[2].(rtt := 0, hasBitflip := false)] == Two(true).requests;
    assert EMPTY_2.requests[2 := Entry(false, PROBE_2, 0)] == Two(false).requests;
  }

  lemma RecordStored2(rtt: i64)
    ensures Wf(Put2(rtt)) && TaskStep(Put2(rtt), 1, 0, false, SMALL) == Recorded2(true, rtt, FixLookup)
  {
    assert {} + {2} == {2};
    ReceiveTwo();
    assert RecordStep(Put2(rtt), 1, 0, false, SMALL) == Recorded2(true, rtt, FixLookup);
  }

  lemma RecordNew2(rtt: i64)
    ensures var s := Second(false, rtt, Record);
      Wf(s) && TaskStep(s, 1, 0, false, Small(false)) == Recorded2(false, rtt, FixLookup)
  {
    assert {} + {2} == {2};
    ReceiveTwo();
    assert RecordStep(Second(false, rtt, Record), 1, 0, false, Small(false)) == Recorded2(false, rtt, FixLookup);
  }

  lemma SecondRecorded(put: bool, rtt: i64)
    ensures Reachable(put, Recorded2(put, rtt, FixLookup))
  {
    if put {
      SecondPut(rtt);
      RecordStored2(rtt);
      NextTask(true, Put2(rtt), 1, 0, Recorded2(true, rtt, FixLookup));
    } else {
      SecondDelivered(false, rtt);
      RecordNew2(rtt);
      NextTask(false, Second(false, rtt, Record), 1, 0, Recorded2(false, rtt, FixLookup));
    }
  }

  lemma FirstFound(put: bool, rtt: i64)
    ensures Reachable(put, Recorded2(put, rtt, FixWrite(0)))
  {
    SecondRecorded(put, rtt);
    assert FixLookupStep(Recorded2(put, rtt, FixLookup), 1, Small(put)) == Recorded2(put, rtt, FixWrite(0));
    NextTask(put, Recorded2(put, rtt, FixLookup), 1, 0, Recorded2(put, rtt, FixWrite(0)));
  }

  lemma WriteOne(put: bool, rtt: i64)
    ensures S.BucketRepair(One(put, rtt), 1, 1, 2) == OneRepaired(put, rtt)
  {
  }

  lemma FirstRepaired(put: bool, rtt: i64)
    ensures Reachable(put, Final(put, rtt))
  {
    FirstFound(put, rtt);
    WriteOne(put, rtt);
    assert FixWriteStep(Recorded2(put, rtt, FixWrite(0)), 1, Small(put)) == Final(put, rtt);
    NextTask(put, Recorded2(put, rtt, FixWrite(0)), 1, 0, Final(put, rtt));
  }

  // ----- the report -----

  function Figures(put: bool, rtt: i64): Report {
    var b := OneRepaired(put, rtt);
    Report(1, true, b.requests, ServerTotals(b), {1}, None)
  }

  function Table(put: bool, rtt: i64): TableInput { TableInput(Pair(1, 2), 1, OneRepaired(put, rtt).requests, {1}) }

  function ReportOfOne(put: bool, rtt: i64): Report { Figures(put, rtt).(table := Some(Table(put, rtt))) }

  function Read(put: bool, rtt: i64, r: Reporter): State { Final(put, rtt).(lastID := 1, reporter := r) }

  lemma Scans(put: bool, rtt: i64)
    ensures Reachable(put, Final(put, rtt).(reporter := Scan(0)))
  {
    FirstRepaired(put, rtt);
    assert Final(put, rtt).heap.minID in Final(put, rtt).heap.index;
    Next(put, Final(put, rtt), RunReporter(0), Final(put, rtt).(reporter := Scan(0)));
  }

  lemma Finds(put: bool, rtt: i64)
    ensures Reachable(put, Read(put, rtt, ReadSpan(0, Figures(put, rtt))))
  {
    Scans(put, rtt);
    Next(put, Final(put, rtt).(reporter := Scan(0)), RunReporter(0), Read(put, rtt, ReadSpan(0, Figures(put, rtt))));
  }

  lemma Reads(put: bool, rtt: i64)
    ensures Reachable(put, Read(put, rtt, ReadEntries(0, Figures(put, rtt), Pair(1, 2), 1)))
  {
    Finds(put, rtt);
    var s := Read(put, rtt, ReadSpan(0, Figures(put, rtt)));
    Next(put, s, RunReporter(0), Read(put, rtt, ReadEntries(0, Figures(put, rtt), Pair(1, 2), 1)));
  }

  function Reported(put: bool, rtt: i64): State {
    Final(put, rtt).(lastID := 1, reporter := Finish(0), reports := [ReportOfOne(put, rtt)])
  }

  lemma Reports(put: bool, rtt: i64)
    ensures Reachable(put, Reported(put, rtt))
  {
    Reads(put, rtt);
    assert [] + [ReportOfOne(put, rtt)] == [ReportOfOne(put, rtt)];
    Next(put, Read(put, rtt, ReadEntries(0, Figures(put, rtt), Pair(1, 2), 1)), RunReporter(0), Reported(put, rtt));
  }

  lemma OneNumber()
    ensures SeqsIn([PROBE_1, PROBE_2], 1, CLIENT) == {1}
  {
    var h := [PROBE_1, PROBE_2];
    assert SpanOf(h[0], CLIENT) == 1 && SpanOf(h[1], CLIENT) == 2;
    assert forall q :: q in SeqsIn(h, 1, CLIENT) ==> q == 1;
    assert h[0].seqNo in SeqsIn(h, 1, CLIENT);
  }

  /** sonar's handler measures -1 for the only probe of a span: it arrived, and is reported lost. */
  lemma MeasuredMinusOneReportedLost()
    ensures var s := Reported(true, -1);
      && Reachable(true, s) && s.reports[0].fixed && s.reports[0].totals == Totals(1, 0, 1)
      && SeqsIn(s.hist, 1, CLIENT) - s.reports[0].arrived == {}
  {
    Reports(true, -1);
    OneNumber();
    assert Answered(OneRepaired(true, -1).requests) == {};
  }

  /** kuiniu's handler records no ports: nothing is lost, and the table names a pair never used. */
  lemma TableWithoutPortsNamesLoss()
    ensures var s, q := Reported(false, 0), Pair(2, 1);
      && Reachable(false, s) && s.reports[0].totals == Totals(1, 1, 0)
      && SeqsIn(s.hist, 1, CLIENT) - s.reports[0].arrived == {}
      && LossCount(Pair(1, 2), 1, Table(false, 0).requests, CLIENT.ranges, q) == 1
      && SentOn(s.hist, 1, q, CLIENT) == 0
  {
    Reports(false, 0);
    OneNumber();
    assert Answered(OneRepaired(false, 0).requests) == {1};
    TableNamesNext();
    NothingSentOn();
  }

  lemma TableNamesNext()
    ensures LossCount(Pair(1, 2), 1, OneRepaired(false, 0).requests, CLIENT.ranges, Pair(2, 1)) == 1
  {
    var m := OneRepaired(false, 0).requests;
    assert (set k | k in m && AnswersOn(m[k], Pair(2, 1))) == {};
    assert Run(Pair(2, 1), 1, CLIENT.ranges) == [Pair(2, 1)];
    assert GetNextPorts(Pair(1, 2), CLIENT.ranges) == Pair(2, 1);
  }

  lemma NothingSentOn()
    ensures SentOn([PROBE_1, PROBE_2], 1, Pair(2, 1), CLIENT) == 0
  {
    assert [PROBE_1, PROBE_2][..1] == [PROBE_1];
    assert [PROBE_1][..0] == [];
    assert SentOn([PROBE_1], 1, Pair(2, 1), CLIENT) == 0;
  }
}
