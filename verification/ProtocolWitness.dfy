/** Concrete runs of the one-way loss protocol whose reports of a repaired bucket are wrong. */
module ProtocolWitness {
  import opened Machine
  import opened Odometer
  import opened SpanClient
  import opened BucketStats
  import opened BucketHeap
  import opened Protocol
  import opened ProtocolInvariant
  import opened ProtocolSafety
  import S = BucketStore

  const CLIENT := Settings(10, 5, Ranges(PortRange(1, 2), PortRange(1, 2)), 0)

  /** With or without recording the ports first. */
  function Small(put: bool): Params { Params(CLIENT, 0, 0, put) }

  const SMALL := Small(true)

  const PROBE_1 := Probe(1, 10, Pair(1, 2), S.LastSpan(5, 1, 1), true)
  const PROBE_2 := Probe(2, 20, Pair(2, 1), S.LastSpan(1, 1, 2), true)
  const EMPTY_1 := S.BucketState(1, 0, false, 0, 0, false, map[])
  const REPAIRED_1 := S.BucketState(1, 1, true, 1, 2, false, map[])
  const EMPTY_2 := S.BucketState(2, 0, false, 0, 0, false, map[])
  const STORED_2 := EMPTY_2.(requests := map[2 := S.Request(2, 1, 2, 20, -1, false, false)])
  const GOT_2 := EMPTY_2.(fixed := true, requests := map[2 := S.Request(2, 1, 2, 20, 7, false, false)])

  function AfterOne(): State {
    Init(SMALL).(client := Client(1, Pair(1, 2), 1, 5, 1, Pair(1, 1), Pair(1, 2)), hist := [PROBE_1])
  }

  function AfterTwo(): State {
    Init(SMALL).(client := Client(2, Pair(2, 1), 2, 1, 1, Pair(1, 2), Pair(2, 1)), hist := [PROBE_1, PROBE_2])
  }

  ghost predicate Reachable(put: bool, s: State) {
    exists acts :: Reaches(Small(put), acts, s)
  }

  lemma Next(put: bool, s: State, a: Action, s': State)
    requires Reachable(put, s) && Wf(s) && Enabled(s, a, Small(put)) && s' == Do(s, a, Small(put))
    ensures Reachable(put, s')
  {
    var acts :| Reaches(Small(put), acts, s);
    var acts' := acts + [a];
    assert acts'[..|acts|] == acts && acts'[|acts|] == a;
    assert Reaches(Small(put), acts', s');
  }

  lemma ClientStates()
    ensures AfterSend(Init(SMALL).client, 10, CLIENT) == AfterOne().client
    ensures AfterSend(AfterOne().client, 20, CLIENT) == AfterTwo().client
  {
  }

  lemma SendBoth(put: bool)
    ensures Reachable(put, AfterTwo())
  {
    ClientStates();
    assert Init(Small(put)) == Init(SMALL);
    assert Reaches(Small(put), [], Init(SMALL));
    assert [] + [PROBE_1] == [PROBE_1];
    Next(put, Init(SMALL), SendProbe(10, true), AfterOne());
    SendSecond(put);
  }

  lemma SendSecond(put: bool)
    requires Reachable(put, AfterOne())
    ensures Reachable(put, AfterTwo())
  {
    ClientStates();
    assert MaySend([PROBE_1], 20, CLIENT) by { assert [PROBE_1][..0] == []; }
    assert [PROBE_1] + [PROBE_2] == [PROBE_1, PROBE_2];
    Next(put, AfterOne(), SendProbe(20, true), AfterTwo());
  }

  /** Both probes sent; buckets and handlers as given, bucket 1 in object 0 and bucket 2 in object 1. */
  function At(objs: seq<S.BucketState>, arrived: seq<set<u64>>, tasks: seq<Task>): State {
    var index := if |objs| == 0 then map[] else if |objs| == 1 then map[1 := 0] else map[1 := 0, 2 := 1];
    AfterTwo().(heap := Heap(objs, index, if |objs| == 0 then -1 else 1), arrived := arrived, tasks := tasks)
  }

  lemma NextTask(put: bool, s: State, t: nat, rtt: i64, s': State)
    requires Reachable(put, s) && Wf(s) && t < |s.tasks| && !s.tasks[t].pc.Done? && s' == TaskStep(s, t, rtt, false, Small(put))
    ensures Reachable(put, s')
  {
    Next(put, s, RunTask(t, rtt, false), s');
  }

  lemma NextDelivery(put: bool, s: State, i: nat, s': State)
    requires Reachable(put, s) && Wf(s) && i < |s.hist| && s.hist[i].onWire && s' == DeliverStep(s, i, Small(put))
    ensures Reachable(put, s')
  {
    Next(put, s, Deliver(i), s');
  }

  // ----- a repaired bucket reported empty -----

  function Delivered(): State { At([], [], [Task(0, PutLookup)]) }
  function LookedUp(): State { At([EMPTY_1], [{}], [Task(0, PutStore(0))]) }
  function DeliveredTwo(): State { At([EMPTY_1], [{}], [Task(0, PutStore(0)), Task(1, PutLookup)]) }
  function BothLookedUp(): State { At([EMPTY_1, EMPTY_2], [{}, {}], [Task(0, PutStore(0)), Task(1, PutStore(1))]) }
  function Stored(): State { At([EMPTY_1, STORED_2], [{}, {}], [Task(0, PutStore(0)), Task(1, Record)]) }
  function Got(pc: Pc): State { At([EMPTY_1, GOT_2], [{}, {2}], [Task(0, PutStore(0)), Task(1, pc)]) }
  function Repaired(): State { At([REPAIRED_1, GOT_2], [{}, {2}], [Task(0, PutStore(0)), Task(1, Done)]) }

  lemma DeliverOne()
    ensures DeliverStep(AfterTwo(), 0, SMALL) == Delivered()
  {
    assert [] + [Task(0, PutLookup)] == [Task(0, PutLookup)];
  }

  lemma LookupOne()
    ensures Wf(Delivered()) && TaskStep(Delivered(), 0, 7, false, SMALL) == LookedUp()
  {
    assert LookupStep(Delivered(), 0, SMALL) == LookedUp();
  }

  lemma DeliverTwo()
    ensures Wf(LookedUp()) && DeliverStep(LookedUp(), 1, SMALL) == DeliveredTwo()
  {
  }

  lemma LookupTwo()
    ensures Wf(DeliveredTwo()) && TaskStep(DeliveredTwo(), 1, 7, false, SMALL) == BothLookedUp()
  {
    assert LookupStep(DeliveredTwo(), 1, SMALL) == BothLookedUp();
  }

  lemma StoreTwo()
    ensures Wf(BothLookedUp()) && TaskStep(BothLookedUp(), 1, 7, false, SMALL) == Stored()
  {
    assert StoreStep(BothLookedUp(), 1, SMALL) == Stored();
  }

  lemma RecordTwo()
    ensures Wf(Stored()) && TaskStep(Stored(), 1, 7, false, SMALL) == Got(FixLookup)
  {
    assert S.BucketReceived(STORED_2, 2, 7, false).(fixed := true) == GOT_2 by {
      assert STORED_2.requests[2 := STORED_2.requests[2].(rtt := 7, hasBitflip := false)] == GOT_2.requests;
    }
    assert {} + {2} == {2};
    assert RecordStep(Stored(), 1, 7, false, SMALL) == Got(FixLookup);
  }

  lemma FindOne()
    ensures Wf(Got(FixLookup)) && TaskStep(Got(FixLookup), 1, 7, false, SMALL) == Got(FixWrite(0))
  {
    assert FixLookupStep(Got(FixLookup), 1, SMALL) == Got(FixWrite(0));
  }

  lemma RepairOne()
    ensures Wf(Got(FixWrite(0))) && TaskStep(Got(FixWrite(0)), 1, 7, false, SMALL) == Repaired()
  {
    assert FixWriteStep(Got(FixWrite(0)), 1, SMALL) == Repaired();
  }

  lemma ReachDelivered()
    ensures Reachable(true, Delivered())
  {
    SendBoth(true);
    DeliverOne();
    NextDelivery(true, AfterTwo(), 0, Delivered());
  }

  lemma ReachLookedUp()
    ensures Reachable(true, LookedUp())
  {
    ReachDelivered();
    LookupOne();
    NextTask(true, Delivered(), 0, 7, LookedUp());
  }

  lemma ReachDeliveredTwo()
    ensures Reachable(true, DeliveredTwo())
  {
    ReachLookedUp();
    DeliverTwo();
    NextDelivery(true, LookedUp(), 1, DeliveredTwo());
  }

  lemma ReachBothLookedUp()
    ensures Reachable(true, BothLookedUp())
  {
    ReachDeliveredTwo();
    LookupTwo();
    NextTask(true, DeliveredTwo(), 1, 7, BothLookedUp());
  }

  lemma ReachStored()
    ensures Reachable(true, Stored())
  {
    ReachBothLookedUp();
    StoreTwo();
    NextTask(true, BothLookedUp(), 1, 7, Stored());
  }

  lemma ReachGot()
    ensures Reachable(true, Got(FixLookup))
  {
    ReachStored();
    RecordTwo();
    NextTask(true, Stored(), 1, 7, Got(FixLookup));
  }

  lemma ReachFound()
    ensures Reachable(true, Got(FixWrite(0)))
  {
    ReachGot();
    FindOne();
    NextTask(true, Got(FixLookup), 1, 7, Got(FixWrite(0)));
  }

  /** A handler of span 1 is between its two sections while one of span 2 repairs the empty bucket. */
  lemma ReachRepaired()
    ensures Reachable(true, Repaired())
  {
    ReachFound();
    RepairOne();
    NextTask(true, Got(FixWrite(0)), 1, 7, Repaired());
  }

  const FIGURES := Report(1, true, map[], Totals(0, 0, 0), {}, None)

  function Reading(r: Reporter): State { Repaired().(lastID := 1, reporter := r) }

  lemma ReporterScans()
    ensures Reachable(true, Repaired().(reporter := Scan(0)))
  {
    ReachRepaired();
    assert Repaired().heap.minID in Repaired().heap.index;
    Next(true, Repaired(), RunReporter(0), Repaired().(reporter := Scan(0)));
  }

  lemma ReporterFinds()
    ensures Reachable(true, Reading(ReadSpan(0, FIGURES)))
  {
    ReporterScans();
    var s := Repaired().(reporter := Scan(0));
    assert Answered(REPAIRED_1.requests) == {};
    Next(true, s, RunReporter(0), Reading(ReadSpan(0, FIGURES)));
  }

  lemma ReporterReads()
    ensures Reachable(true, Reading(ReadEntries(0, FIGURES, Pair(1, 2), 1)))
  {
    ReporterFinds();
    Next(true, Reading(ReadSpan(0, FIGURES)), RunReporter(0), Reading(ReadEntries(0, FIGURES, Pair(1, 2), 1)));
  }

  lemma OneProbeInSpanOne()
    ensures Counted([PROBE_1, PROBE_2], 1, CLIENT) == 1
  {
    assert [PROBE_1, PROBE_2][..1] == [PROBE_1];
    assert [PROBE_1][..0] == [];
    assert Counted([PROBE_1], 1, CLIENT) == 1;
  }

  /** The report of that bucket says nothing was sent, although one probe was counted and lost. */
  lemma RepairedBucketReportedEmpty() returns (s: State)
    ensures Reachable(true, s) && |s.reports| == 1 && s.reports[0].fixed
    ensures s.reports[0].totals == Totals(0, 0, 0) && Counted(s.hist, s.reports[0].id, CLIENT) == 1
  {
    ReporterReads();
    var before := Reading(ReadEntries(0, FIGURES, Pair(1, 2), 1));
    var r := FIGURES.(table := Some(TableInput(Pair(1, 2), 1, map[], {})));
    s := before.(reports := [r], reporter := Finish(0));
    assert [] + [r] == [r];
    Next(true, before, RunReporter(0), s);
    OneProbeInSpanOne();
  }
}
