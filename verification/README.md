# nettools: verified model

nettools is a set of network probing tools. This project models their protocol and bookkeeping logic
in Dafny and proves what it promises, or exactly when it holds. Sockets, checksums and text output are
not modelled; packets are delivered byte strings or field records, and clocks are inputs.

## What is modelled

**The one-way loss protocol** (bitflip, baize, kuiniu). A client walks a deterministic odometer of port
pairs and puts into every packet how many probes the previous span held and which pair it began with.
The server files packets into time buckets, repairs the previous bucket on the first packet of the next,
and later replays the odometer to name the lost pairs.

- `Odometer`, `SpanClient`, `SpanHistory`: the odometer, the send loop's state, and what a history of
  probes says about each span. `SendLoop` is the loop over the per-peer maps.
- `BucketStore` gives every store operation as a function on values; `Buckets` is the mutable store,
  each method proved against its function; `StoreSections` cuts every operation at its locks and lets any
  number of callers interleave, over the bucket objects of `BucketHeap`; `StatTable` and `Servers` are the per-client tables and the
  two servers' packet handlers; `SonarCodec`, `KuiniuCodec` and `ByteOrder` the packets.
- `Protocol` puts client, network, handlers and reporter together as one step system. Every lock section
  is one step, `put`, `receivedAndFix` and the loss table being several; bucket objects have identity, so
  a handler may hold one that has meanwhile been reported and removed. `ProtocolInvariant` and
  `ProtocolSafety` hold the invariant, `ProtocolTheorems` what follows from it, `ProtocolRefinement` and
  `ReporterRefinement` the connections to `BucketStore` and `Reporting`, `HandlerRefinement` the one to
  the handlers on bytes, `ProtocolTables` which reports carry a loss table, `ProtocolWitness` and
  `ProtocolRuns` concrete runs.
- `BucketStats`, `Aggregation`, `LossPorts`, `PortKeys`: the statistics of a bucket. `Reporting` is the
  reporting state machine over any sequence of store operations, `UdpStats` the object that implements it.

**Packet filters.** `Bpf` is an interpreter for classic BPF; `Filters` and `PortFilters` hold the
hand-assembled programs, the predicates they compute, and the split of a port range among readers.

**Echo protocol of kuiniu nodes.** `Echo` is a network of nodes in any role under loss, duplication and
reordering; the handler on bytes (`KuiniuServer`) refines it.

**Scanner.** `Lidar` and `LidarScanner`: numbering, port rotation and crediting of replies.

**Smaller walks.** `ExtHeaders` (IPv6 extension headers), `ProbeIdentity` (traceroute's tags and reply
matching), `Cidr` (address expansion).

## Where the code does not do what it says

Each of these is a proved statement, with the exact condition under which the code is right.

- A port range ending at 65535 breaks the odometer; otherwise it is one cycle (`Odometer.SingleCycleIff`).
- README.md:147 promises the server can reconstruct every pair of the previous span. The server advances
  before it counts, so its replay is one step late: right exactly when the number of pairs divides the
  number of probes (`Odometer.ReplayExactIff`).
- A measured round-trip time of -1, which two clocks can give, reads as "no answer": a probe that arrived
  is reported lost. The loss and the loss table are right exactly when no arrival holds -1, the table also
  needing the number of pairs to divide the number of probes (`ProtocolTheorems.FixedReportsAreExact`,
  `ProtocolTheorems.LossTableExactIff`, `ProtocolRuns.MeasuredMinusOneReportedLost`).
- A repaired bucket without entries is reported as zero sent, although the whole span was lost
  (`ProtocolTheorems.FixedReportsAreExact`, `ProtocolWitness.RepairedBucketReportedEmpty`).
- kuiniu's handler records no ports, so its table names every replayed probe as lost: right exactly for a
  span of which nothing arrived and whose count the number of pairs divides
  (`ProtocolTheorems.LossTableWithoutPortsIff`, `ProtocolRuns.TableWithoutPortsNamesLoss`).
- The delay is not applied to the first report, nor after a stale bucket was skipped: it is kept whatever
  the time of the call exactly when nothing fresh is stored, or reporting has begun and the oldest bucket
  is not stale (`Reporting.DelayKeptIff`).
- The average round-trip time is right exactly while the sum fits in 63 bits (`Aggregation.AverageExactIff`).
  The scanner records the clock itself as the time, so six answers in one bucket already exceed that
  (`Aggregation.SixSynAcksOverflow`).
- A bucket with a negative identifier makes the store forget its oldest bucket: the minimum stays right
  exactly unless a new bucket is created behind a negative one (`BucketStore.MinStaysIff`), and the search
  after a removal is right for every map order exactly with at most one bucket or no negative identifier
  (`BucketStore.SearchRightIff`).
- A reply handled before its send was recorded gives the same store exactly when both fall into the same
  bucket; otherwise the entry is split in two (`BucketStore.EarlyReplyIff`, `Lidar.EarlyAnswerSplits`).
- The scanner's filter agrees with its own check, and its ports rotate, exactly when the upper bound
  fits in 16 bits (`Filters.FilterAgreesIff`, `Lidar.RotationIff`); otherwise the port never changes,
  unless the range begins at 65535 (`Lidar.StaysOnFirstPort`).
- sonar's filter lets packets of other protocols through by protocol number; the socket only delivers UDP
  (`PortFilters.PortRangeFilterRightIff`).
- kuiniu's self-echo guard compares text: a node whose own address is not written canonically answers
  itself for ever (`Echo.TrafficDiesOutIff`, `Echo.MappedAddressNeverDiesOut`). Its client credits echoes
  by remote address: right exactly when pairs whose probes come back share none (`Echo.EchoesCreditedIff`).
- An extension header with length byte 255 counts as length zero: the walk may never end
  (`ExtHeaders.DivergesIff`), and headers of given forms are parsed right whatever they contain exactly
  when no length byte is 255 (`ExtHeaders.ParseRightIff`).
- Expanding a single-host mask lists every other IPv4 address (`Cidr.SingleHostListsAll`).

## Model

| member | source | states |
|---|---|---|
| Machine.GoDivTruncates | stat/bucket.go:61 | Go's division for every dividend: the quotient has the dividend's sign or is zero, and its size times the divisor is at most the dividend's size and misses it by less than one divisor |
| Machine.WrapI64Congruent | stat/bucket.go:356 | a 64-bit sum differs from the true one by a multiple of 2^64 |
| Odometer.NextIsSuccessor | stat/stat.go:63-73 | with both maxima at most 65534, one step is +1 modulo the number of pairs on the row-major index |
| Odometer.SingleCycleIff | stat/stat.go:63-73 | every pair's successor is the next one, for all pairs, exactly when neither maximum is 65535 |
| Odometer.UsesPerPair | stat/stat.go:61-73 | any n consecutive probes use each pair floor or ceiling of n / period times, and which |
| Odometer.FullPeriodUsesEachOnce | stat/stat.go:61-73 | a whole period uses each pair once and no other pair |
| Odometer.ReplayIsShifted | stat/sender.go:180-185 | the replayed multiset plus the first pair is the sent multiset plus the pair after the last |
| Odometer.ReplayExactIff | stat/sender.go:180-185 | the replay equals what was sent exactly when the period divides the number of probes |
| Odometer.ReplayMissesSingleProbe | README.md:147 | one probe in a span with the default ranges is replayed as a different pair |
| SpanClient.SendKeepsClientOk | sonar/client/client.go:212-232 | every pass keeps: numbers and pairs follow the history, counters and first pair are those of the current span, every probe reports the previous span's count and first pair |
| SpanClient.FirstProbeReportsRate | sonar/client/client.go:189-224 | the very first probe reports the configured rate and the first ports of the ranges |
| SendLoop.PackRoundTrip | sonar/client/client.go:105-112 | both ports in one word, two-sided inverse |
| SendLoop.Sender.Count | sonar/client/client.go:213-232 | on the per-peer maps: one peer's share steps as the loop state does, the packet's fields are the new state's, other peers are untouched |
| SendLoop.Sender.Pass | kuiniu/client/client.go:188-219 | the same, with the peer's statistics updated as the fate of the send demands and no other peer's |
| SendLoop.Sender.Round | sonar6/client/client.go:259-301 | one round over the peers in any order: those visited are counted once and recorded by their fates, no other is touched, and it ends early exactly at a limit |
| SendLoop.FailedWriteLeavesNoTrace | sonar/client/client.go:246-252 | delete after a failed write undoes put, but for an empty bucket |
| SendLoop.WrittenProbeIsRecorded | sonar/client/client.go:246 | a written probe with a new number is in the bucket of its time unanswered, client port and server port where they belong, and nothing else is changed |
| SendLoop.UnsentProbeIsNotRecorded | sonar/client/client.go:232-244 | a probe that could not be encoded or met a limit leaves the store as it was |
| SpanHistory.SeqsCard | sonar/client/client.go:213-230 | a span's sequence numbers are as many as its probes |
| SpanHistory.PairsAreRun | sonar/client/client.go:213-230 | the pairs used in a span are the odometer's run from its first pair |
| BucketStore.PutEffect | stat/bucket.go:60-75 | the one entry written, field by field, a recorded answer kept; every other entry, bucket and field as before |
| BucketStore.DeleteEffect | stat/bucket.go:78-88 | the number is gone from its bucket, if that is there, and nothing else changes |
| BucketStore.ReceivedEffect | stat/bucket.go:95-125 | the entry credited, in the current bucket, else the previous one, else new and without ports; nothing else changes |
| BucketStore.ReceivedRSTEffect | stat/bucket.go:129-156 | the same for a reset |
| BucketStore.ReceivedAndFixEffect | stat/bucket.go:162-192 | the entry, the mark, and the previous bucket repaired exactly by a bucket's first arrival that reports a count |
| BucketStore.RemoveEffect | stat/bucket.go:205-218 | the bucket is gone, the others are as before, and so is the minimum unless it was that bucket's |
| BucketStore.BucketSpans | stat/bucket.go:61 | from the epoch on a bucket holds the timestamps of one span, its start included and its end excluded |
| BucketStore.MinOkApply | stat/bucket.go:60-192 | for non-negative bucket ids every recording operation keeps minID -1 on empty and least otherwise, and adds at most its own bucket |
| BucketStore.MinOkRemove | stat/bucket.go:205-218 | so does remove |
| BucketStore.OldestIsLeast | stat/bucket.go:195-202 | oldest is the true oldest bucket, and nil exactly on an empty store |
| BucketStore.MinStaysIff | stat/bucket.go:64-70 | an operation keeps the minimum right exactly when it creates no bucket, or creates it in an empty store, without negative ids, or in front of all others |
| BucketStore.SearchRightIff | stat/bucket.go:210-215 | the search finds the least in every map order exactly with at most one bucket or no negative id |
| BucketStore.NegativeTimestampBreaksMin | stat/bucket.go:68-70 | a concrete run with a negative id after which the minimum is wrong |
| BucketStore.PutReceivedCommute | stat/bucket.go:95-125 | put and received of one number in the same bucket commute, unless the previous bucket holds it |
| BucketStore.PutReceivedRSTCommute | stat/bucket.go:129-156 | the same for a reset |
| BucketStore.EarlyReplyIff | stat/bucket.go:95-125 | a reply before its put, in the same bucket or the next: the orders agree exactly in the same bucket |
| Buckets.Buckets.Put | stat/bucket.go:60-75 | the mutable store's new state is the store function of the old one |
| Buckets.Buckets.Delete | stat/bucket.go:78-88 | the same for delete |
| Buckets.Buckets.Received | stat/bucket.go:95-125 | the same for received, current bucket first, then the previous one |
| Buckets.Buckets.ReceivedRST | stat/bucket.go:129-156 | the same for a reset |
| Buckets.Buckets.ReceivedAndFix | stat/bucket.go:162-192 | the same for receivedAndFix with its repair of the previous bucket |
| Buckets.Buckets.Oldest | stat/bucket.go:195-202 | the bucket under minID, or nil |
| Buckets.Buckets.FindMin | stat/bucket.go:210-215 | the result is that of the search in some order of the keys, and the least when none is negative |
| Buckets.Buckets.Remove | stat/bucket.go:205-218 | the bucket is gone; the minimum is kept, or searched when it was removed, and is the least of the rest when none is negative |
| StoreSections.MinimumAlwaysRight | stat/bucket.go:60-218 | in every interleaving of the lock sections of put, delete, received, receivedRST, receivedAndFix and remove, after each section minID is -1 exactly on an empty store and otherwise the least, so oldest is right |
| StoreSections.SectionsAreOperation | stat/bucket.go:60-192 | the sections of each operation, run without interruption, are its store function |
| ProtocolSafety.StepKeepsInv | stat/bucket.go:162-192 | every step of client, network, handlers and reporter keeps the invariant |
| ProtocolSafety.ReachableInv | sonar/server/server.go:114-134 | the invariant holds in every reachable state, in any interleaving of lock sections and for any measured times |
| ProtocolTheorems.FixedBucketsAreExact | stat/bucket.go:179-191 | a bucket marked fixed holds exactly the number of probes the client counted in that span, and its first pair |
| ProtocolTheorems.FixedReportsAreExact | stat/bucket.go:382-405 | a report of a fixed bucket gives the right count exactly when it has entries; then received is at most sent, and the loss is the number of probes that never arrived, each once, exactly when no arrival holds -1 |
| ProtocolTheorems.ReportsIncrease | stat/sender.go:109-159 | no span is reported twice and reports come in order |
| ProtocolTables.RepairedReportsHaveTables | stat/sender.go:164-174 | in every reachable state, with both port ranges below 65535, a report of a repaired span that was handed over carries a loss table |
| ProtocolTheorems.LossTableIsShifted | stat/sender.go:187-208 | with ports put first, a pair's entry is its probes without an answer, minus one for the span's first pair, plus one for the pair after its last, at least zero |
| ProtocolTheorems.LossTableExactIff | stat/sender.go:164-209 | every pair's entry is its probes that never arrived exactly when the period divides the span's probe count and no arrival holds -1 |
| ProtocolTheorems.LossTableWithoutPorts | kuiniu/server/server.go:169-173 | without put the table is the whole replay |
| ProtocolTheorems.LossTableWithoutPortsIff | kuiniu/server/server.go:169-173 | which is right exactly when nothing of the span arrived and the period divides its count |
| ProtocolRuns.MeasuredMinusOneReportedLost | sonar/server/server.go:134 | a reachable state whose report calls the only probe of a span lost although it arrived |
| ProtocolRuns.TableWithoutPortsNamesLoss | kuiniu/server/server.go:169-173 | a reachable state in which nothing was lost and the table names a pair never used |
| ProtocolWitness.RepairedBucketReportedEmpty | stat/bucket.go:327-329 | a reachable state whose report of a fixed bucket says zero sent for a span of one probe |
| ProtocolRefinement.PutIsTwoSections | stat/bucket.go:60-75 | the two lock sections of put, run together, are the store's put |
| ProtocolRefinement.RecordOnlyIsReceivedAndFix | stat/bucket.go:162-179 | the recording section is receivedAndFix when it does not repair |
| ProtocolRefinement.RepairCompletesReceivedAndFix | stat/bucket.go:179-191 | the repairing sections complete receivedAndFix |
| HandlerRefinement.SonarHandlerIsSections | sonar/server/server.go:114-134 | on the bytes of a probe, the server's handler leaves in the sender's store what the protocol's handler sections, put first, leave when run without interruption |
| HandlerRefinement.KuiniuHandlerIsSections | kuiniu/server/server.go:140-174 | the same for kuiniu's handler, which does not put and measures no time, for any tail |
| ReporterRefinement.CallIsStatOnce | stat/sender.go:109-159 | the reporter's sections, run without interruption from an idle reporter, are one call of the reporting machine |
| PortKeys.ReadKey | stat/bucket.go:359-367 | a key is the source port in decimal, a dash and the destination port in decimal: reading it gives the pair back |
| PortKeys.KeyInjective | stat/bucket.go:359-367 | no two pairs share a "src-dst" entry |
| Aggregation.ClientStat | stat/bucket.go:323-380 | in any order of the entries: sent, received, synack and rst, loss, both per-pair tables with their totals, one destination for each source port, the maximum and the wrapped average |
| Aggregation.TalliesMean | stat/bucket.go:356-369 | an entry of the loss table counts the pair's entries without an answer, one of the flip table its flipped answers |
| Aggregation.MaxMeans | stat/bucket.go:362-364 | the maximum is no less than any recorded time and is one of them, or zero |
| Aggregation.AverageTruncates | stat/bucket.go:376-378 | for every sum that fits in 64 bits, negative ones included, the average has the sum's sign or is zero, and its size times the count is at most the sum's and misses it by less than the count |
| Aggregation.NegativeAverage | stat/bucket.go:409-411 | times of -15 and -10 average to -12 |
| Aggregation.AverageIsFloorOfMean | stat/bucket.go:376-378 | for non-negative times the average is the floor of the true mean and at most the maximum |
| Aggregation.AverageExactIff | stat/bucket.go:356-378 | the average is that floor exactly when the sum is below 2^63 |
| Aggregation.SynAckAverageIff | lidar/scanner.go:237-239 | the average of n SYN-ACKs recorded at one time is right exactly while n times the clock is below 2^63 |
| Aggregation.SixSynAcksOverflow | lidar/scanner.go:237-239 | six in one bucket already give a wrong average |
| LossPorts.ServerStat | stat/bucket.go:382-413 | the server's totals in any order of the entries, with the clamp |
| BucketStats.ServerTotalsMean | stat/bucket.go:382-405 | sent is the client's count once known, else the entries; received are those with a time; the loss is the difference, never negative |
| LossPorts.ExpectedCounts | stat/sender.go:180-185 | the replay loop counts the replayed multiset |
| LossPorts.ReceivedCounts | stat/sender.go:187-194 | the entry loop counts the answers of each pair |
| LossPorts.ComputeServerLossPorts | stat/sender.go:164-209 | for a repaired span of at least one probe with a start port that is not zero, each pair's entry is how often the replay expects it beyond its answers, and each source port with a loss names one lost destination; otherwise there is no table |
| LossPorts.StartInRangeIsKnown | stat/sender.go:172-174 | a start pair in the configured ranges counts as known, so its span has a table |
| Reporting.StatOnceEffect | stat/sender.go:109-159 | a call reports at most the oldest fresh bucket, and drops only stale ones besides |
| Reporting.DelayRespected | stat/sender.go:113-116 | once reporting has begun and the oldest bucket is fresh, it is reported exactly when its start plus the delay has passed |
| Reporting.DelayKeptIff | stat/sender.go:113-125 | no call at any time reports a bucket younger than the delay, exactly when nothing fresh is stored, or reporting has begun and the oldest bucket is not stale |
| Reporting.DelaySkippedAfterStale | stat/sender.go:118-125 | a concrete book in which a stale bucket lets a too young one be reported |
| Reporting.DelayIgnoredAtFirst | stat/sender.go:113-116 | the first call reports whatever the delay |
| Reporting.RunsAreOk | stat/sender.go:109-159 | over any sequence of operations and calls the cached minimum is right and reported ids strictly increase |
| Reporting.FreshBucketsAreReported | stat/sender.go:118-158 | over any run a fresh bucket stays fresh until it is reported |
| Reporting.NewerBucketsSurvive | stat/sender.go:118-158 | a bucket disappears only once its id is at most the last reported one |
| Reporting.ReportsGrow | stat/sender.go:130 | the last id and the list of reports only grow |
| Reporting.RecreatedIsNeverReported | stat/sender.go:118-125 | after a report no id at or below it is reported again, recreated buckets included |
| UdpStats.UdpStat.StatOnce | stat/sender.go:109-159 | the object's call is the reporting machine's, the skip loop ends, and what is sent is right for the bucket reported: counts, average, maximum and all tables |
| SonarCodec.Encode | sonar/codec/packet.go:27-43 | the buffer written in place is the specified packet, at least 32 bytes long |
| SonarCodec.DecodeEncoded | sonar/codec/packet.go:27-58 | decoding an encoded packet gives every field back, negative times included, and it is valid |
| SonarCodec.EncodeDecoded | sonar/codec/packet.go:48-67 | encoding a valid packet's fields with its tail gives the same bytes |
| SonarCodec.IntactIff | sonar/server/server.go:116-128 | a packet of the configured length passes the bit-flip check exactly when the client builds it |
| SonarCodec.FlippedIff | sonar/server/server.go:116-118 | a bit flip is seen exactly in a packet of the configured length whose tail is not the salt of its number |
| SonarCodec.WireFormat | sonar/codec/packet.go:17-43 | which bytes hold which field, high byte first |
| Salts.SaltBytes | util/salts.go:19-55 | the bytes of the four patterns |
| KuiniuCodec.Encode | kuiniu/codec/codec.go:19-58 | the buffer written with a running offset is the specified packet |
| KuiniuCodec.DecodeEncoded | kuiniu/codec/codec.go:73-101 | every field comes back, addresses cut or filled to four bytes |
| KuiniuCodec.RoundTripIff | kuiniu/codec/codec.go:19-101 | the header comes back unchanged exactly when both addresses have four bytes |
| KuiniuCodec.EncodeDecoded | kuiniu/codec/codec.go:73-110 | encoding a valid packet's fields with its tail gives the same bytes |
| KuiniuCodec.IntactIff | kuiniu/server/server.go:152-156 | a packet of the configured length passes the bit-flip check exactly when a client builds it |
| KuiniuCodec.FlippedIff | kuiniu/server/server.go:152-156 | a bit flip is seen exactly in a packet of the configured length whose tail is not the salt of its number |
| KuiniuCodec.WireFormat | kuiniu/codec/codec.go:19-58 | which bytes hold which field |
| StatTable.Table.GetOrCreate | sonar/server/server.go:138-158 | looks a client up or registers an empty store; other clients are untouched |
| StatTable.Table.Prepare | sonar/server/server.go:61-68 | the configured clients start with empty stores |
| StatTable.Table.Do | stat/sender.go:211-227 | an operation on one client's store changes that store alone |
| SonarServer.Server.HandlePacket | sonar/server/server.go:106-134 | a valid datagram is echoed unchanged and recorded by put, then receivedAndFix; any other is ignored |
| SonarServer.IntactProbeIsRecorded | sonar/server/server.go:114-134 | an intact probe is recorded with the client's own pair, number, time and report |
| SonarServer.IntactProbeIsHandled | sonar/server/server.go:132-134 | on any table, an intact probe is put and then receivedAndFix on its sender's store, with the probe's own fields |
| SonarServer.IntactProbeIsStored | sonar/server/server.go:132-134 | afterwards the sender's bucket holds the probe's number with its pair, time and measured time, the previous bucket is repaired by a first arrival, and nothing else in the table changed |
| SonarServer.DatagramIsHandled | sonar/server/server.go:114-134 | the same for every valid datagram with the fields decoded, marked as flipped exactly when its tail is not its salt |
| SonarServer.OthersChangeNothing | sonar/server/server.go:106-112 | a datagram that is too short or has another magic changes no store |
| SonarServer.PeersDoNotInterfere | sonar/server/server.go:132-134 | over any run a client's store depends on its own datagrams alone |
| KuiniuServer.Server.HandlePacket | kuiniu/server/server.go:136-183 | packets from this node's own addresses are skipped; others are recorded and echoed to the payload's source with ports exchanged |
| KuiniuServer.HandlerRefinesEcho | kuiniu/server/server.go:140-183 | on bytes the handler echoes what the echo protocol echoes, to the same address and ports |
| KuiniuServer.ProbeIsRecorded | kuiniu/server/server.go:152-174 | on any table, a probe of another node is recorded under its source address with its number, time, own report, no measured time, and a flip exactly when its tail is not the salt |
| KuiniuServer.PacketIsHandled | kuiniu/server/server.go:140-174 | the same for every valid packet of another node, of any length |
| KuiniuServer.OthersChangeNothing | kuiniu/server/server.go:136-149 | a packet that is short, has another magic or started here changes no store |
| Echo.TextInjective | kuiniu/server/server.go:146 | different addresses have different texts |
| Echo.ReadText | kuiniu/server/server.go:146 | the text is four decimal numbers between dots: reading it gives the address back |
| Echo.ReachableOk | kuiniu/server/server.go:144-183 | in every reachable state a packet is an original probe or an echo addressed to its payload's source |
| Echo.NoEchoIsEchoedIff | kuiniu/server/server.go:142-149 | no echo is ever echoed exactly when every probing address that gets echoes is in the local set wherever they arrive |
| Echo.CanonicalGuards | kuiniu/server/server.go:46-49 | canonically written addresses suffice |
| Echo.TrafficDiesOutIff | kuiniu/server/server.go:142-183 | after clients and duplication stop, at most 2·probes + echoes steps remain, exactly under the same condition |
| Echo.MappedAddressNeverDiesOut | kuiniu/server/server.go:46-49 | a node that writes its address in IPv4-mapped form keeps traffic alive for ever |
| Echo.FindPeer | kuiniu/client/client.go:267-275 | the loop finds the first pair with that remote address |
| Echo.EchoesCreditedIff | kuiniu/client/client.go:267-275 | in every reachable state an echo deliverable to a client is credited to the pair that sent the probe, exactly when no pair whose probes come back shares its remote address with an earlier one |
| Filters.ProbeFilterIsPredicate | lidar/scanner.go:303-332 | the 16 instructions accept a frame exactly when its ports pass, for any IPv4 header length |
| Filters.FilterAgreesIff | lidar/scanner.go:217-222 | filter and check agree on every frame exactly when srcPort + portCount is at most 65535 |
| PortFilters.PortRangeFilterIsPredicate | sonar/client/client.go:397-409 | the exact meaning of the program, the misplaced jump included |
| PortFilters.PortRangeFilterRightIff | sonar/client/client.go:400 | it does what it is for exactly on packets that are UDP, too short, or of a protocol numbered above maxPort |
| PortFilters.InnerPortFilterIsPredicate | evr/agent/agent.go:291-302 | accepts exactly UDP with the TOS and destination port |
| PortFilters.PortRangeFilter6IsPredicate | sonar6/client/client.go:188-200 | accepts exactly destination ports in range |
| PortFilters.ServeRead | sonar/client/client.go:283-306 | the loop ends and cuts the range into at most 8 consecutive non-empty ranges, all but the last of an eighth of the ports rounded up, or of one port each |
| PortFilters.ExactlyOneReader | sonar/client/client.go:297-303 | a UDP packet is accepted by exactly one reader if wanted and by none otherwise |
| ExtHeaders.WalkIsLoop | sonar6/codec/simple.go:104-130 | the specified outcome is the loop's |
| ExtHeaders.EndsAtOnceIff | sonar6/codec/simple.go:55-66 | the walk ends behind the fixed header, at offset 40, exactly for next headers 6, 17, 58 and 59 |
| ExtHeaders.DivergesIff | sonar6/codec/simple.go:74-80 | the loop never ends exactly when it reaches a header of length byte 255 whose next header is standard again |
| ExtHeaders.ShortHeadersTerminate | sonar6/codec/simple.go:104-130 | without a visited length byte 255 it ends |
| ExtHeaders.DoneIsAligned | sonar6/codec/simple.go:112-130 | success leaves a final protocol and an offset within the data, a multiple of eight |
| ExtHeaders.RunTurns | sonar6/codec/simple.go:96-131 | the loop for any number of turns, on any input, is the iterated turn |
| ExtHeaders.ParseExtensionHeaders | sonar6/codec/simple.go:96-131 | where it ends, the loop computes the specified outcome |
| ExtHeaders.ParseRightIff | sonar6/codec/simple.go:83-131 | headers of given kinds and second bytes are parsed to the final protocol and 40 plus their lengths, whatever their bodies and the payload, exactly when every length fits in eight bits |
| ExtHeaders.ParseBuiltIff | sonar6/codec/simple.go:83-131 | for a single packet the same, unless a fragment header stands right behind one of length byte 255 |
| ProbeIdentity.TagFields | traceroute/tracer.go:178-235 | the fields of a probe on the wire: hop and number in a byte each, or the ports, the destination moving with the hop unless fixed or for TCP |
| ProbeIdentity.EphemeralInjective | traceroute/tracer.go:246-248 | injective in hop limit and probe below 16, for every process id, across the 16-bit wrap |
| ProbeIdentity.TagsUniqueIff | traceroute/tracer.go:169-235 | for every process id all probes carry different tags exactly up to a number of queries given per configuration |
| ProbeIdentity.MatchesOnlyItsProbe | traceroute/tracer.go:254-399 | an Echo Reply or an error quoting header and 8 bytes matches the probe that caused it and no other of the run |
| ProbeIdentity.OthersMatchNothing | traceroute/tracer.go:270-318 | a reply of any other kind, an Echo Reply to a UDP or TCP probe, and a direct reply from elsewhere match no probe |
| ProbeIdentity.QuotedV4 | traceroute/tracer.go:346-399 | which bytes of a quoted IPv4 packet are compared |
| ProbeIdentity.QuotedV6 | traceroute6/tracer.go:345-385 | which bytes of a quoted IPv6 packet are compared |
| ProbeIdentity.ShortQuoteMatchesAll | traceroute6/tracer.go:333-400 | a shorter quote matches every probe to its destination |
| ProbeIdentity.TcpReplyMatchesAll | traceroute/tracer.go:272-279 | a direct TCP reply matches every probe to that destination |
| Lidar.AnsweredIff | lidar/scanner.go:224 | a reply names its own number exactly below 2^32 |
| Lidar.RotationIff | lidar/scanner.go:156-159 | rounds use the ports in turn exactly when the bound fits in 16 bits or there is one port |
| Lidar.StaysOnFirstPort | lidar/scanner.go:156-159 | beyond that bound every round uses the first port, unless that is 65535 |
| Lidar.StepKeepsInv | lidar/scanner.go:137-160 | sends, failed sends, rounds, any segments and reports keep numbering, ports and log right |
| Lidar.StepKeepsStores | stat/bucket.go:95-156 | a number stays in its own bucket as long as its own answers come after it was recorded, whatever else arrives |
| Lidar.ReplyCreditsItsProbe | lidar/scanner.go:224-242 | in every reachable state an answer within one span updates exactly its probe's entry and creates none |
| Lidar.OthersChangeNothing | lidar/scanner.go:217-243 | a segment that is neither SYN-ACK nor reset, or has other ports, changes no store |
| Lidar.SendIsRecorded | lidar/scanner.go:139-153 | a sent SYN is in its target's store alone, unanswered, with its ports and the time of its round; a failed one is nowhere |
| Lidar.EarlyAnswerSplits | lidar/scanner.go:147-152 | an answer handled between send and record, across a bucket boundary, leaves two entries |
| Lidar.AnswersPassFilter | lidar/scanner.go:303-332 | in every reachable state the answer to a recorded SYN passes the filter |
| LidarScanner.RoundIsSends | lidar/scanner.go:139-154 | a round of the scanner is a run of the machine's sends |
| LidarScanner.Scanner.Round | lidar/scanner.go:137-160 | one number per target, failed ones included; only sent ones are recorded and counted; the port rotates |
| LidarScanner.Scanner.ProcessReply | lidar/scanner.go:189-243 | the reply handler changes the table as the machine's reply does |
| Cidr.IncrementIP | cmd/mping/main.go:213-223 | the loop computes the successor with carry |
| Cidr.SuccessorAddsOne | cmd/mping/main.go:213-223 | which is +1 modulo the address space, for any length |
| Cidr.SpanOfMask | cmd/mping/main.go:189-197 | for any mask, broadcast is network plus the open bits, and the address lies between |
| Cidr.NetworkOfPrefix | cmd/mping/main.go:189-193 | for every prefix length the network address is the address without its host bits |
| Cidr.To4Iff | cmd/mping/main.go:181-184 | four bytes and the IPv4-mapped form are taken for the address, nothing else |
| Cidr.ExpandCIDR | cmd/mping/main.go:179-210 | the loop ends and lists the specified addresses; other families give nothing |
| Cidr.HostsExactly | cmd/mping/main.go:179-210 | for prefixes up to 31 exactly the addresses strictly between, ascending, 2^(32-p)-2 of them |
| Cidr.HostsAreSubnet | cmd/mping/main.go:179-210 | these are the addresses with the same leading bits whose host bits are neither all zero nor all one |
| Cidr.NumberedInjective | cmd/mping/main.go:207 | and as texts they are all different |
| Cidr.SingleHostListsAll | cmd/mping/main.go:199-208 | prefix 32 lists every other address |

## Left out

- Sockets, deadlines, rate limiters, TOS and buffer setup, hardware timestamps, checksums and packet
  building or dissection: calls with no local logic. The fields they return are taken as given.
- Command lines, JSON, defaults, log and text output, DNS and HTTP enrichment, ping loops: plumbing.
- SpanClient.SendKeepsClientOk: needs a client clock that does not run back, timestamps of at least one span, and fewer
  than 2^32 probes a span, as do the theorems about runs of the protocol.
- BucketStore.MinOkApply: only for bucket identifiers that are not negative; `BucketStore.MinStaysIff` says when others do harm.
- Aggregation.ClientStat: loss rates, being floating point, are left to the exact counts.
- LossPorts.ComputeServerLossPorts: works on one snapshot of the bucket; that the code reads the span and the entries in two
  sections is modelled in `Protocol`.
- UdpStats.UdpStat.StatOnce: the display time of a bucket and the nil sender are not modelled.
- Buckets.Buckets.Put: runs without interruption, as do the other methods; interleaving at lock granularity is in
  `StoreSections` and, with client, network and reporter, in `Protocol`.
- StoreSections.MinimumAlwaysRight: for timestamps that are not negative.
- SendLoop.Sender.Round: which pass meets the count or time limit is an input.
- StatTable.Table.GetOrCreate: the double-checked lookup under two locks is one step.
- Echo.ReachableOk: packets reach only nodes that list their destination among the local addresses; receivers' port filters are
  those of `PortFilters`.
- ExtHeaders.ParseExtensionHeaders: requires that the walk ends, since a method cannot run for ever here; `RunTurns` is the loop
  on any input, and `DivergesIff` says when it does not end.
- ExtHeaders.ParseBuiltIff: a single packet with a fragment header right behind a length byte of 255 may come out right by its
  contents; `ParseRightIff` quantifies over them.
- ProbeIdentity.MatchesOnlyItsProbe: direct TCP replies are excluded, they identify no probe.
- Lidar.ReplyCreditsItsProbe: answers to this number come after it was recorded (`EarlyAnswerSplits` shows the other case), and
  the times of segments do not run back.
- traceroute's result lists (appendProbe, finalize), evr's peer lookup by embedded address, and the copies of the odometer
  in each package: one-branch facts or duplicates.
