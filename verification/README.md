# Verification of salias

Salias passes messages between processes through shared memory. This project models its ordered
channel and broadcast ring, and the engines that decide whether a build of it is acceptable: the
latency histogram, the acceptance run with its schedule, integrity verdict and cross-process
protocols, the benchmark checkers, and the statistics and schedulers of the comparison tools. Run
`dafny verify dfyconfig.toml` in this directory to check all proofs.

Protocols between processes are state machines: one event is one access to shared state, and the
theorems range over every sequence of events, so over every interleaving, failure point and
behaviour of the channel. Only OrderedChannel's Refresh stands for several loads: of positions that
grow, and with any result they could have had. Code that updates fields, arrays or counters in a
loop is a class or a method proved against a specification, and the specification's properties are
lemmas. The model keeps 64-bit wrap-around in the histograms, the payloads, the schedule and pacing;
Python's floats are exact reals.

## The modules

- OrderedFrames, CommitWatermark, OrderedChannel, OrderedWindow: the totally ordered many-producer
  channel, its watermark, and how wide its rings may be.
- FanoutRing, LaneScheduler, MpmcRing: the fixed-payload broadcast ring, the choice of lane in the
  many-producer rings, and the many-producer ring whose lanes are broadcast rings.
- SequenceCheck, Integrity, IntegrityVerdict, SubscriberCounts: the subscriber of the acceptance run,
  its verdict, and its counters and samples on any stream.
- Schedule, Backlog, ScheduleWords, Drain, ClockHandshake: the arrival schedule in exact numbers, the
  backlog read off it, both in 64-bit registers, the end of a run and the clock test.
- LatencyHistogram, BudgetHistogram, WorstConsumer: buckets, percentiles, merging and the budget.
- FastRingCheck, IpcPayload, StartBarrier, RingBarrier, Publishing, Pacing: the benchmark processes.
- Fisher, PermutationTest, ContextSwitch, AbbaOrder: the analysis scripts.
- Words, Bits, Samples, Combinatorics, PayloadPattern, Wrappers: arithmetic, bits, sorting and counting.

## Where the code and what is said or assumed about it differ

- acceptance.cpp line 677 says that the accepted rates keep the inverse of the schedule exact. They
  do so, where the registers hold the schedule, only if the nanoseconds between messages are whole:
  SelfTestPassesIff, InexactRate.
- The backlog subtraction at acceptance.cpp line 273 is not guarded. Where the registers hold the
  schedule, it goes below zero exactly for half-rates above 10^9 that exceed it by no divisor of
  10^9: BacklogInWordsIff, BacklogUnderflows.
- The command line accepts rates at which the registers of the schedule wrap, so that the count of
  arrivals goes back or the run is empty: RegistersHoldIff, ArrivalsGoBack, NoMessages.
- analyze_p32_multithread.py lines 156-160 take a percentile above the exact maximum for an error. A
  bucket's top can exceed the maximum: QuantilesSortedIff, MedianAboveMaximum.
- The guard of permutation_test asks for 6 + 6 groups and only counts 12. With any unequal arms the
  p-value can be zero: ObservedCountedIff, UnequalArmsGiveZero.
- The ring benchmark stores its start flag even when it has given up waiting because a worker failed.
  It has sent every child SIGTERM before that, so a worker may run early, until the signal lands:
  RingsStartIff, EarlyIsSignalled, RingsCanRunEarly. Such a run is reported as failed:
  SuccessMeansAllRan.
- The ABBA pattern alternates the engines by slot. The rotation of the cells undoes that for each
  cell until the cell wraps, and for good when the number of cells is a multiple of four, as with the
  default 24: KeepsIff, NeverAlternatesIff.
- The verifying consumer counts messages in total. The accepted stream is all complete streams if and
  only if no accepted message is beyond its producer's share: CompletedIsInterleaving,
  OneProducerCanFillTheTotal.
- The window test of the ordered channel looks at the ring capacity and not at the publication
  window, so it refuses some channels that would keep the order: RefusedThoughOrderedIff,
  RefusedThoughOrdered.
- commit of the ordered channel does not notice a claim that is committed twice: RecommitKeepsIff,
  RecommitStalls, StuckForGood.

## Model

| member | source | states |
|---|---|---|
| OrderedWindow.OrderedIff | src/core/channel/hybrid_mpsc.hpp:516-522 | for every publication window, every consumer keeps the total order over every run if and only if the frames the other rings may hold at once, (P - 1) times the effective capacity, are fewer than 2^24 |
| OrderedWindow.RefusedThoughOrderedIff | src/core/channel/hybrid_mpsc.hpp:336-344 | the test at creation refuses a channel that would keep the order over every run exactly when the product of the ring capacities reaches 2^24 and the product of the effective capacities does not |
| OrderedWindow.RefusedThoughOrdered | src/core/channel/hybrid_mpsc.hpp:336-344 | one such channel: two producers, rings of 128 MiB and a publication window of 64 KiB |
| OrderedWindow.CreationTestSuffices | src/core/channel/hybrid_mpsc.hpp:112-132 | a channel that passes the test at creation keeps the order over every run, whatever its window |
| OrderedWindow.CreationTestExactAtFullWindow | src/core/channel/hybrid_mpsc.hpp:112-132 | and where the window is the whole ring the test is exact |
| OrderedWindow.CrossedDelivery | src/core/channel/hybrid_mpsc.hpp:564-596 | where the other rings can hold a period, a run delivers the last ring's frame as number 0 |
| OrderedFrames.WindowFitsIff | src/core/channel/hybrid_mpsc.hpp:112-132 | the rounded quotient of the test means that there are rings and that the others together hold fewer than 2^24 frames |
| OrderedChannel.EveryRunIsOrdered | src/core/channel/hybrid_mpsc.hpp:627-748 | over every interleaving of claims, word-by-word writes, the two stores of each commit in any order of claims, looks, receives and word-by-word loads, for any number of producers and consumers, each consumer has been given the committed frames 0, 1, 2, ..., and what it has loaded of each out of the ring cells is a prefix of the payload, all of it exactly when the words loaded hold the bytes that the header says and no word more |
| OrderedChannel.PointsAtPayload | src/core/channel/hybrid_mpsc.hpp:564-596 | until its receiver publishes that it is done with it, the words a message points at are the committed payload, whatever is claimed and written meanwhile |
| OrderedChannel.RunKeepsInv | src/core/channel/hybrid_mpsc.hpp:564-596 | the invariant on rings, cells, watermarks and consumers survives every run |
| OrderedChannel.ReadsNextFrame | src/core/channel/hybrid_mpsc.hpp:564-596 | below the watermark it has seen, what a consumer reads out of the cells is the ring's next frame whole, header and payload as committed, as many words as hold the length in the header |
| OrderedChannel.OthersKept | src/core/channel/hybrid_mpsc.hpp:627-655 | a store into one claim leaves the cells of every other frame that a consumer may still read alone |
| OrderedChannel.ReceivesIffVisible | src/core/channel/hybrid_mpsc.hpp:830-861 | looking at a ring yields a frame exactly when that ring holds the expected frame below the watermark the consumer has seen, so the scan finds the expected frame as soon as it is visible and never another |
| OrderedChannel.MatchIsExpected | src/core/channel/hybrid_mpsc.hpp:564-578 | 24 equal low bits in the header read identify the expected frame |
| OrderedFrames.NextIsNear | src/core/channel/hybrid_mpsc.hpp:103-111 | the next frame of any ring is at most the other rings' capacities ahead of the one a consumer expects |
| OrderedChannel.VisibleIff | src/core/channel/hybrid_mpsc.hpp:531-542 | a frame is below its ring's watermark exactly when it and all frames before it in its ring are committed |
| OrderedChannel.EverythingGetsThrough | src/core/channel/hybrid_mpsc.hpp:830-861 | nothing is lost and nobody is stuck: from every reachable state in which all claims are committed, each consumer can take every frame left and load every word of it |
| OrderedChannel.PublishesMessage | src/core/channel/hybrid_mpsc.hpp:736-748 | a claim filled and committed without others in between holds exactly the words written, and is visible if and only if all frames before it in its ring are committed |
| OrderedChannel.ConsumedRingGrants | src/core/channel/hybrid_mpsc.hpp:1042-1060 | space comes back: when every consumer has taken all there is and flushes a ring, the next frame that fits the limit is claimed |
| OrderedChannel.DrainedRingGrants | src/core/channel/hybrid_mpsc.hpp:627-655 | back-pressure ends: when all consumers have published that they are done with a ring, a frame that fits the limit is claimed |
| OrderedFrames.WordsHoldBytes | src/core/frame/codec.hpp:32-46 | after the word of its header, the words a frame takes in its ring hold the bytes of its payload and no word more |
| OrderedFrames.HeaderParts | src/core/channel/hybrid_mpsc.hpp:141-164 | a packed header gives back the payload length and the low bits of the number, and has the flags BEGIN, END and COMMITTED |
| OrderedFrames.SequenceRoundTrip | src/core/frame/sequence.hpp:57-77 | splitting a 64-bit number into metadata and high bits keeps the flags, fits 32 bits and decodes to the same number |
| CommitWatermark.PublishKeeps | src/core/channel/hybrid_mpsc.hpp:531-542 | whatever the order of first commits, the watermark is the first position not committed and the waiting list holds exactly the committed positions beyond it, sorted with holes between; it moves exactly when the awaited span is committed |
| CommitWatermark.RecommitKeepsIff | src/core/channel/hybrid_mpsc.hpp:736-748 | a second commit of a claim is harmless exactly when the watermark has passed it or some waiting span begins with it |
| CommitWatermark.RecommitStalls | src/core/channel/hybrid_mpsc.hpp:531-542 | otherwise the list is spoilt: after a second commit of a waiting claim, a committed frame stays invisible whatever is committed after it |
| CommitWatermark.StuckForGood | src/core/channel/hybrid_mpsc.hpp:531-542 | once a waiting span begins below the watermark, no run of further commits beyond the watermark moves it |
| CommitWatermark.NoteKeeps | src/core/channel/hybrid_mpsc.hpp:224-255 | remembering a span, with all its merging cases, adds exactly its positions to the list and keeps it sorted and separated |
| CommitWatermark.NoteCovers | src/core/channel/hybrid_mpsc.hpp:224-255 | on any list of spans, however they overlap, remembering a span adds its positions and no others |
| CommitWatermark.AbsorbKeeps | src/core/channel/hybrid_mpsc.hpp:258-265 | swallowing the spans that follow the watermark changes no position and stops at the first hole |
| CommitWatermark.ProducerRing.NotePendingCommit | src/core/channel/hybrid_mpsc.hpp:224-255 | the in-place scan, merge and insertion refine the function whose effect NoteKeeps proves |
| CommitWatermark.ProducerRing.PublishContiguous | src/core/channel/hybrid_mpsc.hpp:531-542 | the in-place publication refines the function of PublishKeeps and stores the watermark for consumers only when it advances |
| FanoutRing.EveryRunDeliversPrefixes | src/core/ring/fast_spmc_ring.hpp:135-285 | over every word-by-word interleaving, with releases at any point of a copy, each consumer has received a prefix of everything committed, once and in order, of each message the words it had copied, which are the first ones, and all of it if it copied to the end; and the producer is never more than a lap ahead of any cursor |
| FanoutRing.StepRefinesQueue | src/core/ring/fast_spmc_ring.hpp:143-270 | every commit of a claim sends the slot's payload on an abstract bounded broadcast queue, every release that succeeds receives the copied words of the next message from it, and no other step changes it |
| FanoutRing.RunKeepsInv | src/core/ring/fast_spmc_ring.hpp:135-285 | the invariant on slots, cached cursor and outstanding reads survives every run |
| FanoutRing.ReadableIff | src/core/ring/fast_spmc_ring.hpp:215-230 | try_read answers Empty exactly when the consumer has taken all that is committed; an old lap is never mistaken for a new one |
| FanoutRing.ReadIsUntorn | src/core/ring/fast_spmc_ring.hpp:215-230 | while a read is outstanding the bytes it points at are the committed message |
| FanoutRing.UnreadStaysReadable | src/core/ring/fast_spmc_ring.hpp:215-230 | a message that can be read stays readable until this consumer releases it |
| FanoutRing.OnlyTheWriterWrites | src/core/ring/fast_spmc_ring.hpp:143-187 | between claim and commit the slot holds what the caller wrote and nothing else changes it |
| FanoutRing.BackPressureIsJustified | src/core/ring/fast_spmc_ring.hpp:143-159 | a claim is refused only if some published cursor was a whole capacity behind when the call began, whatever moves while the cursors are loaded |
| FanoutRing.GrantedHasRoom | src/core/ring/fast_spmc_ring.hpp:143-159 | while a claim is held every published cursor leaves room for one more message |
| FanoutRing.ClaimGrantedIff | src/core/ring/fast_spmc_ring.hpp:143-197 | an undisturbed try_claim is granted exactly when every published cursor leaves room, whatever was cached |
| FanoutRing.ClaimAnswers | src/core/ring/fast_spmc_ring.hpp:189-197 | try_claim answers after at most one load a consumer and one test |
| FanoutRing.CacheIsSlowest | src/core/ring/fast_spmc_ring.hpp:143-159 | a claim for which the cached cursor leaves room needs no load, and one that looks caches the slowest cursor, granted or not |
| FanoutRing.CaughtUpIsGranted | src/core/ring/fast_spmc_ring.hpp:143-159 | back-pressure ends: once every consumer has taken everything and flushed, the next call gets its claim |
| FanoutRing.TryPushCommitsIff | src/core/ring/fast_spmc_ring.hpp:174-184 | try_push commits exactly the message it is given if every published cursor leaves room, through the cached cursor or load_slowest, and nothing otherwise |
| FanoutRing.TryPopDelivers | src/core/ring/fast_spmc_ring.hpp:253-263 | with a message there, try_pop delivers that message and publishes the cursor |
| MpmcRing.EveryRunMerges | src/core/ring/fast_mpmc_ring.hpp:151-227 | over every interleaving of all producers and consumers, with releases at any point of a copy, what each consumer has taken is an interleaving of prefixes of all the lanes: from each producer every message committed up to some point, once and in order, of each the first words, and all of it if it was copied to the end |
| MpmcRing.NoLaneStarves | src/core/ring/fast_mpmc_ring.hpp:159-199 | if a consumer begins to look while a lane has a message for it, over every run it takes at most (P - 1) * batch messages of other lanes before one of that lane |
| MpmcRing.TryReadFinds | src/core/ring/fast_mpmc_ring.hpp:159-182 | an undisturbed try_read finds a message if and only if some lane has one, and then that of the first such lane from where the consumer stands |
| MpmcRing.ReleaseTakes | src/core/ring/fast_mpmc_ring.hpp:184-199 | a read can always be released, which takes the message, moves the schedule on and with publish shows it in the lane's cursor |
| MpmcRing.PopDelivers | src/core/ring/fast_mpmc_ring.hpp:211-222 | an undisturbed try_pop delivers the next message of the first ready lane whole and shows it in that lane's cursor |
| MpmcRing.PushCommitsIff | src/core/ring/fast_spmc_ring.hpp:174-184 | an undisturbed try_push on a lane commits exactly the message it is given, on that lane alone, if every consumer's cursor of the lane leaves room, and nothing otherwise |
| MpmcRing.FlushShows | src/core/ring/fast_mpmc_ring.hpp:200-210 | a flush between reads shows a lane's producer everything this consumer has taken from it |
| MpmcRing.RunKeepsInv | src/core/ring/fast_mpmc_ring.hpp:151-227 | the invariant joining every lane's ring with each consumer's own record survives every run |
| LaneScheduler.ReadyLaneIsRead | src/core/ring/fast_mpmc_ring.hpp:159-199 | no lane starves: a lane that stays ready is read among the next (P - 1) * batch + 1 messages, whatever the other producers do |
| LaneScheduler.BusyIsRoundRobin | src/core/ring/fast_mpmc_ring.hpp:184-199 | when all lanes are always ready the order is round robin by whole batches, so the bound is reached |
| LaneScheduler.WaitShrinks | src/core/ring/fast_mpmc_ring.hpp:159-199 | each message of another lane brings the lane strictly nearer its turn |
| LaneScheduler.LaneConsumer.TryRead | src/core/ring/fast_mpmc_ring.hpp:159-182 | the scan picks the first ready lane from where it stands, opens a batch only if none is open, and changes nothing when a read is outstanding or no lane is ready |
| LaneScheduler.LaneConsumer.Release | src/core/ring/fast_mpmc_ring.hpp:184-199 | release counts one message of the active lane, publishes its cursor only if asked and moves on at the end of the batch |
| LaneScheduler.LaneConsumer.FlushRelease | src/core/ring/fast_mpmc_ring.hpp:200-210 | after a flush every lane's published cursor equals what was consumed, although only dirty lanes are stored |
| IntegrityVerdict.VerdictIff | tools/hft_acceptance/acceptance.cpp:592-620 | over every stream an adversarial channel can deliver, the verdict passes if and only if each publisher's frames arrived word for word, once each, in order, on time and under distinct channel ids |
| IntegrityVerdict.FrameAcceptedIff | tools/hft_acceptance/acceptance.cpp:243-253 | the header and filler checks pass exactly for the frame a publisher would write with those header fields |
| IntegrityVerdict.FramesConserved | tools/hft_acceptance/acceptance.cpp:318-338 | every frame counts once: as foreign, or under its publisher as new, repeated or out of range |
| IntegrityVerdict.HandleUnblemished | tools/hft_acceptance/acceptance.cpp:318-346 | one delivery keeps a clean record exactly when it is beyond reproach; a blemish never heals |
| IntegrityVerdict.RunAgrees | tools/hft_acceptance/acceptance.cpp:318-346 | while the record is clean, the counters are those of the delivered sequence numbers |
| Integrity.SubscriberStats.OnMessage | tools/hft_acceptance/acceptance.cpp:318-346 | the handler, updating counters, bitmaps and histograms in place, refines the pure handler step |
| SubscriberCounts.SamplesAre | tools/hft_acceptance/acceptance.cpp:339-345 | over every stream, the k-th sample from the attempt is the receive time of the k-th measured frame less its word 3, and the k-th sample from the schedule the same less its word 2, where the measured frames are those in range with an attempt word, received before neither |
| SubscriberCounts.CountersAre | tools/hft_acceptance/acceptance.cpp:318-345 | over every stream, the subscriber counts all deliveries, the foreign ones, and the stamped frames in range that were received before their attempt or planned time |
| SubscriberCounts.TalliesAre | tools/hft_acceptance/acceptance.cpp:325-338 | over every stream, each publisher's counters are its frames, its wrong headers, filler words and contexts, its frames out of range or under another channel id than its first, and the detector run on its numbers in range |
| SubscriberCounts.FillerTellsApart | tools/hft_acceptance/acceptance.cpp:251-254 | a filler word belongs to one message, one publisher and one place |
| SubscriberCounts.CheckSeesEachField | tools/hft_acceptance/acceptance.cpp:148-151 | a header with any one field changed has another check word |
| Integrity.OnFrame | tools/hft_acceptance/acceptance.cpp:318-338 | the per-publisher part of the handler refines the accounting function |
| SequenceCheck.SequenceVerdictIff | tools/hft_acceptance/acceptance.cpp:605-611 | the sequence part of the verdict passes if and only if the stream is exactly 0, 1, ..., sent - 1 |
| SequenceCheck.CountersMean | tools/hft_acceptance/acceptance.cpp:169-181 | over every stream: unique is the size of the seen set, unique and duplicate add up to the stream, and high mark plus out-of-order equals gap positions plus unique |
| SequenceCheck.MissingPositions | tools/hft_acceptance/acceptance.cpp:169-181 | the positions below the high mark that never arrived number the gap positions less the late ones |
| SequenceCheck.NoGapNoDisorder | tools/hft_acceptance/acceptance.cpp:169-181 | a stream without a gap event has no out-of-order event and has seen everything below the high mark |
| SequenceCheck.EventsAre | tools/hft_acceptance/acceptance.cpp:169-181 | over every stream, gap events are the numbers that jump over one at least, one event however wide the gap, and out-of-order events are the numbers that come for the first time after a larger one |
| SequenceCheck.SequenceStats.Observe | tools/hft_acceptance/acceptance.cpp:169-181 | the update of the packed bitmap and the counters refines one step on a set, every index in bounds |
| SequenceCheck.SetBitAdds | tools/hft_acceptance/acceptance.cpp:170-174 | setting one bit of one 64-bit word adds exactly one number to the set the words stand for |
| LatencyHistogram.BucketGalois | tools/aeron_compare/latency_histogram.hpp:38-74 | a latency falls in bucket i or before exactly when it is at most i's upper bound |
| LatencyHistogram.UpperBoundRoundTrip | tools/aeron_compare/latency_histogram.hpp:38-74 | every bucket's top lies in that bucket |
| LatencyHistogram.BucketIndexMonotone | tools/aeron_compare/latency_histogram.hpp:38-51 | larger latencies never fall in earlier buckets |
| LatencyHistogram.BucketError | tools/aeron_compare/latency_histogram.hpp:38-74 | a bucket's top is at least the latency and exceeds it by less than 1/64 of it |
| LatencyHistogram.Record | tools/aeron_compare/latency_histogram.hpp:81-83 | recording increments the one bucket of the latency |
| LatencyHistogram.RecordKeepsCount | tools/aeron_compare/latency_histogram.hpp:81-83 | and keeps the array a faithful count of the samples |
| LatencyHistogram.Merge | tools/aeron_compare/latency_histogram.hpp:91-95 | the loop adds bucket by bucket and leaves the source alone |
| LatencyHistogram.MergeIsConcatenation | tools/aeron_compare/latency_histogram.hpp:91-95 | a merge is the histogram of both sample lists together |
| LatencyHistogram.RankExact | tools/aeron_compare/latency_histogram.hpp:114-118 | the 64-bit rank arithmetic is the exact ceiling and never overflows |
| Samples.SortKeeps | tools/aeron_compare/latency_histogram.hpp:97-107 | the sorted list whose entries are the order statistics holds exactly the samples, each as often |
| LatencyHistogram.Percentile | tools/aeron_compare/latency_histogram.hpp:108-127 | the loop over the running count computes the specified percentile, with zero for illegal arguments |
| LatencyHistogram.PercentileIsOrderStatistic | tools/aeron_compare/latency_histogram.hpp:108-127 | for every list of samples the result is the top of the bucket holding the nearest-rank order statistic of the sorted list, so the final return is unreachable |
| LatencyHistogram.PercentileError | tools/aeron_compare/latency_histogram.hpp:108-127 | the result is at least that order statistic and exceeds it by less than 1/64 of it |
| LatencyHistogram.ZeroReportedIff | tools/aeron_compare/latency_histogram.hpp:108-127 | zero is reported exactly for no samples, for a fraction of zero or above one, and for an order statistic of zero |
| LatencyHistogram.PercentilesOrdered | tools/aeron_compare/latency_histogram.hpp:108-127 | a larger fraction never reports less, and nothing is reported above the top of the maximum's bucket |
| LatencyHistogram.PercentileWithinMaximum | tools/aeron_compare/analyze_p32_multithread.py:156-160 | the reported percentile is at most the exact maximum, as this check demands, if and only if the maximum is the top of its bucket or the rank is reached below that bucket |
| LatencyHistogram.QuantilesSortedIff | tools/aeron_compare/analyze_p32_multithread.py:156-160 | the check that p50, p99, p999 and the maximum come in order passes if and only if that holds of p999 |
| LatencyHistogram.MedianAboveMaximum | tools/aeron_compare/analyze_p32_multithread.py:156-160 | one sample of 128 ns reports a median of 129 ns, which the check would refuse |
| WorstConsumer.MergedBetweenConsumers | tools/aeron_compare/salias_ipc_compare.cpp:1153-1164 | any percentile of the merged histogram lies between two consumers' own percentiles |
| WorstConsumer.MergeAllRepresents | tools/aeron_compare/salias_ipc_compare.cpp:1157-1160 | the aggregate array is the histogram of all consumers' samples |
| WorstConsumer.Aggregate | tools/aeron_compare/salias_ipc_compare.cpp:1136-1161 | the accumulation loop computes the merge of all consumers' arrays |
| WorstConsumer.WorstPercentile | bench/fast_ring_latency.cpp:553-561 | the worst case is the least bound on the consumers' percentiles |
| WorstConsumer.ReportedShare | tools/aeron_compare/latency_histogram.hpp:108-127 | a percentile is at most a bucket's top exactly when the asked share lies at or below it |
| BudgetHistogram.PassesIff | tools/hft_acceptance/acceptance.cpp:69-72 | the budget test passes exactly when the nearest-rank order statistic is at most 50,000 ns |
| BudgetHistogram.PassesSurvivesMerge | tools/hft_acceptance/acceptance.cpp:63-72 | if both parts pass the merge passes, and if the merge passes one part does |
| BudgetHistogram.ReportedAgainstBudget | tools/hft_acceptance/acceptance.cpp:54-72 | a reported percentile within 50,000 implies a pass, and a pass implies a reported percentile within 50,175 |
| BudgetHistogram.Histogram.Record | tools/hft_acceptance/acceptance.cpp:57-62 | buckets, count, maximum and over-budget count keep summarising all that was recorded |
| BudgetHistogram.Histogram.Merge | tools/hft_acceptance/acceptance.cpp:63-68 | a merged histogram summarises both recordings, also when merged with itself |
| BudgetHistogram.Histogram.PassesMeansWithinBudget | tools/hft_acceptance/acceptance.cpp:69-72 | after any recordings and merges the test is about the true order statistic |
| ScheduleWords.DueIsInWords | tools/hft_acceptance/acceptance.cpp:120-134 | where the registers hold the schedule: a cycle has rate / 2 messages, or with a burst peakRate / 2000 * burstMs in the burst and rate / 2000 * (1000 - burstMs) after it, and message j of cycle c is due in the burst exactly when it is one of these, each in the nanosecond its phase reaches it |
| ScheduleWords.ArrivalsAreInWords | tools/hft_acceptance/acceptance.cpp:135-141 | likewise the count at a time in cycle c is that of the cycles before, the first message and those that burst and rest have reached |
| ScheduleWords.ArrivalsAtEndInWords | tools/hft_acceptance/acceptance.cpp:135-136 | and from the end of the run on it is all messages of all cycles |
| Schedule.DueIs | tools/hft_acceptance/acceptance.cpp:120-134 | the same of the exact schedule, for every accepted option |
| Schedule.ArrivalsAre | tools/hft_acceptance/acceptance.cpp:135-141 | and of its counts |
| ScheduleWords.RegistersHoldIff | tools/hft_acceptance/acceptance.cpp:120-141 | the 64-bit registers hold the exact schedule, its total, every due time and every count, if and only if high * burstNs, low * (10^9 - burstNs) and the total are all below 2^64 |
| ScheduleWords.ModestRatesFit | tools/hft_acceptance/acceptance.cpp:120-141 | half-rates up to 4 * 10^9 messages a second meet that condition, whatever the length of the run |
| ScheduleWords.ArrivalsGoBack | tools/hft_acceptance/acceptance.cpp:135-141 | rate 40,000,000,000 is accepted and does not: in one nanosecond the count falls from 1,553,255,926 to 7 |
| ScheduleWords.NoMessages | tools/hft_acceptance/acceptance.cpp:120-127 | at the accepted rate 9,007,199,254,740,992,000 the cycle wraps to nothing and the run has no messages |
| ScheduleWords.SelfTestPassesIff | tools/hft_acceptance/acceptance.cpp:399-411 | where the registers hold the schedule, the self-test's checks (strictly increasing due times and an exact inverse) pass for every message of an accepted plan if and only if the gap between messages is a whole number of nanoseconds in each phase in use |
| Schedule.InexactRate | tools/hft_acceptance/acceptance.cpp:677-681 | rate 6000 is accepted, and message 1 is not counted when it is due |
| ScheduleWords.DueIncreasingInWordsIff | tools/hft_acceptance/acceptance.cpp:128-134 | where the registers hold the schedule, due times are inside the run, and all different exactly when no phase in use has a half-rate above 10^9 |
| ScheduleWords.ArrivalsMonotoneInWords | tools/hft_acceptance/acceptance.cpp:135-141 | where the registers hold the schedule, counting never goes back, across burst and cycle boundaries and past the end |
| ScheduleWords.BacklogInWordsIff | tools/hft_acceptance/acceptance.cpp:226-274 | where the registers hold the schedule, arrivals at the due time of message i is i or i + 1 for all i, and the unguarded backlog subtraction stays at or above zero at all times from the due time on, both exactly when each half-rate in use is at most 10^9 or exceeds it by a divisor of 10^9 |
| Backlog.BacklogUnderflows | tools/hft_acceptance/acceptance.cpp:271-274 | rate 6,000,000,000 is accepted, and message 2 is due at time 0, when one message has arrived |
| ScheduleWords.CountedExactlyWhenDueInWords | tools/hft_acceptance/acceptance.cpp:128-141 | where the registers hold the schedule and the gaps are whole, a message is counted from its due time on and not before |
| Schedule.NoOverflow | tools/hft_acceptance/acceptance.cpp:120-141 | with half-rates up to 4 * 10^9 no product, total or time overflows 64 bits |
| Drain.CompleteMeansEverything | tools/hft_acceptance/acceptance.cpp:347-364 | over every interleaving with any number of publishers, a subscriber that leaves by its count has every frame every publisher ever commits, and compared with the final sums |
| Drain.EverythingMeansComplete | tools/hft_acceptance/acceptance.cpp:357-361 | a subscriber that has everything after all are done leaves complete at its next look |
| Drain.TurnIs | tools/hft_acceptance/acceptance.cpp:347-363 | a turn of the loop that nobody disturbs takes up to 64 frames and leaves with everything exactly if the end is reached, all publishers are done and the count is at least what they sent, else leaves too late exactly if the end of the drain is reached, and else polls again |
| Drain.NobodyLeavesEarly | tools/hft_acceptance/acceptance.cpp:347-363 | disturbed or not, over every run nobody leaves with everything before the end or too late before the end of the drain, and what a publisher shows before its final sum is a multiple of 256 that it has reached |
| Drain.CommitsNextFrame | tools/hft_acceptance/acceptance.cpp:255-284 | a publisher that is still publishing commits its next frame and no other |
| Drain.PublisherShows | tools/hft_acceptance/acceptance.cpp:284-295 | a publisher shows its progress exactly at multiples of 256, and at its end its final sum and then that it is done, whatever the others do in between |
| Drain.RunKeepsInv | tools/hft_acceptance/acceptance.cpp:285-295 | the invariant on sent, done and the subscriber's partial loads survives every run |
| ClockHandshake.MonotoneClockPasses | tools/hft_acceptance/acceptance.cpp:420-446 | under one monotone clock, over every interleaving, parent and child never race for the stamp, the child never fails, the parent fails only by the deadline, and a finished parent means equal, complete rounds |
| ClockHandshake.RunKeepsInv | tools/hft_acceptance/acceptance.cpp:426-446 | whose turn it is and all stamps are in order at every step, and the stamp never goes back |
| ClockHandshake.BackwardClockRaces | tools/hft_acceptance/acceptance.cpp:440-446 | with a clock that goes back the parent can pass its wait and race with the child for the stamp |
| ClockHandshake.HandshakeFinishes | tools/hft_acceptance/acceptance.cpp:426-446 | before the deadline the handshake is never stuck between rounds and can go on to its end |
| ClockHandshake.ChildTurnIs | tools/hft_acceptance/acceptance.cpp:428-436 | under any clock: the child, handed the stamp, leaves with one exactly if its reading is before the stamp, and otherwise stores the reading as the stamp and hands it back |
| ClockHandshake.ParentTurnIs | tools/hft_acceptance/acceptance.cpp:438-446 | under any clock: the parent, handed the stamp back, fails exactly if the deadline has come or its reading is before the stamp, and otherwise takes it back and begins the next round or finishes |
| StartBarrier.NobodyRunsEarly | tools/aeron_compare/salias_ipc_compare.cpp:532-542 | over every interleaving, failure and kill: ready counts each arrived worker once, and start or a running worker implies that all arrived and the start time is set |
| StartBarrier.StartTimeIsFixed | tools/aeron_compare/salias_ipc_compare.cpp:1106-1110 | once set, or once any worker runs, the start time is set and never changes |
| StartBarrier.BarrierOpens | tools/aeron_compare/salias_ipc_compare.cpp:1096-1110 | once all have arrived and none has failed, the parent starts the run within four of its steps, with the start time it read |
| StartBarrier.SuccessMeansAllRan | tools/aeron_compare/salias_ipc_compare.cpp:1112-1127 | in both benchmarks a run called a success is one where every worker arrived and exited well |
| StartBarrier.SucceedsIff | bench/fast_ring_compare.cpp:463-497 | once all workers have exited, the parent, delivery counts aside, calls the run a success if and only if none exited badly, no one had marked it failed and, in the ring benchmark, the start time was taken |
| RingBarrier.RingsStartIff | bench/fast_ring_compare.cpp:446-463 | once the ring benchmark has started, all workers have arrived if and only if none had failed before the parent left its wait |
| RingBarrier.EarlyIsSignalled | bench/fast_ring_compare.cpp:446-463 | a worker that runs before all have arrived has, like every other, already been sent SIGTERM, and none runs before start |
| RingBarrier.RingsNobodyEarlyIff | bench/fast_ring_compare.cpp:446-463 | that no worker runs before all have arrived holds over every run if and only if there is at most one worker |
| RingBarrier.RingsCanRunEarly | bench/fast_ring_compare.cpp:446-463 | for any two workers or more, a run in which one runs, signalled and not yet stopped, although another never arrived and no start time was taken |
| StartBarrier.WaiterRuns | bench/fast_ring_compare.cpp:184-193 | a worker that waits at the barrier runs after one more look or two once start is stored without a failure |
| StartBarrier.WaiterLooks | bench/fast_ring_compare.cpp:184-193 | without start a waiting worker goes on waiting, or leaves badly if someone has failed; with start it runs, in the IPC benchmark only if no one has failed |
| StartBarrier.WorkerEnds | tools/aeron_compare/salias_ipc_compare.cpp:525-542 | a worker that fails in attaching or in its run marks the run failed and exits badly; one that arrives counts itself once; one whose run goes well exits well |
| StartBarrier.ParentWaits | tools/aeron_compare/salias_ipc_compare.cpp:1096-1104 | until all workers have arrived the parent looks again, or, if someone has failed, gives up in the IPC benchmark and begins to stop its workers in the other |
| StartBarrier.ForkOrClockFails | bench/fast_ring_compare.cpp:457-463 | a failed fork ends the parent, and marks the IPC run failed; a failed clock marks the ring benchmark failed, which starts without a start time |
| StartBarrier.RunKeepsInv | bench/fast_ring_compare.cpp:184-193 | the invariant on workers, flags and parent survives every run of either benchmark |
| FastRingCheck.CompletedIsInterleaving | bench/fast_ring_compare.cpp:350-376 | if the verifying loop completes, the accepted stream is an interleaving of all P complete streams if and only if only sequences below N were accepted |
| FastRingCheck.InterleavingIsAccepted | bench/fast_ring_compare.cpp:350-376 | every interleaving of the complete streams, properly written, is accepted to the end |
| FastRingCheck.OneProducerCanFillTheTotal | bench/fast_ring_compare.cpp:350-376 | without the bound on sequences the total alone does not show that each producer was heard |
| FastRingCheck.Consume | bench/fast_ring_compare.cpp:350-379 | the loop, with its expected array and its error exits, refines the run function |
| FastRingCheck.FailureIs | bench/fast_ring_compare.cpp:350-376 | the loop ends with a code exactly at the first turn that fails, for the reason the code stands for: 24 a read error, 25 a payload that is not the next of its producer, 26 a release, 28 the flush due at every 64th message |
| FastRingCheck.FillPayload | bench/fast_ring_compare.cpp:195-209 | writes every word in full mode, and only the first two otherwise |
| FastRingCheck.ValidatePayload | bench/fast_ring_compare.cpp:211-236 | accepts exactly the specified payloads |
| FastRingCheck.FullCheckIff | bench/fast_ring_compare.cpp:195-236 | the full check accepts exactly what the writer wrote on every byte it reads, all but bytes 4 to 7 of word 0 |
| FastRingCheck.FillThenValidate | bench/fast_ring_compare.cpp:195-236 | a written payload is accepted for one message only: its own |
| FastRingCheck.StalePayloadIff | bench/fast_ring_compare.cpp:195-236 | a payload whose rest was written for another message passes the full check exactly when there is no rest or both have the same pattern, so never for two messages of one producer or of one number |
| PayloadPattern.PatternTellsApart | bench/fast_ring_compare.cpp:201-204 | the pattern tells the messages of one producer and the producers of one number apart |
| IpcPayload.MarkerRoundTripIff | tools/aeron_compare/salias_ipc_compare.cpp:472-507 | the packed marker decodes to its parts if and only if the producer fits 16 bits and the sequence 48 |
| IpcPayload.WrittenIsAcceptedIff | tools/aeron_compare/salias_ipc_compare.cpp:469-523 | the validator passes what the writer wrote exactly when the identity fits the marker and a send time is present just for sampled messages |
| IpcPayload.AcceptedWasWritten | tools/aeron_compare/salias_ipc_compare.cpp:469-523 | an accepted payload is word for word what the writer writes |
| IpcPayload.StalePayloadIff | tools/aeron_compare/salias_ipc_compare.cpp:469-523 | a payload whose rest was written for another message is accepted exactly when there is no rest or both have the same pattern |
| IpcPayload.SampledIffMultiple | tools/aeron_compare/salias_ipc_compare.cpp:509-512 | every sampleRate-th message is sampled, from message 0 on, and none at rate zero |
| IpcPayload.WritePayload | tools/aeron_compare/salias_ipc_compare.cpp:469-484 | the full-mode writer fills every word |
| IpcPayload.ValidateFullPayload | tools/aeron_compare/salias_ipc_compare.cpp:499-523 | the validator accepts exactly the specified payloads |
| Fisher.ExactGreater | tools/aeron_compare/compare_high_mode_rates.py:107-142 | the loop over the multiplicative recurrence, whose divisors are never zero, returns the exact upper tail; the early and clamped returns never change it |
| Fisher.MassNext | tools/aeron_compare/compare_high_mode_rates.py:136-141 | one step of the recurrence carries the hypergeometric mass to the next |
| Fisher.SupportSumsToOne | tools/aeron_compare/compare_high_mode_rates.py:116-142 | the masses of the support add up to one |
| Fisher.PValueIsShareOfReallocations | tools/aeron_compare/compare_high_mode_rates.py:107-142 | the p-value is the share of equally likely reallocations of the high rounds that favour the candidate at least as much |
| Fisher.AllReallocations | tools/aeron_compare/compare_high_mode_rates.py:118-118 | Vandermonde: counted one by one, the reallocations number C(n1 + n2, s) |
| Fisher.TailCountsReallocations | tools/aeron_compare/compare_high_mode_rates.py:131-142 | the favourable ones counted one by one are the tail of the products of binomials |
| Fisher.TailRange | tools/aeron_compare/compare_high_mode_rates.py:142-142 | the p-value is above zero and at most one |
| Fisher.TailDecreases | tools/aeron_compare/compare_high_mode_rates.py:131-142 | with fixed margins each further high candidate round lowers it by exactly the mass left behind |
| PermutationTest.Test | tools/aeron_compare/compare_throughput_ab.py:210-234 | the mask loop with its guard computes the specified counts |
| PermutationTest.PartitionsAreChoose | tools/aeron_compare/compare_throughput_ab.py:220-226 | the loop visits exactly C(2G, G) partitions |
| PermutationTest.ExtremesAreSplits | tools/aeron_compare/compare_throughput_ab.py:220-228 | and counts every way to pick the candidate arm once |
| PermutationTest.CountsFarApart | tools/aeron_compare/compare_throughput_ab.py:220-230 | the extreme count is the number of masks with G bits whose arms have means at least as far apart as the observed means less 1e-12 |
| PermutationTest.TwoCountedIff | tools/aeron_compare/compare_throughput_ab.py:210-234 | on equal arms that do not overlap, the observed split and its exchange alone are counted if and only if there is one group an arm or every candidate value exceeds every baseline value by more than G * 1e-12 / 2 |
| PermutationTest.ExtremeCount | tools/aeron_compare/compare_throughput_ab.py:220-234 | on equal arms the extreme count is even, at least 2 and at most C(2G, G) |
| PermutationTest.OrderWithinArms | tools/aeron_compare/compare_throughput_ab.py:210-234 | reordering groups within an arm changes nothing |
| PermutationTest.ExchangeArms | tools/aeron_compare/compare_throughput_ab.py:210-234 | exchanging the arms flips the difference and keeps the p-value |
| PermutationTest.ObservedCountedIff | tools/aeron_compare/compare_throughput_ab.py:210-234 | some partition is counted for all measurements if and only if the arms have equally many groups |
| PermutationTest.UnequalArmsGiveZero | tools/aeron_compare/compare_throughput_ab.py:212-215 | for every unequal split of the groups, which the guard lets through, there are arms whose p-value is zero |
| Pacing.BaseIsExact | tools/aeron_compare/latency_pacing.hpp:14-16 | no drift: each arrival is the exact time rounded down, however many came before |
| Pacing.Periodic | tools/aeron_compare/latency_pacing.hpp:11-18 | each producer repeats exactly one second later after rate messages |
| Pacing.StrictIff | tools/aeron_compare/latency_pacing.hpp:14-16 | a producer's arrival times are all different exactly for rates up to 10^9 |
| Pacing.SequenceFirst | tools/aeron_compare/latency_pacing.hpp:14-17 | no producer's stagger reaches the next sequence number of any producer |
| Pacing.ProducerSecond | tools/aeron_compare/latency_pacing.hpp:17-17 | within a sequence number arrivals are in producer order |
| Pacing.AllDistinctIff | tools/aeron_compare/latency_pacing.hpp:11-18 | all arrivals of all producers differ exactly when the gap has a nanosecond for each producer |
| Pacing.WordIsPlanned | tools/aeron_compare/latency_pacing.hpp:14-17 | for accepted rates neither divided product wraps, and the register holds the planned time modulo 2^64 |
| ContextSwitch.ParseSwitches | tools/aeron_compare/analyze_switches.py:11-31 | the pending-table loop emits one span per IN whose process's record before it is an OUT, from that record, and collects the processors of each process |
| ContextSwitch.SpansAre | tools/aeron_compare/analyze_switches.py:15-31 | the spans are those of the pairs of an OUT and the next record of its process if that is an IN, in the order of the INs: from the time of the first to the time of the second, with the processor and the preemption mark of the first |
| ContextSwitch.SpansInOrder | tools/aeron_compare/analyze_switches.py:24-30 | records in time order give spans of each process that are non-negative and pairwise disjoint |
| ContextSwitch.OverlapIsIntersection | tools/aeron_compare/analyze_switches.py:41-42 | the difference that is reported, where positive, is the number of nanoseconds common to span and event, and there are none where it is not |
| ContextSwitch.OverlapsOf | tools/aeron_compare/analyze_switches.py:37-43 | the loop keeps exactly the preempted spans that have nanoseconds in common with the event, each with their number |
| ContextSwitch.OverlapsWithinLatency | tools/aeron_compare/analyze_switches.py:34-44 | the overlaps of one process with an event add up to at most the event's latency |
| Publishing.Publish | tools/final_bench/salias_publisher.cpp:32-92 | under any answers the channel has accepted exactly 0, 1, ... in order, short tail batch included, and as many as the answers add up to: an acceptance of k adds the smaller of k and the offer, one on the claim path, and nothing else adds any; the loop stops as soon as that is all; every answer is one attempt, the counters are the number and the longest run of back-pressures, and the exit codes are 11, 12 and 13 by path |
| Publishing.PublishOneByOne | tools/final_bench/salias_publisher.cpp:32-67 | with batch one a normal exit has attempts = messages + back-pressures |
| Publishing.OfferBatchUntilCommitted | tools/aeron_compare/salias_ipc_compare.cpp:729-773 | the batch path publishes 0, 1, ... in order through partial, empty and refused offers, as many as the accepted counts add up to, stops as soon as that is all, and marks failure only on another error |
| AbbaOrder.NeverAlternatesIff | tools/aeron_compare/run_topology_suite.py:671-676 | for three measured rounds or more, all cells keep their leading engine throughout if and only if the number of cells is a multiple of four |
| AbbaOrder.AllKeepIff | tools/aeron_compare/run_topology_suite.py:671-676 | the exact condition for one and two measured rounds as well |
| AbbaOrder.KeepsIff | tools/aeron_compare/run_topology_suite.py:671-676 | exactly when one cell keeps its leader over rounds 1 to R: the number of cells is a multiple of four, or the cell has not wrapped, or it has wrapped once and that step falls within a pair of the pattern |
| AbbaOrder.LeadersAre | tools/aeron_compare/run_topology_suite.py:113-121 | one round, slot or group on is one step on along Salias, Aeron, Aeron, Salias, from Salias in the first measured round; in the warm-up slots and groups alternate from Salias |
| AbbaOrder.SlotIsBalanced | tools/aeron_compare/run_topology_suite.py:113-121 | in any four consecutive measured rounds, or groups, each engine leads a slot exactly twice |
| AbbaOrder.CellPhase | tools/aeron_compare/run_topology_suite.py:671-676 | the leader of a cell depends on the cell, the group and how often the cell has wrapped |
| AbbaOrder.RoundVisitsEachCellOnce | tools/aeron_compare/run_topology_suite.py:673-675 | every round runs every cell exactly once, cell c in slot (c - r) mod n |
| AbbaOrder.RunRound | tools/aeron_compare/run_topology_suite.py:672-690 | the loop over slots runs for each cell its leader and then the other engine |

## Left out

- Memory ordering below sequential consistency, forking, mapping, signals, pinning, perf, cgroup and /proc reads, and real clocks: clock readings, kills and fork results are parameters of events.
- Floating-point rounding in the Python scripts, the log-gamma start value of Fisher's recurrence included: the arithmetic is exact, and the tolerance 1e-12 is kept.
- The sampling hash of the acceptance run is a parameter: the theorems hold for every sampling rule.
- Positions and counters that grow for the life of a ring or a run (ring positions, sequence numbers, frame counts) are unbounded; the wrap at 2^64 is not modelled there.
- FanoutRing.BackPressureIsJustified: asks that the published position is below 2^64, where the code's initial least value still compares as the largest; so do ClaimGrantedIff, CacheIsSlowest, TryPushCommitsIff and CaughtUpIsGranted, and MpmcRing.PushCommitsIff.
- OrderedChannel: batches (claimed and committed frame by frame here), the FIFO order, expiry, the wake-up word and the bytes inside the last word of a payload. A claim is committed at most once in these runs; RecommitKeepsIff says what a second commit does.
- CommitWatermark.PublishKeeps: asks that the positions of a span were not committed before, and so does NoteKeeps; RecommitKeepsIff covers a span committed again.
- ScheduleWords.SelfTestPassesIff: asks that the registers hold the schedule, as do the other results on it; what an accepted rate does outside that condition is shown at two rates and not characterised.
- Drain.CompleteMeansEverything: assumes that the channel hands out committed frames only, and none twice; IntegrityVerdict makes no such assumption.
- Integrity: delivered frames that are no whole number of 64-bit words count as one kind of foreign frame; channel producer ids are not negative.
- StartBarrier: the delivery counts of the ring benchmark's verdict, and the signals and waits with which a parent that gives up for good cleans up.
- IpcPayload: the compatible payload layout without full verification, which no one reads back beyond the send time.
- ContextSwitch.OverlapsWithinLatency: is stated before the list is cut to the four longest overlaps, which can only lower the sum; the regular expression and the decimal fraction of a time stamp are not modelled.
- Publishing.Publish: the payload of a message is its sequence number; an acceptance of more than was offered acts as all of it.
- LaneScheduler: the slot words a scan loads are parameters; MpmcRing joins the scan with the lanes. In fast_mpsc_ring.hpp the lanes are single-consumer rings of their own, not part of this model.
- The wilson and newcombe intervals, bootstrap and cluster permutation sampling, the threshold gates, and all parsing and printing: opaque, random or settled by reading one branch.
- The shared-memory variant of the ordered channel in shared_hybrid_mpsc.hpp with its recovery paths, the magic ring mapping and the futex wait are not part of this model.
