# Verified models of ReMLCXL's checksum engine and benchmark harness

This project models, in Dafny, the parts of ReMLCXL whose correctness is not visible from reading one
function: the CRC engine in `shared-headers/CRC.hpp`, the worker loop, random generator and latency
histogram of the YCSB benchmarks, the Zipf generators that grow with the key space, and the page
classification of the Zipfian data generator. `dafny verify dfyconfig.toml` checks everything.

## How it is organised

| file | holds |
|---|---|
| `bits.dfy` | machine words of any width as bit sequences, shifts that truncate as a cast does |
| `lfsr.dfy`, `gf2.dfy` | the bit-serial CRC register, its algebra, and polynomial division over GF(2) |
| `crc_model.dfy` | every branch of the engine as functions on whole machine words, junk above the CRC included |
| `crc_engine.dfy` | the loops themselves, the `Table` class, the four `Calculate` overloads, proved against the functions |
| `crc_meaning.dfy` | each branch, bit by bit or by table, drives the same serial register |
| `crc_laws.dfy`, `crc_wide.dfy`, `crc_detection.dfy` | the laws of the engine |
| `splitmix.dfy` | SplitMix64 and the workers' seeds |
| `histogram.dfy`, `histogram_laws.dfy` | the histogram class and what it says about its samples |
| `workers.dfy`, `workers_laws.dfy`, `workers_trace.dfy`, `workers_end.dfy`, `ycsb_a.dfy` | the YCSB-A phase as a machine of atomic events, its invariant, what its events say, its final report |
| `ycsb_d.dfy`, `ycsb_d_trace.dfy` | YCSB-D, two phases over one growing key counter, and what its events say |
| `zipf.dfy` | the Zipf generators, floating point left abstract, and alpha and eta over exact arithmetic |
| `pages.dfy` | counting and classification of pages |

## Reading the model

- A CRC parameter set is symbolic: any width W, any integer type of at least 8 bits that holds W bits,
  any polynomial. Bits of the polynomial above W never matter. The initial value has to fit W bits only
  when the input is reflected (`Clean`), the final XOR only when input and output are both reflected and
  a CRC is resumed (`Resumable`). `CrcDetection.NumbersServe` covers every listed parameter set and
  `CrcWide.ComputesInPartsIff` shows that resuming needs these conditions. Table and bit-by-bit forms
  agree without them.
- The comment at `UndoFinalize` says the round trip always returns the original remainder. The code does
  so exactly when the remainder agrees with what the code leaves above bit W;
  `CrcLaws.UndoAfterFinalize` states that condition and `CrcLaws.RoundTripLosesHighBits` an input that
  fails it.
- The comment in `InitTable` doubts its mask; `CrcWide.MaskIsRedundant` settles that it changes no CRC.
- In the worker machines one event is one atomic action: the draws, the outcome of a transaction, or one
  `fetch_add`. A run is any sequence of enabled events, so every interleaving and every pattern of
  aborts is covered. Whether an attempt commits, whether a lookup finds its record and how long it takes
  are free choices. Locals keep their values over an abort. A relaxed load of `next_insert_key` may
  return any value since the last one that worker saw.
- Workers are seeded one draw apart. `SplitMix.NextWorkerLagsByOne`, `YcsbA.WorkersTwoApartRepeat` and
  `YcsbD.InsertFirstTwins` state what follows: workers repeat each other's operations.
- `reset` accepts size 2, where eta is zero divided by zero (`Zipf.EtaDefinedIff`). YCSB-D needs two loaded
  keys for its generator; the laws hold from there.
- `std::sort` and the iteration order of hash maps enter by what they promise, so the results hold for
  every way of breaking ties.

## Model

| member | source | states |
|---|---|---|
| `CrcEngine.Reflect` | shared-headers/CRC.hpp:518-530 | the shifting loop reverses the low `numBits` bits and clears the rest |
| `CrcEngine.Finalize` | shared-headers/CRC.hpp:541-554 | optional reflection, XOR and mask compute the specification that the round-trip laws are about |
| `CrcEngine.UndoFinalize` | shared-headers/CRC.hpp:573-588 | mask, XOR and optional reflection compute the specification that the round-trip laws are about |
| `CrcEngine.ReflectedLoop` | shared-headers/CRC.hpp:617-639 | the nested loops of the reflected branch equal the recursive remainder on all digits |
| `CrcEngine.ShiftUpLoop` | shared-headers/CRC.hpp:649-667 | the nested loops of both non-reflected branches equal the recursive remainder on all digits |
| `CrcEngine.CalculateRemainder` | shared-headers/CRC.hpp:600-705 | all three branches: exact word, and its register is the serial register fed the message bits |
| `CrcEngine.Table.constructor` | shared-headers/CRC.hpp:325-330 | a constructed table holds the masked entry of every byte |
| `CrcEngine.Table.Entry` | shared-headers/CRC.hpp:405-417 | one entry: remainder of the byte, mask, shift for narrow CRCs |
| `CrcEngine.Table.Fill` | shared-headers/CRC.hpp:399-422 | the do-while with its wrapping byte counter fills all 256 entries and stops |
| `CrcEngine.Table.InitTable` | shared-headers/CRC.hpp:389-422 | the table is the specified one |
| `CrcModel.EntriesFit` | shared-headers/CRC.hpp:403-421 | no table entry has a bit at the width or above, save that narrow non-reflected codes keep theirs in the top bits of the byte and nothing below |
| `CrcEngine.Table.CalculateRemainderByTable` | shared-headers/CRC.hpp:717-766 | the three table loops equal the recursive lookup run on all digits |
| `CrcEngine.Calculate` | shared-headers/CRC.hpp:433-441 | remainder from the initial value, finalized |
| `CrcEngine.CalculateMore` | shared-headers/CRC.hpp:453-463 | remainder resumed from a previous CRC, finalized |
| `CrcEngine.Table.Calculate` | shared-headers/CRC.hpp:474-484 | the table form returns the CRC of the bit-by-bit form |
| `CrcEngine.Table.CalculateMore` | shared-headers/CRC.hpp:497-509 | the resumed table form returns the CRC of the resumed bit-by-bit form |
| `CrcMeaning.BitRemainderMeaning` | shared-headers/CRC.hpp:617-702 | for every width, register size and message the bit loops drive the W-bit serial register, and the reflected loop leaves nothing above bit W |
| `CrcMeaning.TableRemainderMeaning` | shared-headers/CRC.hpp:722-763 | so do the table loops, with any table whose entries serve on the bits that count |
| `CrcMeaning.EntryServes` | shared-headers/CRC.hpp:403-421 | a built entry serves, masked or not |
| `CrcMeaning.FinishMeaning` | shared-headers/CRC.hpp:542-554 | only the register reaches the CRC; junk above bit W is dropped |
| `CrcMeaning.ResumeMeaning` | shared-headers/CRC.hpp:574-588 | resuming from a CRC restores the register it came from |
| `CrcLaws.TableRemainderAgrees` | shared-headers/CRC.hpp:600-766 | table and bit-by-bit remainders agree on the low W bits in all three branches |
| `CrcWide.ReflectedAgrees` | shared-headers/CRC.hpp:617-738 | in the reflected branch the two forms agree on all digits, from any start word |
| `CrcWide.FormsAgree` | shared-headers/CRC.hpp:433-509 | each table overload of `Calculate` returns what its parameter overload returns, for every parameter set, message and previous CRC, fitting or not |
| `CrcWide.MaskIsRedundant` | shared-headers/CRC.hpp:403-421 | dropping the mask from the table changes no CRC, from any start value |
| `CrcWide.ComputesInPartsIff` | shared-headers/CRC.hpp:433-463 | for widths of at least a byte the multi-part law holds for all parts if and only if the initial value and the final XOR fit where the reflected loop takes them in |
| `CrcWide.PartsFail` | shared-headers/CRC.hpp:433-463 | parts that break the law for parameters that do not fit |
| `CrcWide.MultiPartByTable` | shared-headers/CRC.hpp:474-509 | the multi-part law for the table overloads |
| `CrcLaws.RemainderIsDivision` | shared-headers/CRC.hpp:617-705 | the register is the one polynomial of degree below W left by dividing r x^(8n) + M x^W by x^W + polynomial, and no other is |
| `CrcLaws.MultiPart` | shared-headers/CRC.hpp:433-463 | the CRC of the second part resumed from the first part's CRC is the CRC of the whole |
| `CrcLaws.MultiPartResumed` | shared-headers/CRC.hpp:453-463 | the same when the first part was itself resumed from any word, hence for any number of parts |
| `CrcLaws.UndoAfterFinalize` | shared-headers/CRC.hpp:556-588 | the round trip keeps the low W bits, and is the identity exactly when the remainder agrees above bit W |
| `CrcLaws.RoundTripLosesHighBits` | shared-headers/CRC.hpp:559-564 | a concrete remainder that the documented round trip does not return |
| `CrcLaws.FinalizeAfterUndo` | shared-headers/CRC.hpp:541-588 | the other round trip clears everything above bit W, and is the identity exactly on words that fit W bits |
| `CrcLaws.Mirror` | shared-headers/CRC.hpp:617-702 | the reflected engine is the bit-reversal of the non-reflected one over bit-reversed bytes, for every width |
| `CrcDetection.BurstsDetectedIff` | shared-headers/CRC.hpp:600-705 | every burst of at most W consumed bits changes the CRC if and only if the polynomial's low bit is set, for every other parameter |
| `CrcDetection.BurstDetected` | shared-headers/CRC.hpp:600-705 | one burst, with the low bit set, changes the CRC |
| `CrcDetection.BurstMissed` | shared-headers/CRC.hpp:600-705 | without the low bit, two messages that differ in a W-bit burst and collide |
| `CrcDetection.ResidueLaw` | shared-headers/CRC.hpp:433-441 | running over a message and its own CRC leaves a register that depends on the parameters only |
| `CrcDetection.ResidueAcceptsOnlyTheCrc` | shared-headers/CRC.hpp:433-441 | with the polynomial's low bit set, that register appears if and only if the trailer is the right CRC |
| `CrcDetection.NumbersServe` | shared-headers/CRC.hpp:769-1699 | parameter sets given as numbers that fit their width meet every side condition of the laws |
| `SplitMix.SplitMix64.Next` | experiment_1_ycsb_full/experiment1_ycsb_a.cpp:293-298 | one call is one step of the stream that the state determines |
| `SplitMix.UnmixMix` | experiment_1_ycsb_full/experiment1_ycsb_a.cpp:294-297 | the output function has an explicit inverse with its own multipliers, so every output names its state |
| `SplitMix.MixInjective` | experiment_1_ycsb_full/experiment1_ycsb_a.cpp:294-297 | the output function merges no two states: xor-shifts and odd multiplications can be undone modulo 2^64 |
| `SplitMix.DrawsRepeatIff` | experiment_1_ycsb_full/experiment1_ycsb_a.cpp:290-298 | two draws are equal if and only if their positions agree modulo 2^64 |
| `SplitMix.NoRepeat` | experiment_1_ycsb_full/experiment1_ycsb_a.cpp:290-298 | no output repeats within 2^64 consecutive draws |
| `SplitMix.PhaseSeedUndone` | experiment_1_ycsb_full/experiment1_ycsb_a.cpp:688-690 | each phase's seed is the configured seed XOR that phase's constant: applying the constant again gives the seed back |
| `SplitMix.WorkersShareOneSequence` | experiment_1_ycsb_full/experiment1_ycsb_a.cpp:688-691 | worker t walks the phase's one sequence from position t + 1 |
| `SplitMix.NextWorkerLagsByOne` | experiment_1_ycsb_full/experiment1_ycsb_a.cpp:688-691 | a worker's draw k + 1 is the next worker's draw k |
| `Histogram.LatencyUsToBucket` | experiment_1_ycsb_full/experiment1_ycsb_a.cpp:599-602 | binary search finds the first bucket whose bound is not below the latency |
| `Histogram.LatencyHistogram.constructor` | experiment_1_ycsb_full/experiment1_ycsb_a.cpp:541-545 | starts empty over the benchmark's bounds |
| `Histogram.LatencyHistogram.RecordLatency` | experiment_1_ycsb_full/experiment1_ycsb_a.cpp:547-551 | one more in its bucket and in the count, the latency added to the sum, nothing else changed; `SumIsTotal` and `BucketsCount` say what that accumulates to |
| `Histogram.LatencyHistogram.MergeFrom` | experiment_1_ycsb_full/experiment1_ycsb_a.cpp:553-562 | bucket-wise sum, the other histogram unchanged |
| `Histogram.LatencyHistogram.ReachTarget` | experiment_1_ycsb_full/experiment1_ycsb_a.cpp:576-593 | the loop reports from the first bucket where the running count reaches the target, or the last bound; `PercentileExact` says where inside the bucket |
| `Histogram.Target` | experiment_1_ycsb_full/experiment1_ycsb_a.cpp:574-575 | the rank asked for is the least integer not below pct percent of the count |
| `Histogram.LatencyHistogram.PercentileUs` | experiment_1_ycsb_full/experiment1_ycsb_a.cpp:571-594 | the percentile that `PercentileIsRank` and `PercentileExact` determine from the samples recorded |
| `Histogram.LatencyHistogram.AverageUs` | experiment_1_ycsb_full/experiment1_ycsb_a.cpp:564-569 | the average times the count is the sum, and 0 without samples |
| `HistogramLaws.BucketsCount` | experiment_1_ycsb_full/experiment1_ycsb_a.cpp:547-551 | a bucket counts the samples that belong to it and the counter counts all |
| `HistogramLaws.SumIsTotal` | experiment_1_ycsb_full/experiment1_ycsb_a.cpp:547-551 | the sum is the sum of the samples |
| `HistogramLaws.LocateIsRank` | experiment_1_ycsb_full/experiment1_ycsb_a.cpp:576-593 | the loop stops in the bucket of the k-th smallest sample, at that sample's place in it |
| `HistogramLaws.KthIsSorted` | experiment_1_ycsb_full/experiment1_ycsb_a.cpp:571-594 | the k-th smallest sample is what any sorted arrangement has at index k - 1 |
| `HistogramLaws.PercentileIsRank` | experiment_1_ycsb_full/experiment1_ycsb_a.cpp:571-594 | for nonempty samples and 0 < pct <= 100 the result lies in the bounds of the bucket that holds the ceil(pct n / 100)-th smallest sample, without fallback |
| `HistogramLaws.PercentileExact` | experiment_1_ycsb_full/experiment1_ycsb_a.cpp:576-590 | the report stands at the ranked sample's place among the samples of its bucket: (report - lower) * size = place * (upper - lower) |
| `HistogramLaws.LastReportsUpper` | experiment_1_ycsb_full/experiment1_ycsb_a.cpp:576-590 | the last sample of a bucket reports the bucket's upper bound |
| `HistogramLaws.EqualSteps` | experiment_1_ycsb_full/experiment1_ycsb_a.cpp:576-590 | inside a bucket equal steps in rank are equal steps in the report |
| `HistogramLaws.FallbacksUnreached` | experiment_1_ycsb_full/experiment1_ycsb_a.cpp:586-593 | the final return is used if and only if the rank exceeds the count, the 0.5 fallback if and only if the rank is not positive and the first bucket is empty |
| `HistogramLaws.BucketHoldsSample` | experiment_1_ycsb_full/experiment1_ycsb_a.cpp:581-584 | the ranked sample lies in the reported bounds if and only if it is at most the last bound |
| `HistogramLaws.PercentileMonotone` | experiment_1_ycsb_full/experiment1_ycsb_a.cpp:571-594 | a higher percentile never reports less |
| `HistogramLaws.RecordPermuted` | experiment_1_ycsb_full/experiment1_ycsb_a.cpp:547-551 | a histogram depends on its samples as a multiset only |
| `HistogramLaws.SplitLeavesNoTrace` | experiment_1_ycsb_full/experiment1_ycsb_a.cpp:553-562 | any split of the samples over local histograms, merged in any order, gives the histogram of all samples |
| `WorkersLaws.StreamKept` | experiment_1_ycsb_full/experiment1_ycsb_a.cpp:699-740 | no event takes a worker off its stream; an abort puts the generator back |
| `WorkersLaws.CountersKept` | experiment_1_ycsb_full/experiment1_ycsb_a.cpp:730-753 | every shared counter stays the sum of what the workers have contributed |
| `WorkersLaws.HistKept` | experiment_1_ycsb_full/experiment1_ycsb_a.cpp:837-839 | the global histogram stays the sum of the parts merged so far, with merges interleaved part by part |
| `WorkersLaws.RunKeeps` | experiment_1_ycsb_full/experiment1_ycsb_a.cpp:684-840 | the invariant holds after every run |
| `WorkersLaws.CommittedIsStreamPrefix` | experiment_1_ycsb_full/experiment1_ycsb_a.cpp:699-835 | in every run a worker has committed exactly the beginning of its stream, nothing skipped, repeated or reordered |
| `WorkersLaws.RunHistory` | experiment_1_ycsb_full/experiment1_ycsb_a.cpp:699-835 | the abort counter counts the failed attempts; attempts are committed, aborted or open |
| `WorkersLaws.QuotasSumUp` | experiment_1_ycsb_full/experiment1_ycsb_a.cpp:680-685 | the quotas share out the lookups exactly and differ by at most one |
| `WorkersTrace.WorkerTraced` | experiment_1_ycsb_full/experiment1_ycsb_a.cpp:730-747 | in every run a worker's latencies are those of its measuring events and the found flags of its log those of its commit events, in order; unmeasured phases keep no latency |
| `WorkersTrace.HitsTraced` | experiment_1_ycsb_full/experiment1_ycsb_a.cpp:730-738 | over all workers the logged hits and misses are the commits that did and did not find their record |
| `WorkersTrace.LocalsTraced` | experiment_1_ycsb_full/experiment1_ycsb_a.cpp:741-747 | the local histograms together hold the latencies of the events, bucket by bucket, in sum and in count |
| `WorkersEnd.PhaseReport` | experiment_1_ycsb_full/experiment1_ycsb_a.cpp:843-864 | at the end of every run done = found + not found = reads + writes = lookups; found and not found count the commits with and without a record; reads are those of the streams; aborts = attempts - lookups; the measured histogram is that of the latencies of the events, its sum their total, and an unmeasured one is empty |
| `WorkersEnd.HistogramAtEnd` | experiment_1_ycsb_full/experiment1_ycsb_a.cpp:837-864 | the merged histogram is that of the latencies the events measured, one per lookup, with their total as sum; empty when not measured |
| `WorkersEnd.MergedAtEnd` | experiment_1_ycsb_full/experiment1_ycsb_a.cpp:837-839 | however the merges interleave, it is the merge of the workers' own histograms |
| `WorkersEnd.FoundsAtEnd` | experiment_1_ycsb_full/experiment1_ycsb_a.cpp:736-738 | the found counters count the commits with and without a record |
| `WorkersEnd.ReadsAtEnd` | experiment_1_ycsb_full/experiment1_ycsb_a.cpp:731-735 | the number of reads is that of the streams, whatever the schedule and the aborts |
| `WorkersEnd.AttemptsAtEnd` | experiment_1_ycsb_full/experiment1_ycsb_a.cpp:699-835 | the number of attempts and the length of a finished run in terms of lookups, aborts and threads |
| `WorkersEnd.ReportedPercentile` | experiment_1_ycsb_full/experiment1_ycsb_a.cpp:862-867 | the percentiles of a measured phase are rank statistics of the latencies its events measured, within the ranked bucket's bounds and at the ranked sample's place |
| `WorkersEnd.NeverStuck` | experiment_1_ycsb_full/experiment1_ycsb_a.cpp:699-840 | until all workers are finished some event other than an abort is enabled |
| `WorkersEnd.OnlyAbortsProlong` | experiment_1_ycsb_full/experiment1_ycsb_a.cpp:699-840 | the length of a run is bounded by lookups, threads and aborts |
| `YcsbA.CommittedOp` | experiment_1_ycsb_full/experiment1_ycsb_a.cpp:688-714 | the k-th operation worker t commits is the one at position t + 1 + 2k of the sequence that the phase's seed starts, with a key of the key space |
| `YcsbA.OpAt` | experiment_1_ycsb_full/experiment1_ycsb_a.cpp:709-713 | the operation at a position has its key from that draw and is a read if and only if twice the next draw is below 2^64 - 1 |
| `YcsbA.StreamsOverlap` | experiment_1_ycsb_full/experiment1_ycsb_a.cpp:688-714 | item k + 1 of worker t is item k of worker t + 2 |
| `YcsbA.WorkersTwoApartRepeat` | experiment_1_ycsb_full/experiment1_ycsb_a.cpp:684-740 | in every run workers two apart commit the same operations, one position shifted |
| `YcsbD.KeysKept` | experiment_1_ycsb_full/experiment1_ycsb_d.cpp:763-775 | every key handed out stays in exactly one place: inserted, lost or held by an open transaction |
| `YcsbD.ReadsKept` | experiment_1_ycsb_full/experiment1_ycsb_d.cpp:736-761 | generator size and cached counter stay equal, and chosen keys stay below the loaded counter |
| `YcsbD.RunKeeps` | experiment_1_ycsb_full/experiment1_ycsb_d.cpp:718-871 | the three invariants hold after every run of both phases |
| `YcsbD.InsertedKeysDistinct` | experiment_1_ycsb_full/experiment1_ycsb_d.cpp:763-771 | committed insert keys are pairwise distinct, at least total_records and never lost ones |
| `YcsbD.ReadsStayInSpace` | experiment_1_ycsb_full/experiment1_ycsb_d.cpp:754-762 | every committed read counts down from the counter it loaded by the rank that its stream position gives a generator of that size, so its key lies below the counter, the fallback to key 0 is never taken, and the key was loaded or handed out |
| `YcsbD.KindsAreStream` | experiment_1_ycsb_full/experiment1_ycsb_d.cpp:739-871 | the kinds a worker commits are fixed by its generator, whatever aborts |
| `YcsbD.RanksAreStream` | experiment_1_ycsb_full/experiment1_ycsb_d.cpp:754-761 | if operation k of a worker is a read, its rank is the one the stream's second draw gives a generator of the size of the counter loaded, whatever was aborted before |
| `YcsbD.CommittedOp` | experiment_1_ycsb_full/experiment1_ycsb_d.cpp:725-771 | operation k of worker t is chosen at position t + 1 + k + (reads before it) of the sequence that the phase's seed starts |
| `YcsbD.DrawsChoose` | experiment_1_ycsb_full/experiment1_ycsb_d.cpp:750-760 | an operation chosen at a position has its kind from that draw and, if a read, its rank from the next |
| `YcsbD.MostlyReadIff` | experiment_1_ycsb_full/experiment1_ycsb_d.cpp:750-753 | the kind in integers: twenty times the draw below nineteen times 2^64 - 1 |
| `YcsbDTrace.RunTraced` | experiment_1_ycsb_full/experiment1_ycsb_d.cpp:753-775 | as many reads are recorded as commits follow a load, each with the counter value its load returned; as many inserts as commits follow a take; as many lost keys as aborts do |
| `YcsbDTrace.CommitsAreKept` | experiment_1_ycsb_full/experiment1_ycsb_d.cpp:739-775 | every operation a worker committed is among the recorded reads or inserts |
| `YcsbDTrace.CounterAtRest` | experiment_1_ycsb_full/experiment1_ycsb_d.cpp:1032-1080 | with no insert open, next_insert_key is total_records plus the inserts committed plus the attempts aborted after taking a key |
| `YcsbDTrace.RunReport` | experiment_1_ycsb_full/experiment1_ycsb_d.cpp:718-1080 | a run of both phases that ends has done all lookups: as many reads as the streams hold, the others inserts, and the counter has moved by the inserts and the lost keys |
| `YcsbD.BenchmarkSeeds` | experiment_1_ycsb_full/experiment1_ycsb_d.cpp:725-728 | each worker starts one draw ahead of the one before |
| `YcsbD.InsertFirstTwins` | experiment_1_ycsb_full/experiment1_ycsb_d.cpp:725-764 | a worker that starts with an insert goes on as the next worker does from its start |
| `Zipf.ZipfGenerator.Zeta` | experiment_1_ycsb_full/experiment1_ycsb_e.cpp:366-371 | the loop adds the terms one by one from the first |
| `Zipf.ZipfGenerator.Reset` | experiment_1_ycsb_full/experiment1_ycsb_e.cpp:337-345 | sizes below two are refused without change; others give the fresh state |
| `Zipf.ZipfGenerator.GrowTo` | experiment_1_ycsb_full/experiment1_ycsb_e.cpp:347-354 | the in-place loop computes the grown state, and nothing when the size does not grow |
| `Zipf.GrowIsReset` | experiment_1_ycsb_full/experiment1_ycsb_e.cpp:337-354 | growing a fresh generator is resetting it at the larger size, for any rounding of the arithmetic |
| `Zipf.GrowthForgetsItsSteps` | experiment_1_ycsb_full/experiment1_ycsb_e.cpp:337-371 | any chain of growth leaves the state of one reset at the largest size |
| `Zipf.AlphaExact` | experiment_1_ycsb_full/experiment1_ycsb_e.cpp:341 | over exact arithmetic alpha inverts 1 - theta |
| `Zipf.EtaExact` | experiment_1_ycsb_full/experiment1_ycsb_e.cpp:343-344 | over exact arithmetic eta * (1 - zeta(2) / zeta(n)) = 1 - (2 / n)^(1 - theta) for every n above 2 |
| `Zipf.EtaDefinedIff` | experiment_1_ycsb_full/experiment1_ycsb_e.cpp:338-344 | eta's denominator vanishes at size 2, which `reset` accepts, and at no larger size |
| `Zipf.ScrambledZipfGenerator.Reset` | experiment_1_ycsb_full/experiment1_ycsb_e.cpp:388-391 | the size is stored even when the inner reset refuses it |
| `Zipf.ScrambledZipfGenerator.GrowTo` | experiment_1_ycsb_full/experiment1_ycsb_e.cpp:393-397 | both sizes grow together and the inner state is that of a reset at the larger size |
| `Pages.KeyInRange` | record-cache-test-suit/experiment_zipfian_data_generator.cpp:227-230 | every draw addresses an existing page and slot, and the two name the key |
| `Pages.Sample` | record-cache-test-suit/experiment_zipfian_data_generator.cpp:224-233 | page and slot counters count the draws of their page and slot |
| `Pages.SlotsAddUp` | record-cache-test-suit/experiment_zipfian_data_generator.cpp:227-233 | a page's slot hits add up to its page hits |
| `Pages.PagesAddUp` | record-cache-test-suit/experiment_zipfian_data_generator.cpp:227-233 | page hits add up to the number of samples |
| `Pages.MaxSlotHit` | record-cache-test-suit/experiment_zipfian_data_generator.cpp:255-259 | the largest slot counter, in whatever order the map yields its entries |
| `Pages.Classify` | record-cache-test-suit/experiment_zipfian_data_generator.cpp:244-262 | the two loops give every page the label its hits, its place in the order and its top slot decide |
| `Pages.LabelByDraws` | record-cache-test-suit/experiment_zipfian_data_generator.cpp:249-262 | a page that is not hot is SKEW if and only if it has hits and some slot took at least the ratio of them, in terms of the draws |
| `Pages.NoneAboveHot` | record-cache-test-suit/experiment_zipfian_data_generator.cpp:235-247 | no page left out of HOT has more hits than a HOT page |
| `Pages.TopIsBest` | record-cache-test-suit/experiment_zipfian_data_generator.cpp:235-247 | no set of n pages carries more traffic than the first n of the order |
| `Pages.HotPageCount` | record-cache-test-suit/experiment_zipfian_data_generator.cpp:241-247 | as many pages are HOT as asked for, or as have hits when these are fewer, carrying the traffic of the first pages of the order |
| `Pages.HotTotals` | record-cache-test-suit/experiment_zipfian_data_generator.cpp:241-281 | the reported HOT totals: exact count, and at least the traffic of any other choice of that many pages |
| `Pages.Aggregate` | record-cache-test-suit/experiment_zipfian_data_generator.cpp:264-281 | the three labels cover every page and all hits, once |
| `Pages.Run` | record-cache-test-suit/experiment_zipfian_data_generator.cpp:193-281 | for every sample stream and tie-breaking: HOT, SKEW and COLD report number and traffic of the pages that are hot, that are not but have a slot with at least the ratio of their hits, and of the others; the counts sum to total_pages, the traffic to sample_count, and HOT is a best choice of its size |

## Left out

- The record cache, slab allocator, epochs, eviction, buffer manager, B-tree, log and admission control: a transaction is a free choice to commit or abort.
- The values of `fnvHash64` and of the Zipf rank formula: abstract functions, of which only the final remainder is used.
- `next01` as a double: the comparison with 0.5 or 0.95 is made on the real quotient.
- 64-bit wrap-around of the counters, histogram sums and next_insert_key: naturals, as 2^64 events are out of reach of a run.
- Rounding in `percentile_us`, `avg_us`, `hot_page_count` and the top-slot ratio: reals.
- Latency clocks, progress printing, CSV output, flags and the diagnostic counters: would only add easy members or model input and output.
- YCSB-D's shared counters, which are those of the YCSB-A machine, and YCSB-B, C, E and F, whose loops differ only in the mix of operations.
- The check values of the listed CRC parameter sets: constants of single inputs.
- `CRCPP_BRANCHLESS` and other build switches: the default branch is modelled.
