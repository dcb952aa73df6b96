# Verified models of the micron.cpp benches

The benches of micron.cpp measure allocators, maps, a work-stealing deque, coroutine I/O and
lazy pipelines. Around the timed calls they run complete algorithms and protocols of their own.
This project models those in Dafny and proves what the numbers they report depend on:

- **Barrier.dfy** - the two-atomic generation barrier of the multi-threaded allocator bench as a
  transition system with any number of threads and rounds, wrapping 32-bit words, and the worker
  phases it separates.
- **Shellsort.dfy**, **Percentile.dfy** - the Ciura-gap shellsort in place, with Knuth's theorem
  that a later gap keeps every earlier gap order and what that buys in the last pass; percentiles
  as order statistics of the unsorted samples; the sampling loop; the merge of worker samples.
- **Workload.dfy**, **Churn.dfy**, **Shuffle.dfy**, **Holding.dfy** - the allocator workloads over
  a pointer table, for every stream of random draws and every allocator: ownership, traces,
  bounded live bytes, shuffles.
- **Keys.dfy**, **Bits.dfy** - splitmix64 and the string keys of the map benches, over xor and shifts
  defined bit by bit.
- **Steal.dfy**, **ForkJoin.dfy** - the stealing sweep, and the fork-join recursion with its depth
  report in 64-bit arithmetic.
- **PingPong.dfy** - the echo protocol, with message contents, under arbitrary partial reads and
  scheduling.
- **Fused.dfy**, **Output.dfy**, **Table.dfy**, **Printer.dfy** - fused loops, buffered output,
  decimal printing and parsing, and the column tables with the reader that plots them.
- **Finite.dfy**, **Words.dfy**, **Options.dfy** - counting facts, powers of two and optional
  values shared by the others.

`dafny verify dfyconfig.toml` checks everything.

## What the proofs brought out

- The serial worker's latency phase leaves blocks live unless `2 * ops <= lat_cap`;
  `Holding.SerialLatency` gives the exact condition and the exact slots. In the bench's own
  configurations it leaves blocks live exactly when `threads * hi < 16384`
  (`Holding.SerialConfigs`), which includes all tiny and small ones.
- The depth report of the fork-join bench gives the right p95 for depths 1 to 57 and for no depth
  from 58 to 64, and the right p50 up to 63, where the 64-bit products begin to wrap;
  `ForkJoin.ForkJoinDepths` states both if-and-only-ifs.
- `pad_to` writes no blank when a text fits the room before its column to the character. Two
  cells then touch and the plotting script drops the row; it never reads it as another one
  (`Table.StRoundTrip`, `Table.MtRoundTrip`). The bench prints such rows: category `sub-page` fills
  its column and phase `bulk-free` the next, so none of the sub-page bulk-free rows of
  `run_serial_bulk` reaches a plot, neither throughput (`Table.SubPageBulkFreeLost`) nor latency
  (`Table.SubPageBulkFreeLatencyLost`). With numbers that leave a blank they are the only throughput
  rows lost (`Table.StBenchRows`).
- The churn bench announces a working set of at most 64 MiB. Every stream of draws and sizes stays
  within it if and only if no block exceeds 1 MiB or `opsn * hi` is at most 64 MiB
  (`Churn.AnnouncedBound`); otherwise the floor of 64 slots lets it grow to
  `slots * hi`, the exact peak (`Churn.PeakExact`). The bench's own categories meet the condition.
- The echo side of the ping-pong reads every part of a message to the start of its buffer. Of the
  ways to split a message only the single read preserves every message (`PingPong.SplitExact`):
  `"ab"` read in two parts over `"xy"` comes back as `"by"`. Every run echoes correctly if and only
  if there are no rounds, messages have at most one byte, or the client's bytes are all equal and so
  are the server's from the second on (`PingPong.EchoIff`). Byte counts, turns and termination are
  not affected.
- The miss sweeps of the map benches look up keys outside the inserted set exactly when the
  number of keys is at most 2^40.
- The round counters of the ping-pong stay within one of each other exactly when messages are not
  empty or there is at most one round.

## Assumptions

Atomics are sequentially consistent. Samples and other `f64` values are reals under their total
order. The allocator, the random draws, the clock and the answers of `steal_top` are parameters:
any allocator that returns a non-null pointer to no live block, any draws in the range asked for,
any clock. Writes to a channel are whole. A loop that the source repeats a fixed number of times
(passes, measurements) is modelled for any number of repetitions.

## Model
| member | source | states |
|---|---|---|
| Barrier.StepInv | benches/malloc_pathways_mt_bench.cpp:252-263 | every atomic access of every thread keeps the barrier invariant |
| Barrier.RunInv | benches/malloc_pathways_mt_bench.cpp:244-263 | the invariant holds after every schedule of any length |
| Barrier.NoEarlyReturn | benches/malloc_pathways_mt_bench.cpp:252-263 | in every interleaving a thread that has returned k times implies every thread has arrived k times; no thread is more than one round ahead |
| Barrier.SpinTestExact | benches/malloc_pathways_mt_bench.cpp:256-261 | the 32-bit test of `gen` leaves the spin if and only if the round is over, through wrap-around |
| Barrier.FetchAddCountsRound | benches/malloc_pathways_mt_bench.cpp:257-258 | the value read by `fetch_add` is the number of threads already arrived at the same round, never wraps, and no reset is pending |
| Barrier.OneResetPerRound | benches/malloc_pathways_mt_bench.cpp:257-259 | at most one thread closes a round and every completed round was reset exactly once |
| Barrier.NobodyStuck | benches/malloc_pathways_mt_bench.cpp:256-262 | if no thread has a step other than spinning then none is inside the barrier |
| Barrier.Progress | benches/malloc_pathways_mt_bench.cpp:252-263 | no deadlock: until all workers have made all calls some worker has a step that changes the state |
| Barrier.BoundedRun | benches/malloc_pathways_mt_bench.cpp:252-263 | n workers with c calls each make at most 4*c*n steps that are not spins |
| Barrier.PhaseSeparation | benches/malloc_pathways_mt_bench.cpp:368-540 | two workers outside the barrier have made the same number of waits and so are in the same phase: preparing, timed or latency |
| Shellsort.KeepsGapOrder | benches/malloc_pathways_bench.cpp:286-304 | sorting the chains of one gap keeps the array in order at any other gap (Knuth, TAOCP vol. 3, section 5.2.1, Theorem K) |
| Shellsort.SlideHole | benches/malloc_pathways_bench.cpp:295-300 | the inner loop slides the hole down its chain past exactly the greater entries to the place where the lifted entry fits |
| Shellsort.InsertAt | benches/malloc_pathways_bench.cpp:295-301 | entry i is inserted into its ordered chain in one move per greater entry before it, everything after i and beyond n untouched |
| Shellsort.GapPass | benches/malloc_pathways_bench.cpp:294-302 | a pass orders the array at its gap, rearranges within chains only, and makes exactly one move for each pair of a chain that was out of order |
| Shellsort.NextPass | benches/malloc_pathways_bench.cpp:291-303 | after each pass the array is in order at every gap so far, including skipped gaps |
| Shellsort.FarOrdered | benches/malloc_pathways_bench.cpp:290-290 | an array in order at gaps 23, 10 and 4 is in order at every distance from 30 up |
| Shellsort.SameGreater | benches/malloc_pathways_bench.cpp:294-302 | earlier insertions of a pass do not change how many entries of the chain before i are greater than entry i |
| Shellsort.ShortMove | benches/malloc_pathways_bench.cpp:294-302 | before the last pass only the 29 entries before an entry can be greater than it |
| Shellsort.FewInversions | benches/malloc_pathways_bench.cpp:290-302 | so the array before the last pass has at most 29*n inversions |
| Shellsort.Sort | benches/malloc_pathways_bench.cpp:286-304 | the result is a sorted permutation; every intermediate pass keeps all earlier gap orders; the moves of each pass are the inversions it found, at most 29*n in the last |
| Shellsort.SortU64 | benches/arbint_bench.cpp:85-100 | the variant without the skip also gives a sorted permutation |
| Percentile.OrderStatisticUnique | benches/malloc_pathways_bench.cpp:306-313 | a rank determines one value of a sample multiset |
| Percentile.SortedUnique | benches/arbint_bench.cpp:85-100 | two sorted arrangements of the same samples are equal, so the sort variant does not matter |
| Percentile.Nearest | benches/malloc_pathways_bench.cpp:310-311 | the index is the nearest to its target, cut off at the last sample |
| Percentile.RankNearest | benches/malloc_pathways_bench.cpp:306-313 | for quantiles up to 1 `pick` reads the index r with r - 1/2 <= q*(n-1) < r + 1/2, from 1 on the last |
| Percentile.TicksOrdered | benches/malloc_pathways_bench.cpp:315-323 | p10 <= p50 <= p90 <= p99 <= p99.9 <= max |
| Percentile.TicksMeaning | benches/malloc_pathways_bench.cpp:315-323 | each percentile is the sample that stands at the index nearest to q*(n-1) once the samples, in the order taken, are sorted |
| Percentile.ReportMeaning | benches/malloc_pathways_bench.cpp:315-323 | the report is those samples, each times the nanoseconds per tick, in order; zeros without samples |
| Percentile.QuantileUnique | benches/malloc_pathways_bench.cpp:306-313 | a quantile determines one value of a sample multiset |
| Percentile.PctlOrderFree | benches/malloc_pathways_mt_bench.cpp:235-242 | two runs over the same samples in any two orders report the same percentiles |
| Percentile.PassCount | benches/malloc_pathways_bench.cpp:368-370 | the number of passes is the least that reaches the floor, cut back to the buffer, at least one |
| Percentile.FloorReached | benches/malloc_pathways_bench.cpp:71-74 | with the bench's constants the floor is always reached within the buffer |
| Percentile.PctlRun | benches/malloc_pathways_bench.cpp:363-382 | between 20000 and 2000000 samples, all writes inside the buffer, and the report is the samples nearest to the quantiles of exactly those samples, converted to nanoseconds |
| Percentile.ConcatIsUnion | benches/malloc_pathways_mt_bench.cpp:576-585 | the merged sample is the multiset union of the workers' samples |
| Percentile.Pack | benches/malloc_pathways_mt_bench.cpp:576-585 | the merge loop concatenates the workers' slices |
| Percentile.SliceAt | benches/malloc_pathways_mt_bench.cpp:576-585 | worker i's samples are the first nlat[i] entries from i*slice on |
| Percentile.MergedReport | benches/malloc_pathways_mt_bench.cpp:576-596 | the merged report is the samples nearest to the quantiles of the union of all workers' samples, converted to nanoseconds |
| Percentile.Median | benches/malloc_pathways_bench.cpp:237-250 | the result is the order statistic of rank n/2 of the input, and the array is sorted |
| Keys.XorShiftInverse | benches/maps_bench.cpp:91-93 | a xor with itself shifted by at least 22 bits has a two-sided inverse on 64-bit words |
| Keys.TimesInverse | benches/maps_bench.cpp:91-92 | wrapping multiplication by c is undone by d when c*d is 1 modulo 2^64 |
| Keys.TimesWraps | benches/maps_bench.cpp:91-92 | the product differs from x*c by a multiple of 2^64 |
| Keys.PlusWraps | benches/maps_bench.cpp:90-90 | the sum differs from x+c by a multiple of 2^64 |
| Bits.ShrIsDiv | benches/maps_bench.cpp:91-93 | a right shift divides by a power of two |
| Keys.SplitmixWritten | benches/maps_bench.cpp:87-94 | splitmix64 is the source's expression in products and sums modulo 2^64 |
| Keys.UndoRun | benches/maps_bench.cpp:87-94 | undoing invertible word steps last to first undoes any list of them |
| Keys.SplitmixBijective | benches/maps_bench.cpp:87-94 | splitmix64 has a two-sided inverse on 64-bit words |
| Keys.KeysWritten | benches/maps_bench.cpp:96-100 | word keys are splitmix64 of i+1, string keys of i+7, misses look up i + 2^40, all modulo 2^64 |
| Keys.KeyU64Injective | benches/maps_bench.cpp:96-100 | different indices have different word keys |
| Keys.MissesMiss | benches/maps_bench.cpp:421-437 | inserted keys are distinct, and all miss keys lie outside them if and only if n <= 2^40 |
| Keys.KeyStrDecodes | benches/maps_bench.cpp:1297-1306 | the 64-bit word of a string key can be read back from its letters |
| Keys.KeyStrInjective | benches/maps_bench.cpp:1297-1306 | different indices have different string keys |
| Keys.StringMissesMiss | benches/maps_bench.cpp:1549-1563 | the same if-and-only-if for string keys |
| Keys.FillKey | benches/maps_bench.cpp:1297-1306 | the buffer holds the 16 letters of the key and a terminator, and no letter is a terminator |
| Workload.Heap.Alloc | benches/malloc_pathways_bench.cpp:756-764 | any non-null pointer to no live block, recorded in the trace |
| Workload.Heap.Free | benches/malloc_pathways_bench.cpp:756-764 | accepts live blocks only, so a double free cannot verify |
| Workload.PutSlot | benches/malloc_pathways_bench.cpp:529-531 | an allocation stored into an empty slot keeps live blocks equal to base plus held slots |
| Workload.TakeSlot | benches/malloc_pathways_bench.cpp:469-471 | freeing the block of a held slot keeps the same ownership |
| Workload.TakeAndNull | benches/malloc_pathways_bench.cpp:525-527 | freeing and nulling keeps null pointers exactly in empty slots |
| Workload.TraceBalance | benches/malloc_pathways_bench.cpp:501-560 | in a trace without double frees allocations minus releases is the number of live blocks |
| Workload.PutSound | benches/malloc_pathways_bench.cpp:529-531 | an allocation into an empty slot keeps the trace free of double frees and the slots equal to what is live |
| Workload.TakeSound | benches/malloc_pathways_bench.cpp:525-527 | so does a release from a held slot |
| Workload.EmptyBalances | benches/malloc_pathways_bench.cpp:513-519 | with all slots empty the trace leaves nothing live and releases equal allocations |
| Workload.PutAccounts | benches/malloc_pathways_bench.cpp:529-531 | an allocation into an empty slot keeps the replayed bytes equal to the slots' bytes plus those outside |
| Workload.TakeAccounts | benches/malloc_pathways_bench.cpp:525-527 | so does a release from a held slot |
| Churn.WorkingSet | benches/malloc_pathways_bench.cpp:505-508 | between 1 and min(ops, 1000000) slots when there are operations |
| Churn.WorkingSetFits | benches/malloc_pathways_bench.cpp:505-508 | the slot count is the largest the rules allow; full slots of hi bytes are within 64 MiB if and only if hi is at most 1 MiB or opsn*hi is at most 64 MiB |
| Churn.ChurnSound | benches/malloc_pathways_bench.cpp:521-534 | for every draw stream nothing is freed twice at any point of a pass |
| Churn.RoundsBalance | benches/malloc_pathways_bench.cpp:513-560 | any number of passes with cleanup frees every block exactly once |
| Churn.ChurnBytes | benches/malloc_pathways_bench.cpp:505-534 | replaying the trace, at every point of a pass the live bytes exceed those outside the table by at most slots*hi |
| Churn.SweepBytes | benches/malloc_pathways_bench.cpp:513-519 | cleanup never raises the live bytes |
| Churn.RoundsBytes | benches/malloc_pathways_bench.cpp:513-560 | the same bound at every point of any number of passes with their cleanups |
| Churn.WorstPeak | benches/malloc_pathways_bench.cpp:505-534 | some in-range stream brings the live bytes to slots*hi |
| Churn.PeakExact | benches/malloc_pathways_bench.cpp:505-560 | every stream stays within a limit at every point if and only if slots*hi does |
| Churn.AnnouncedBound | benches/malloc_pathways_bench.cpp:867-867 | every stream stays within the announced 64 MiB if and only if hi is at most 1 MiB or opsn*hi is at most 64 MiB |
| Churn.BudgetExceeded | benches/malloc_pathways_bench.cpp:505-508 | 1000 operations with blocks of up to 2 MiB can take 128 MiB |
| Churn.ChurnTrace | benches/malloc_pathways_bench.cpp:521-534 | request i of a pass from an empty table is Allocated(sizes[i]) if and only if an even number of earlier operations drew the same slot, and else releases the block the last of them allocated |
| Churn.SweepTrace | benches/malloc_pathways_bench.cpp:513-519 | cleanup releases the blocks of the held slots in slot order |
| Churn.RoundsTrace | benches/malloc_pathways_bench.cpp:513-560 | the whole trace of any number of passes with cleanup, request by request from draws and sizes |
| Churn.SameWorkload | benches/malloc_pathways_bench.cpp:521-555 | any two passes over the same draws make the same requests in order, a release naming the block of the same earlier operation |
| Churn.ChurnOp | benches/malloc_pathways_bench.cpp:524-533 | one operation frees or fills the drawn slot as its pointer says |
| Churn.ChurnPass | benches/malloc_pathways_bench.cpp:521-534 | the timed pass makes exactly the requests that draws and sizes determine, and every prefix of its trace stays within slots*hi more bytes |
| Churn.ChurnInstrumented | benches/malloc_pathways_bench.cpp:535-555 | the instrumented pass makes the same requests within the same bytes and fills exactly its latency entries |
| Churn.Cleanup | benches/malloc_pathways_bench.cpp:513-519 | frees the held slots in slot order, restores the allocator's live blocks and bytes, and never raises the live bytes on the way |
| Churn.TimedPasses | benches/malloc_pathways_bench.cpp:557-557 | the trace of any number of timed passes with cleanup, request by request, every prefix within the byte bound |
| Churn.InstrumentedPasses | benches/malloc_pathways_bench.cpp:558-558 | the same of instrumented passes, inside the latency buffer |
| Churn.MeasureInterleaved | benches/malloc_pathways_bench.cpp:501-560 | the allocator is left as found; every request of the timed, instrumented and cleanup parts is the one draws and sizes determine; at every point at most slots*hi bytes are live beyond those at the start; from a quiet start allocations equal releases |
| Shuffle.ShuffledPermutes | benches/malloc_pathways_bench.cpp:391-402 | for any in-range draws the result is a permutation |
| Shuffle.FirstDrawSettles | benches/malloc_pathways_bench.cpp:396-401 | the first draw j puts entry j last and the last entry in its place, and the other draws shuffle the rest |
| Shuffle.OneToOne | benches/malloc_pathways_bench.cpp:396-401 | different draw sequences give different permutations |
| Shuffle.Onto | benches/malloc_pathways_bench.cpp:396-401 | every permutation is given by some draw sequence |
| Shuffle.BuildPerm | benches/malloc_pathways_bench.cpp:391-402 | the in-place loop computes that permutation and leaves the rest of the array alone |
| Holding.PutTrace | benches/malloc_pathways_bench.cpp:463-468 | allocation i of an order asks for sizes[i] and its block ends up in slot order[i] |
| Holding.TakeTrace | benches/malloc_pathways_bench.cpp:469-471 | release i of an order names the block of slot order[i] |
| Holding.PutAll | benches/malloc_pathways_bench.cpp:463-468 | allocates into each slot of an order once, in order and with its size |
| Holding.TakeAll | benches/malloc_pathways_bench.cpp:469-471 | frees each slot of an order once, in order, leaving stale pointers that are never freed again |
| Holding.PunchAll | benches/malloc_pathways_bench.cpp:575-579 | frees and nulls each slot of an order once, in order |
| Holding.FillAll | benches/malloc_pathways_bench.cpp:571-574 | every slot is held after the filling loop |
| Holding.FreeAll | benches/malloc_pathways_bench.cpp:469-471 | freeing in any permutation releases block after block in that order and empties every slot |
| Holding.Punch | benches/malloc_pathways_bench.cpp:575-579 | the empty slots are exactly the first m of the permutation |
| Holding.Refill | benches/malloc_pathways_bench.cpp:583-588 | refilling the holes leaves every slot held |
| Holding.HoldPass | benches/malloc_pathways_bench.cpp:463-471 | one round: request i is Allocated(sizes[i]) and request n + i releases block order[i] of the round |
| Holding.HoldRoundsTrace | benches/malloc_pathways_bench.cpp:456-499 | the same of each of any number of rounds |
| Holding.HoldRoundsBalance | benches/malloc_pathways_bench.cpp:456-499 | in-order or shuffled, any number of rounds frees every block exactly once |
| Holding.MeasureTwoPhase | benches/malloc_pathways_bench.cpp:456-499 | the allocator is left as found; every round allocates sizes[0], sizes[1], ... and releases its blocks in slot order or in the shuffled order; from a quiet start allocations equal releases |
| Holding.FragmentedBalance | benches/malloc_pathways_bench.cpp:562-626 | the whole fragmenting run frees every block exactly once |
| Holding.Fragment | benches/malloc_pathways_bench.cpp:571-618 | fill, punch and any number of refill passes, request by request, null pointers exactly in the holes |
| Holding.RefillPass | benches/malloc_pathways_bench.cpp:582-594 | allocates sizes[0] to sizes[m-1], releases those m blocks in the same order, and leaves null pointers exactly in the punched holes |
| Holding.FragmentingTrace | benches/malloc_pathways_bench.cpp:562-626 | the whole trace: n allocations, the first m blocks of the shuffled order released, each refill pass, and the rest released in slot order |
| Holding.MeasureFragmented | benches/malloc_pathways_bench.cpp:562-626 | the allocator is left as found after any number of refill passes, its requests are those, and from a quiet start total allocations equal total releases |
| Holding.SerialAllocs | benches/malloc_pathways_mt_bench.cpp:525-532 | allocates min(ops, cap) blocks, one latency each |
| Holding.SerialFrees | benches/malloc_pathways_mt_bench.cpp:533-538 | frees from the first block on while latency entries remain |
| Holding.SerialLatency | benches/malloc_pathways_mt_bench.cpp:524-540 | allocates sizes[0], sizes[1], ..., then frees the first of these blocks in order; leaves exactly the stated slots held, and nothing live if and only if 2*ops <= cap or cap is 0 |
| Holding.PerWorkerFits | benches/malloc_pathways_mt_bench.cpp:820-825 | each worker gets the most blocks within the budget, at least 1 and at most 200000 |
| Holding.SerialConfigs | benches/malloc_pathways_mt_bench.cpp:820-825 | with the bench's budget and buffer nothing is left live if and only if threads*hi is at least 16384 |
| PingPong.StepInv | benches/coro_file_bench.cpp:216-267 | every call of either side keeps the protocol invariant |
| PingPong.InFlightBound | benches/coro_file_bench.cpp:216-267 | at most sz bytes are in flight in both directions together |
| PingPong.WritesToEmpty | benches/coro_file_bench.cpp:227-257 | every write finds both channels empty |
| PingPong.LockStepIff | benches/coro_file_bench.cpp:216-267 | the round counters stay within one of each other in every run if and only if messages are not empty or there is at most one round |
| PingPong.EmptyMessagesRunAhead | benches/coro_file_bench.cpp:251-267 | with empty messages the client can be two rounds ahead |
| PingPong.NoDeadlock | benches/coro_file_bench.cpp:216-267 | until both sides have finished some call can proceed |
| PingPong.RunsFinish | benches/coro_file_bench.cpp:216-267 | every run has at most 2*rounds*(sz+1) calls, and a run that cannot continue has made exactly `rounds` rounds on both sides with no byte left |
| PingPong.SplitExact | benches/coro_file_bench.cpp:221-226 | a way of splitting the reads of a message reproduces every message over every buffer if and only if it is one read |
| PingPong.EveryEcho | benches/coro_file_bench.cpp:216-231 | in every run every echo is the request as its reads left it in the buffer, and a request read in one piece comes back unchanged |
| PingPong.RequestsChain | benches/coro_file_bench.cpp:251-267 | the first request is the client's buffer, and each later one is the previous request with its echo read over it in some split |
| PingPong.UnreadEcho | benches/coro_file_bench.cpp:259-264 | what waits for the client is the unread end of the server's last echo |
| PingPong.WholeRuns | benches/coro_file_bench.cpp:216-267 | when every read is whole, every request and every echo of the run is the client's message |
| PingPong.EverySplitHappens | benches/coro_file_bench.cpp:216-231 | every split of the first message is the first exchange of some run |
| PingPong.WrongEcho | benches/coro_file_bench.cpp:219-227 | with at least one round, two bytes and bytes that are not uniform some run returns a wrong echo |
| PingPong.WrongEchoExample | benches/coro_file_bench.cpp:219-227 | "ab" read as two single bytes over "xy" comes back as "by" |
| PingPong.UniformRuns | benches/coro_file_bench.cpp:216-267 | uniform bytes stay uniform in every run and every echo is right |
| PingPong.EchoIff | benches/coro_file_bench.cpp:216-267 | every run echoes every message unchanged if and only if there are no rounds, at most one byte, or uniform bytes |
| Steal.ShiftedWraps | benches/chase_lev_bench.cpp:174-176 | the left shift is multiplication by a power of two modulo 2^32 |
| Steal.SeedWritten | benches/chase_lev_bench.cpp:174-176 | the next seed is the source's three xor-shifts in products modulo 2^32 and quotients |
| Steal.LeftTwice | benches/chase_lev_bench.cpp:174-176 | the same left xor-shift twice is one of twice the distance |
| Steal.SeedsBijective | benches/chase_lev_bench.cpp:174-176 | xorshift32 has a two-sided inverse on 32-bit words |
| Steal.NextSeedNonZero | benches/chase_lev_bench.cpp:174-176 | the next seed is zero if and only if the seed is |
| Steal.Start | benches/chase_lev_bench.cpp:177-177 | the start index is below nv |
| Steal.StartExact | benches/chase_lev_bench.cpp:177-177 | the start is v if and only if v*2^32 <= seed*nv < (v+1)*2^32 |
| Steal.ScaleExact | benches/chase_lev_bench.cpp:177-177 | which seeds start at which victim: nv equal parts of the seed range in order |
| Steal.SweepCovers | benches/chase_lev_bench.cpp:178-184 | a sweep from any start probes every victim but self exactly once |
| Steal.AtWraps | benches/chase_lev_bench.cpp:183-183 | the i-th place after the start is start + i modulo nv |
| Steal.ProbeOrder | benches/chase_lev_bench.cpp:178-184 | probes come in the order of the distance from the start |
| Steal.Sweep | benches/chase_lev_bench.cpp:178-184 | one sweep probes in cyclic order and stops at the first non-empty answer |
| Steal.StealSweep | benches/chase_lev_bench.cpp:169-187 | answers the first non-empty probe in the order of two sweeps; 0 only after all 2*(nv-1) probes were empty; the seed is left one draw on after an answer in the first sweep and two draws on otherwise |
| Steal.ProbeSweep | benches/chase_lev_bench.cpp:217-221 | a sweep without early exit makes nv-1 probes |
| Steal.ProbeRow | benches/chase_lev_bench.cpp:211-223 | two sweeps for each index as self make nv*2*(nv-1) probes and 2*nv draws |
| Steal.ProbeStrided | benches/chase_lev_bench.cpp:210-229 | the loops make exactly the sweeps*nv*2*(nv-1) probes the bench divides by |
| ForkJoin.Deque.PushBottom | benches/chase_lev_bench.cpp:284-284 | appends at the owner's end |
| ForkJoin.Deque.PopBottom | benches/chase_lev_bench.cpp:287-287 | removes the last item, 0 when empty |
| ForkJoin.TraceBalance | benches/chase_lev_bench.cpp:279-294 | tags are pushed in order 1, 2, 3, ... and each is popped exactly once: 2^d - 1 of both |
| ForkJoin.TraceShape | benches/chase_lev_bench.cpp:279-289 | a call pushes first and pops between the calls of its two children |
| ForkJoin.Fj | benches/chase_lev_bench.cpp:279-289 | restores the deque, pops its own tag in every activation, advances the tag by 2^d - 1 and adds 2^c at level c of the histogram |
| ForkJoin.HalfAtLast | benches/chase_lev_bench.cpp:321-321 | up to depth 63 only the last level passes the p50 test |
| ForkJoin.HalfWraps | benches/chase_lev_bench.cpp:321-321 | at depth 64 the last level fails the wrapped p50 test |
| ForkJoin.ReachedAtLast | benches/chase_lev_bench.cpp:322-322 | up to depth 57 only the last level passes the p95 test |
| ForkJoin.WrapsTooEarly | benches/chase_lev_bench.cpp:322-322 | from depth 58 to 64 the wrapped p95 test passes too early or fails at the last level |
| ForkJoin.ReportExact | benches/chase_lev_bench.cpp:316-323 | the first level that passes the p50 test is the depth if and only if the depth is at most 63, for p95 if and only if it is at most 57 |
| ForkJoin.SumLevels | benches/chase_lev_bench.cpp:314-315 | the histogram sums to 2^d - 1 |
| ForkJoin.ScanLevels | benches/chase_lev_bench.cpp:316-323 | the scan finds the first passing levels and the deepest non-empty one |
| ForkJoin.ForkJoinDepths | benches/chase_lev_bench.cpp:307-325 | max is the depth; p50 is if and only if the depth is at most 63, p95 if and only if it is at most 57 |
| Fused.FilterPrefix | benches/lazy_bench.cpp:410-418 | filtering a prefix gives a prefix of filtering the whole |
| Fused.PositionsIndexFilter | benches/lazy_bench.cpp:474-482 | the collected positions are increasing and index exactly the filtered elements |
| Fused.FilterCollect | benches/lazy_bench.cpp:411-418 | the compaction loop computes the filter |
| Fused.EarlyExit | benches/lazy_bench.cpp:428-435 | stopping at the k-th survivor gives take(k) of map of filter of the whole input |
| Fused.FilterMapTake | benches/lazy_bench.cpp:427-435 | the early-exit loop equals take(n/8) of map of filter in 32-bit arithmetic, and reads exactly up to the element that completes n/8 results |
| Fused.ToI32Wraps | benches/lazy_bench.cpp:433-433 | a 32-bit result differs from the true one by a multiple of 2^32 |
| Fused.TripleExact | benches/lazy_bench.cpp:433-433 | the 32-bit products are exact if and only if no element exceeds 715827882 |
| Fused.EnumerateFilter | benches/lazy_bench.cpp:475-482 | the loop collects the positions of the positive elements, narrowed to 32 bits |
| Fused.NarrowedExact | benches/lazy_bench.cpp:480-480 | the narrowed positions are the positions if and only if no element from position 2^31 on is positive |
| Fused.FourLanes | benches/lazy_bench.cpp:347-354 | lane r is the word of the sum of every fourth element from r on |
| Fused.LanesSum | benches/lazy_bench.cpp:347-356 | the four lanes together are the sum of the elements read |
| Fused.Sum4 | benches/lazy_bench.cpp:346-356 | four wrapping lanes and a tail give the word below 2^64 that differs from the signed sum by a multiple of 2^64 |
| Fused.ReverseSum | benches/lazy_bench.cpp:497-500 | summing backward agrees with summing forward |
| Fused.SuffixFits | benches/lazy_bench.cpp:498-499 | up to 2^32 elements the 64-bit accumulator never overflows on the way |
| Output.ValueOfDec | benches/io_print_system_bench.cpp:23-37 | the numeral of v has value v |
| Output.NoLeadingZero | benches/io_print_system_bench.cpp:23-37 | numerals have no leading zeros |
| Output.DecFits | benches/io_print_system_bench.cpp:26-27 | a 64-bit number has at most 20 digits |
| Output.Digits | benches/io_print_system_bench.cpp:27-34 | the digit loop fills the scratch buffer with the numeral reversed |
| Output.UToDec | benches/io_print_system_bench.cpp:23-37 | the numeral is written at the offset and nothing else changes |
| Output.ParseKv | benches/io_print_system_bench.cpp:39-52 | 0 for an argument that does not start with the key, else the digits after it modulo 2^64 |
| Output.ParsePrinted | benches/io_print_system_bench.cpp:23-52 | a key followed by the numeral of any 64-bit v parses back to v |
| Output.LineParses | benches/io_print_system_bench.cpp:112-118 | the number of a line parses back from it |
| Output.FormatLine | benches/io_print_system_bench.cpp:112-118 | the 96-byte buffer receives the line, at most 55 bytes |
| Output.RawLine | benches/io_print_system_bench.cpp:97-107 | one write per line |
| Output.RawBatch | benches/io_print_system_bench.cpp:108-126 | the same bytes as line-by-line output, in writes of whole lines of at most 4096 bytes, each but the last without room for the line that follows |
| Output.GreedyAhead | benches/io_print_system_bench.cpp:119-124 | no other way of batching is ahead of the loop after the same number of writes |
| Output.FewestWrites | benches/io_print_system_bench.cpp:108-126 | no way of sending the lines in whole-line writes of at most 4096 bytes takes fewer writes |
| Table.Hundredths | benches/malloc_pathways_bench.cpp:126-132 | the printed hundredths are within half a hundredth of the value, 0 for a negative one |
| Table.TokensWord | benches/plot_malloc_pathways.py:66-66 | a word after a blank is a token of its own, after a token it lengthens that one |
| Table.PaddingMeaning | benches/malloc_pathways_bench.cpp:140-148 | a text that fits ends on its column, one that does not gets one blank before it |
| Table.CellTokens | benches/malloc_pathways_bench.cpp:140-202 | a printed cell adds its own token when it is separate from what precedes it and else lengthens the last token |
| Table.CursorExact | benches/malloc_pathways_bench.cpp:140-202 | widths alone tell where a line ends and whether it ends in a token |
| Table.RowTokens | benches/malloc_pathways_bench.cpp:140-202 | splitting any printed row gives its texts with touching ones run together |
| Table.JoinedCount | benches/malloc_pathways_bench.cpp:140-202 | as many tokens as cells if and only if nothing touches, one fewer means exactly one neighbouring pair ran together |
| Table.RowSplits | benches/malloc_pathways_bench.cpp:140-202 | splitting a printed row gives exactly its cells if and only if no two cells touch |
| Table.FittingRows | benches/malloc_pathways_bench.cpp:697-710 | where every text fits its column, two cells touch exactly when the first ends flush and the second fills its room |
| Table.IntReads | benches/malloc_pathways_bench.cpp:150-166 | a printed integer is one token that reads back |
| Table.FixedReads | benches/malloc_pathways_bench.cpp:168-186 | a printed two-decimal number is one token that reads back |
| Table.FixedTwice | benches/malloc_pathways_bench.cpp:168-186 | two such numbers run together are not one |
| Table.MtRoundTrip | benches/plot_malloc_pathways.py:90-97 | every multi-threaded throughput row is read back whole if no two cells touch and refused if two do, with or without ratio; none is read as another row |
| Table.MtMeasured | benches/malloc_pathways_mt_bench.cpp:698-712 | every row that is read has the record's names and counts and each measurement to half a hundredth, and a ratio exactly when there was one |
| Table.MtBenchRows | benches/malloc_pathways_mt_bench.cpp:74-79 | rows with names of the bench's widths and numbers narrower than their columns always come back |
| Table.StRoundTrip | benches/plot_malloc_pathways.py:78-85 | the same for single-threaded throughput rows |
| Table.StMeasured | benches/malloc_pathways_bench.cpp:697-712 | every row that is read has the record's names and counts and each measurement to half a hundredth |
| Table.StBenchRows | benches/malloc_pathways_bench.cpp:697-712 | of rows with names of the bench's widths and narrow numbers exactly those with an 8-letter category and a 9-letter phase are lost |
| Table.SubPageBulkFreeLost | benches/malloc_pathways_bench.cpp:807-810 | every sub-page bulk-free throughput row is refused by the reader, whatever was measured |
| Table.StLatRoundTrip | benches/plot_malloc_pathways.py:86-89 | single-threaded latency rows are read back whole if no two cells touch and refused if two do |
| Table.MtLatRoundTrip | benches/plot_malloc_pathways.py:98-101 | the same for multi-threaded latency rows |
| Table.SubPageBulkFreeLatencyLost | benches/malloc_pathways_bench.cpp:734-746 | every sub-page bulk-free latency row is refused as well |
| Table.LineFits | benches/malloc_pathways_bench.cpp:134-148 | rows with columns up to 107 and texts up to 23 letters take at most 107 + 24 characters per cell, whatever runs over its column |
| Printer.Line.PadTo | benches/malloc_pathways_bench.cpp:140-148 | writes exactly the padding of the column rule |
| Printer.Line.WriteBackward | benches/malloc_pathways_bench.cpp:165-165 | emits the scratch digits reversed |
| Printer.Line.UAt | benches/malloc_pathways_bench.cpp:150-166 | adds a right-justified integer cell |
| Printer.Line.F2At | benches/malloc_pathways_bench.cpp:168-186 | adds a right-justified two-decimal cell |
| Printer.Line.SAt | benches/malloc_pathways_bench.cpp:188-195 | adds a right-justified text cell |
| Printer.Line.SLjAt | benches/malloc_pathways_bench.cpp:197-202 | adds a left-justified text cell |
| Printer.MtLineFits | benches/malloc_pathways_mt_bench.cpp:698-712 | with names of up to 23 letters no 64-bit numbers make the line overrun its 384-byte buffer |
| Printer.PrintMtRow | benches/malloc_pathways_mt_bench.cpp:698-712 | the printed line is the row's cells rendered in order |
| Printer.StLineFits | benches/malloc_pathways_bench.cpp:697-712 | the same for single-threaded rows |
| Printer.PrintStRow | benches/malloc_pathways_bench.cpp:697-712 | the printed line is the row's cells rendered in order |

## Left out
- The library under test (allocator tiers, deque internals, maps, lazy views, the random generators): only calls to it are visible in the benches.
- Perf counters, time-stamp counters, clock calibration, CPU pinning, colours, headings, plotting: no functional content.
- The benches for files, dynamic loading, linear algebra, geometry and ropes: thin loops around library calls.
- Weak memory orders of the barrier's atomics: the model is sequentially consistent.
- `measure_roundtrip` and `worker_hot`: they free each block right after allocating it, so no block survives a step and there is no table to keep.
- Holding.MeasureFragmented: does not cover N = 0, where the source takes M = 1 and reads a permutation entry it never set; its counts are at least 1000.
- The outer loop of the plotting script's `parse`: it only finds the section and table a line belongs to.
- Printing methods for latency rows: the same calls in the same order as for throughput rows.
- Which tokens Python's `int` and `float` accept beyond the printed shapes: other tokens count as unreadable.
- Percentile.PctlRun: converts no ticks to `f64`; rounding of the conversion and of the quantile product is not modelled.
- ForkJoin.Fj: the deque is used by its owner alone; thieves and the fixed capacity of one variant are not modelled.
