# Verified algorithms of ServMark

ServMark is a server benchmark suite. Most of its files time system calls or libraries, but a
number of its benchmarks and its statistics core are algorithms with exact correctness
statements. This project models those algorithms and proves the statements for arrays, samples,
rings and thread counts of every size, not just the sizes the benchmarks use.

| file | what it models |
|---|---|
| Complex.dfy, Dft.dfy, BitReversal.dfy, Fft.dfy | the in-place radix-2 transform, its tables, and the forward-backward check |
| RingQueue.dfy | the lock-free ring queue, producer and consumer loops as interleaved atomic steps |
| HashTable.dfy | the open-addressing table without tombstones and its four phases |
| RadixSort.dfy | the least-significant-digit radix sort |
| Sorting.dfy, FalseDiscovery.dfy, RankSum.dfy, Outliers.dfy | the statistics core: Benjamini-Hochberg, Mann-Whitney with Hodges-Lehmann, outlier removal |
| PointerChase.dfy | the shuffled pointer cycle and the walk along it |
| RayTriangle.dfy | ray-triangle intersection |
| Sieve.dfy | the sieve of Eratosthenes |
| SemaphoreShutdown.dfy | the semaphore benchmark with its shutdown protocol |
| CorePinning.dfy | grouping CPUs into physical cores and pinning instances |
| IntParse.dfy | printing and parsing of decimal integers |
| Arithmetic.dfy, Bits.dfy | division with remainder, shifts and bitwise operations |

Code that changes arrays or fields is modelled by methods on arrays and classes, each proved
against a specification function; the properties are lemmas about those functions. The two
multi-threaded benchmarks are state machines whose steps are the single atomic operations.

`dafny verify dfyconfig.toml` checks the project.

## Conventions

- Floating-point values are mathematical reals. The circular functions and the square root are
  parameters constrained by standard facts: the addition laws with cos 0, sin 0, cos(-pi) and
  sin(-pi) for the twiddle tables, and sqrt 0 = 0 for the outlier test (its example also uses
  the roots of 80/3 and 20).
- Indices, counters and sizes are unbounded integers. 64-bit words are integers below 2^64, the
  parsed integers are a 64-bit signed type whose range every intermediate result is shown to
  respect, and the hash mix is written out modulo 2^64. What is proved of the table holds for
  every hash function.
- Random draws, the text of the sibling lists, the critical value of the outlier test and the
  contents of tables left by earlier runs are arbitrary parameters.
- Masking with a power of two less one (the wrap of the hash table, the digits of the sort) is
  written as a remainder; `Bits.MaskIsRemainder` shows that this is the same.
- A sort by `qsort` is represented by its only possible result, the ascending rearrangement.

## Where the code and its own description differ

- `stats_mann_whitney` gives tied values their smallest rank, so its statistic is the number of
  pairs won less the ties inside the first sample. `RankSum.TextbookExactly` states exactly when
  that is the usual statistic, which counts half of each tie between the samples, and
  `RankSum.TiedSample` is a sample on which it is not.
- `stats_detect_outliers` is described as the generalized test with Rosner's critical values. The
  code stops at the first round that does not exceed the critical value, while the generalized
  test goes on and lets the last exceeding round decide. `Outliers.StopsAtFirstMiss` states for
  which values the two counts agree: when no round that exceeds comes after one that does not.
  In `Outliers.MaskedPair` two equal outliers mask each other, and the code finds neither.
- `stats_benjamini_hochberg` starts from a threshold of zero, so with a negative rate it keeps
  p-values equal to zero although nothing should be kept; `FalseDiscovery.KeptCountExactly`, and
  `FalseDiscovery.ZeroKeptAtNegativeRate` for an example.
- In the ring queue the item 0 reads like "empty". `RingQueue.CleanExactlyWhenDrainIsSafe` states
  for which numbers of items every completed run still drains the queue.
- The hash table deletes without a tombstone. `HashTable.DeleteHidesExactly` states which entries
  a deletion makes unreachable, and by `HashTable.CollisionHides` two colliding keys are enough.
- `parse_int_fast` does not look for overflow, and the Hodges-Lehmann estimate is read from the
  middle of an array that may be empty. `IntParse.ParseIntFast` and `RankSum.HodgesLehmann` mark
  these outcomes and state exactly when they come about.

## Model

| member | source | states |
|---|---|---|
| Fft.FftState.constructor | src/benchmarks/compute/fp_fft.c:42-68 | initialisation leaves the cosines and sines of -2 pi k / n in the tables, which are the powers of the root of unity at k = 1 by the addition laws, and the bit-reversal table |
| Fft.FillTwiddles | src/benchmarks/compute/fp_fft.c:55-58 | entry i of the tables is the cosine and the sine of -2 pi i / n, and together they are the i-th power of entry 1 |
| Fft.TwiddleIsRoot | src/benchmarks/compute/fp_fft.c:55-58 | entry 1 is a root of unity of order n: its n/2-th power is minus one |
| BitReversal.BuildTable | src/benchmarks/compute/fp_fft.c:59-63 | the bitwise loops build the table of bit reversals for every power of two |
| BitReversal.RevReversesBits | src/benchmarks/compute/fp_fft.c:59-63 | bit t of an entry is bit log2(n)-1-t of its index |
| BitReversal.RevInvolution | src/benchmarks/compute/fp_fft.c:59-63 | bit reversal stays below n and is its own inverse |
| Fft.SwapPass | src/benchmarks/compute/fp_fft.c:19-25 | the swaps guarded by i < j apply exactly the bit-reversal permutation to both arrays |
| Fft.ShareIsStrided | src/benchmarks/compute/fp_fft.c:26-28 | the samples that meet in block b of m blocks are every m-th one, starting at the reversal of b |
| Fft.Combine | src/benchmarks/compute/fp_fft.c:30-36 | one butterfly replaces the pair by sum and difference with the twisted second point, and touches nothing else |
| Fft.StageStep | src/benchmarks/compute/fp_fft.c:29-37 | a butterfly takes two points of half-length transforms to two points of the full-length transform of the same samples |
| Fft.Stage | src/benchmarks/compute/fp_fft.c:26-39 | if every block of len/2 points holds the transform of its share, then after the pass every block of len points does |
| Fft.FftRadix2 | src/benchmarks/compute/fp_fft.c:17-40 | for every n = 2^m and every input, point k ends as the direct sum of x[j] * w^(jk) |
| Fft.ForwardOfImpulse | src/benchmarks/compute/fp_fft.c:55-58 | in the forward transform the sample at j appears at point k turned by the angle -2 pi j k / n |
| Dft.ImpulseResponse | src/benchmarks/compute/fp_fft.c:26-39 | a single sample at j contributes its value times w^(jk) to point k, and nothing else does |
| Dft.ResponsesAdd | src/benchmarks/compute/fp_fft.c:26-39 | the transform of a sum of signals is the sum of their transforms |
| Dft.TransformIsDirectSum | src/benchmarks/compute/fp_fft.c:26-39 | evaluating the signal's polynomial at w^k is the direct sum with exponents j*k |
| Dft.EvenOddSplit | src/benchmarks/compute/fp_fft.c:26-39 | a 2h-point transform splits into the transforms of the even and the odd samples |
| Dft.Butterfly | src/benchmarks/compute/fp_fft.c:32-36 | the same two half transforms give output k and, with a minus sign, output k + h |
| Dft.TransformInverts | src/benchmarks/compute/fp_fft.c:91-97 | transforming with w and then with its inverse multiplies every sample by n |
| Fft.FftState.NegateSines | src/benchmarks/compute/fp_fft.c:92 | negating the sines turns the table of a root into the table of its conjugate |
| Fft.BackwardPoint | src/benchmarks/compute/fp_fft.c:91-97 | the second run leaves n times the original sample at every point |
| Fft.FftState.Measure | src/benchmarks/compute/fp_fft.c:78-99 | forward, backward and scaled by n, the work buffers hold the signal again, the accumulated error is zero, and the sine table is back to its starting value |
| RingQueue.ProducerKeepsInv | src/benchmarks/sync/sync_mpmc.c:34-59 | each atomic step of the producer keeps the contents of the ring, its cursors and both threads' knowledge of them consistent |
| RingQueue.ConsumerKeepsInv | src/benchmarks/sync/sync_mpmc.c:43-73 | so does each atomic step of the consumer |
| RingQueue.FullTest | src/benchmarks/sync/sync_mpmc.c:36-37 | the full test is true exactly when size - 1 items are inside |
| RingQueue.EmptyTest | src/benchmarks/sync/sync_mpmc.c:45 | the empty test is true exactly when nothing is inside |
| RingQueue.FifoOrder | src/benchmarks/sync/sync_mpmc.c:34-49 | in every interleaving and from every starting offset, what came out is a prefix of what went in, at most size - 1 items are inside, no unread slot is about to be overwritten, and the item about to be returned is the oldest |
| RingQueue.CompletedRunIsClean | src/benchmarks/sync/sync_mpmc.c:51-73 | with one item, or at least as many as slots, every completed run ends with the queue empty and N - 1 items counted |
| RingQueue.UncleanRun | src/benchmarks/sync/sync_mpmc.c:66-70 | for every other number of items some run completes otherwise |
| RingQueue.CleanExactlyWhenDrainIsSafe | src/benchmarks/sync/sync_mpmc.c:51-73 | hence all completed runs are clean if and only if N = 1 or N is at least the number of slots |
| RingQueue.FairRunsComplete | src/benchmarks/sync/sync_mpmc.c:51-73 | every run in which both threads keep stepping completes: from any reachable state with the gate open, 11N + 9 blocks of at least two producer and three consumer steps each, however interleaved, end with both threads finished |
| RingQueue.CompletionStaysPossible | src/benchmarks/sync/sync_mpmc.c:51-73 | every run, whatever has happened in it, can be continued until both threads have finished |
| HashTable.HashState.HashInsert | src/benchmarks/compute/int_hash.c:55-66 | the probe loop of up to two turns stores at the first slot that is empty or holds the key, and changes nothing when there is none |
| HashTable.HashState.HashLookup | src/benchmarks/compute/int_hash.c:68-77 | the probe returns the value at the first such slot if it holds the key, and 0 otherwise |
| HashTable.HashState.HashDelete | src/benchmarks/compute/int_hash.c:79-91 | the probe empties the entry it would have found, and nothing else |
| HashTable.MixIsModular | src/benchmarks/compute/int_hash.c:45-53 | the shifts and additions of the mix are multiplications by four odd constants modulo 2^64 |
| HashTable.HashIsModular | src/benchmarks/compute/int_hash.c:45-53 | the whole mix as four multiplications modulo 2^64 with an exclusive or of the upper part between them |
| HashTable.HashInjective | src/benchmarks/compute/int_hash.c:45-53 | different keys have different hashes |
| HashTable.DroppedMeansFull | src/benchmarks/compute/int_hash.c:58-62 | an insertion is dropped only when every slot holds another key |
| HashTable.InsertKeepsPresent | src/benchmarks/compute/int_hash.c:55-66 | in any table, stale entries included, an entry that a probe finds stays found in its slot through any insertion |
| HashTable.InsertKeepsChains | src/benchmarks/compute/int_hash.c:55-66 | insertions keep the chain invariant: no hole between home and entry, no key twice |
| HashTable.InsertRefines | src/benchmarks/compute/int_hash.c:55-66 | an insertion into a table that represents a finite map gives a table that represents the updated map, or the same map when it is full |
| HashTable.InsertOnlyRefinesMap | src/benchmarks/compute/int_hash.c:55-77 | from an empty table every sequence of insertions of non-zero keys represents the finite map of those insertions |
| HashTable.LookupAgrees | src/benchmarks/compute/int_hash.c:68-77 | such a table answers every lookup of a non-zero key like the map, with 0 for absent keys |
| HashTable.InsertPhase | src/benchmarks/compute/int_hash.c:120-127 | from any table, a non-zero key whose insertion was not dropped looks up to the value of its last insertion |
| HashTable.CollectedValue | src/benchmarks/compute/int_hash.c:120-127 | from any table and for any lists, a non-zero key reads as the value of its last insertion, or as 0 if its insertion was dropped |
| HashTable.RoomSuffices | src/benchmarks/compute/int_hash.c:120-123 | with at least as many empty slots as insertions none is dropped |
| HashTable.DeletePhase | src/benchmarks/compute/int_hash.c:128-135 | from any table, after all keys are deleted each of them looks up to 0 |
| HashTable.DeleteHidesExactly | src/benchmarks/compute/int_hash.c:87-90 | deleting one key makes another unreachable exactly when the deleted entry lies on the other's probe path |
| HashTable.CollisionHides | src/benchmarks/compute/int_hash.c:87-90 | of any two keys with the same home slot, inserted into an empty table, the second reads as absent once the first is deleted, although it is still stored |
| HashTable.HashState.Measure | src/benchmarks/compute/int_hash.c:113-135 | the four phases from any table and for any lists: the collected value is that of the readings after the insertions, the verification adds nothing to it, and all keys read 0 at the end |
| HashTable.CollectedParity | src/benchmarks/compute/int_hash.c:125-127 | bit k of the collected value is the parity of bit k over all readings |
| Bits.MaskIsRemainder | src/benchmarks/compute/int_hash.c:56-59 | masking with a power of two less one is the remainder |
| RadixSort.Histogram | src/benchmarks/compute/int_sort.c:36-40 | each count is the number of elements with that digit |
| RadixSort.PrefixSums | src/benchmarks/compute/int_sort.c:41-43 | each start position is the total length of the buckets before |
| RadixSort.CountingPass | src/benchmarks/compute/int_sort.c:36-47 | a pass leaves the concatenation of the buckets in order, each in its old order, and nothing beyond n changes |
| RadixSort.PassPermutes | src/benchmarks/compute/int_sort.c:44-47 | a pass rearranges its input |
| RadixSort.PassExtendsOrder | src/benchmarks/compute/int_sort.c:35-48 | data sorted on its low p bytes is sorted on its low p + 1 bytes after the pass on byte p |
| RadixSort.PassIsStable | src/benchmarks/compute/int_sort.c:44-47 | a pass keeps the order of any elements that have their digit in common |
| RadixSort.PassesAreStable | src/benchmarks/compute/int_sort.c:35-48 | elements equal on their low p bytes leave p passes in the order in which they came |
| RadixSort.AllBytes | src/benchmarks/compute/int_sort.c:35-38 | eight digits of eight bits determine the whole 64-bit word |
| RadixSort.LsbRadixSort | src/benchmarks/compute/int_sort.c:34-50 | the caller's first array ends sorted, a rearrangement of its first n elements and the result of the eight passes; both arrays are untouched beyond n |
| Sorting.ExchangeSort | src/core/stats.c:276-284 | the exchange sort leaves the values ascending with every value still beside its tag |
| FalseDiscovery.BenjaminiHochberg | src/core/stats.c:326-344 | a p-value is kept when it is at most the threshold and replaced by -1 otherwise; for a non-negative rate r p-values are kept, r being the largest number with at least r of them at most fdr*r/n, and they are those at most fdr*r/n |
| FalseDiscovery.KeepsExactlyTheRejections | src/core/stats.c:332-342 | the same of the threshold: for every k above r fewer than k p-values are at most fdr*k/n, exactly r are at most fdr*r/n, and these are the ones at most the threshold |
| FalseDiscovery.KeptCountExactly | src/core/stats.c:333-337 | for non-negative p-values the number kept is right if and only if the rate is non-negative or no p-value is zero |
| FalseDiscovery.ZeroKeptAtNegativeRate | src/core/stats.c:333 | at the rate -1 nothing is rejected, yet a p-value of zero is kept |
| RankSum.RankLoop | src/core/stats.c:366-373 | over sorted pairs the loop sums, for the first group, one plus the number of strictly smaller values |
| RankSum.RankSumOfCombined | src/core/stats.c:353-373 | twice that rank sum is na(na+1) plus twice the wins less the ties inside the first sample |
| RankSum.WinsArePairs | src/core/stats.c:371-375 | the wins are the size of the set of index pairs (i, j) with a_i > b_j |
| RankSum.TiesWithinArePairs | src/core/stats.c:371-372 | the inner ties are the size of the set of index pairs j < i with a_j = a_i |
| RankSum.MannWhitney | src/core/stats.c:346-377 | u1 is the number of pairs a_i > b_j less the number of tied pairs inside a, and u the smaller of u1 and na*nb - u1 |
| RankSum.TextbookExactly | src/core/stats.c:371-375 | u1 is the statistic that counts half of every tie between the samples if and only if no two values of a tie and none ties with one of b |
| RankSum.TiedSample | src/core/stats.c:371-375 | for two tied values and an empty second sample u1 is -1, where the textbook statistic is 0 |
| RankSum.TiesArePairs | src/core/stats.c:371-375 | the ties between the samples that the usual statistic halves are the index pairs with a_i = b_j |
| RankSum.DifferenceAt | src/core/stats.c:390-392 | the difference a_i - b_j stands at position i*nb + j of the list |
| RankSum.DifferencesArePairs | src/core/stats.c:390-392 | the differences below and at most x are as many as the index pairs with such a difference |
| RankSum.HodgesLehmann | src/core/stats.c:386-399 | the estimate is the mean of the two middle ones of the differences a_i - b_j of all pairs, or the one in the middle; the program reads outside its array if and only if a sample is empty |
| Outliers.MeanStddev | src/core/stats.c:16-38 | mean and standard deviation by their defining sums, zero for too few values |
| Outliers.FindFurthest | src/core/stats.c:293-299 | the scan ends without an index only if no value deviates from the mean, and otherwise at the first index of greatest deviation |
| Outliers.FurthestIndexDeviates | src/core/stats.c:293-299 | no value in play lies further from their mean than the one to be removed, and none before it as far |
| Outliers.ExceedsWhen | src/core/stats.c:291-308 | a round exceeds when the standard deviation is at least 1e-10 and some value deviates from the mean by more than the critical value times it |
| Outliers.Round | src/core/stats.c:288-318 | a round that exceeds masks one more value, than which none in play lies further from their mean, and closes the gap; any other changes nothing; the values in play stay ascending |
| Outliers.DetectOutliers | src/core/stats.c:266-324 | the mask is exactly what repeated removal of the furthest exceeding value removes; at most max_outliers are masked, at least two of three or more values stay, and every masked value lies at or outside the range of the rest |
| Outliers.FurthestIsExtreme | src/core/stats.c:293-299 | the value furthest from any centre is at most or at least all others |
| Outliers.NextRound | src/core/stats.c:308-314 | every round takes out one entry, and none in play lies further from their mean |
| Outliers.PeelEntry | src/core/stats.c:288-314 | every removed entry was at its removal as far from the mean as any in play, in a round that exceeds, with everything in play that was not removed before |
| Outliers.RoundExceedsWhen | src/core/stats.c:288-308 | a round exceeds if and only if it is reached and some value then in play is beyond the critical value |
| Outliers.FirstMiss | src/core/stats.c:288-318 | the program removes as many values as rounds exceed before the first round that does not |
| Outliers.LastHit | src/core/stats.c:268 | the generalized test counts up to the last round that exceeds, whatever came before |
| Outliers.StopsAtFirstMiss | src/core/stats.c:288-318 | the program removes no more than the generalized test, and as many if and only if on these values every round before an exceeding one exceeds |
| Outliers.MaskedPair | src/core/stats.c:315-317 | of the values 0, 0, 0, 0, 10, 10 the program removes none and the generalized test two, for all critical values in a wide range |
| PointerChase.Shuffle | src/benchmarks/memory/mem_latency.c:31-36 | the order is exactly the Fisher-Yates shuffle of the draws, and it is a permutation for every sequence of draws |
| PointerChase.EveryOrderOnce | src/benchmarks/memory/mem_latency.c:32-36 | every permutation of the slots comes from exactly one sequence of draws with each draw in its range |
| PointerChase.SetupPointerChase | src/benchmarks/memory/mem_latency.c:28-44 | the stored pointers form one cycle through all slots: from slot 0 the first n loads visit every slot once and return; they follow the shuffled order, no byte outside the links changes, and with fewer than two slots nothing is written |
| PointerChase.RingIsSingleCycle | src/benchmarks/memory/mem_latency.c:37-42 | linking each slot of a permutation to the next, and the last to the first, gives a single cycle from any starting slot |
| PointerChase.CycleNeedsStride | src/benchmarks/memory/mem_latency.c:37-42 | no contents of the buffer make a cycle of two or more slots closer together than a pointer is long |
| PointerChase.WalkIsPeriodic | src/benchmarks/memory/mem_latency.c:77-80 | a walk of any length is on a slot, and depends only on its length modulo the number of slots |
| PointerChase.ChaseLatency | src/benchmarks/memory/mem_latency.c:70-80 | every load of the chase reads a stored pointer inside the first size bytes, and the chase ends where the cycle says |
| RayTriangle.IntersectExactly | src/benchmarks/compute/fp_ray.c:30-45 | the result is 1 if and only if the determinant is at least 1e-7 in size and the ray meets the triangle at some u, v >= 0, u + v <= 1 and parameter above 1e-7 |
| RayTriangle.MeetsInCoordinates | src/benchmarks/compute/fp_ray.c:31-43 | the intersection equation coordinate by coordinate |
| RayTriangle.MeetsAtCoordinates | src/benchmarks/compute/fp_ray.c:31-43 | with a non-zero determinant the three quotients are the one and only solution of the intersection equation |
| RayTriangle.HitIsUnique | src/benchmarks/compute/fp_ray.c:38-44 | the point of a hit is unique |
| RayTriangle.IntersectTests | src/benchmarks/compute/fp_ray.c:35-44 | the early exits together are one test of the three quotients |
| Sieve.Sieve | src/benchmarks/virt/vm_cpu_overhead.c:16-24 | the flags up to the limit mark exactly the primes, the result is their number, and flags beyond are untouched |
| Sieve.PrimesAreCounted | src/benchmarks/virt/vm_cpu_overhead.c:22-23 | the number that the counting loop computes is the size of the set of primes up to the limit |
| Sieve.CrossOut | src/benchmarks/virt/vm_cpu_overhead.c:20-21 | the inner loop crosses out exactly the multiples of p from p*p on |
| Sieve.CrossingDecides | src/benchmarks/virt/vm_cpu_overhead.c:19-21 | once p*p exceeds a number, crossing out by the primes below p has decided whether it is prime |
| SemaphoreShutdown.WaiterKeepsInv | src/benchmarks/sync/sync_semaphore.c:19-25 | each step of any waiter keeps the accounting of posts, units and waiters inside sem_wait |
| SemaphoreShutdown.MainKeepsInv | src/benchmarks/sync/sync_semaphore.c:51-68 | so does each step of the main thread |
| SemaphoreShutdown.EveryWaiterIsCovered | src/benchmarks/sync/sync_semaphore.c:22-23 | in every run each waiter completes at most one sem_wait after done, and once the extra posts are made there is a unit for every waiter inside sem_wait |
| SemaphoreShutdown.SomeoneCanMove | src/benchmarks/sync/sync_semaphore.c:66-68 | no deadlock: until main has returned some thread can make a step that changes the state |
| SemaphoreShutdown.MeasureDecreases | src/benchmarks/sync/sync_semaphore.c:59-68 | every step that changes the state decreases one measure |
| SemaphoreShutdown.MovesAreBounded | src/benchmarks/sync/sync_semaphore.c:59-68 | every run changes its state at most 5*ops + 9*waiters + 3*initial + 4 times |
| SemaphoreShutdown.StuckExactlyWhenReturned | src/benchmarks/sync/sync_semaphore.c:66-68 | a run can go no further exactly when main has returned from all joins, so every run that is not cut short ends there, in whatever order its steps come |
| SemaphoreShutdown.FairRunsReturn | src/benchmarks/sync/sync_semaphore.c:59-68 | from any point of any run, as many rounds as the bound on moves, each with a step of every thread in any order, end with main returned |
| SemaphoreShutdown.JoinsReturn | src/benchmarks/sync/sync_semaphore.c:66-68 | from any point of any run the return of all joins is within reach, in at most Measure further steps |
| SemaphoreShutdown.FinalState | src/benchmarks/sync/sync_semaphore.c:61-75 | when main returns all waiters have exited, every wake-up is counted, and the units left are those posted and not taken |
| CorePinning.MarkSiblings | src/core/harness.c:361-376 | exactly the listed CPUs below the CPU count, other than the one being treated, get the id and count as seen |
| CorePinning.GetPhysicalCores | src/core/harness.c:340-385 | two CPUs get the same id exactly when they are siblings, if and only if the sibling lists form an equivalence; the ids then run from 0 without gaps, in the order of the lowest CPUs of the cores |
| CorePinning.ChoosePin | src/core/harness.c:491-500 | a manual list wins; otherwise the lowest CPU of core i mod num, or the instance number when there is none |
| CorePinning.LoadsBalanced | src/core/harness.c:495-499 | the numbers of instances on any two cores differ by at most one |
| CorePinning.FirstInstancesSpread | src/core/harness.c:495-499 | no two of the first num instances run on sibling CPUs |
| IntParse.ParseIntFast | src/benchmarks/compute/int_parse.c:48-58 | the signed 64-bit arithmetic overflows if and only if the run of digits denotes 2^63 or more; otherwise the loop returns the number it denotes and stops behind the run and one comma |
| IntParse.PlaceValue | src/benchmarks/compute/int_parse.c:51-52 | the k-th character from the right of a run stands for the k-th decimal place of its number |
| IntParse.DecimalPlaces | src/benchmarks/compute/int_parse.c:30 | the k-th character from the right shows the k-th decimal place of the printed number, without leading zeros |
| IntParse.ValueOfDecimal | src/benchmarks/compute/int_parse.c:30 | the printed digits denote the printed number |
| IntParse.ItemParses | src/benchmarks/compute/int_parse.c:67-71 | parsing at the start of item i gives item i and stops at the start of item i + 1 |
| IntParse.BuildText | src/benchmarks/compute/int_parse.c:27-31 | with 32 bytes per item every field is printed in full, side by side, and the text is terminated |
| IntParse.Measure | src/benchmarks/compute/int_parse.c:60-78 | parsing the printed text gives back the list, the pointer ends on the terminator, and the re-parse of the first ten finds no difference |

## Left out

- ParseIntFast: what the program does after an overflow is undefined and not modelled. Negative numbers are not printed by the benchmark and not parsed by the program.
- SetupPointerChase: requires the stride to be at least the eight bytes of a pointer, as a cache line is; with a smaller one there is no cycle to build, by `PointerChase.CycleNeedsStride`, and the last store would leave the buffer. The 32-bit width of the slot numbers is not modelled.
- MannWhitney: stops before the normal approximation of the p-value, which needs the error function.
- DetectOutliers: takes the critical value as an arbitrary function of the number of values, so neither the t quantile behind it nor the level at which it is taken is modelled.
- FftRadix2: rounding is not modelled, so the error sum that the program discards is exactly zero here.
- Ring queue: memory orders weaker than a single total order, and several producers or consumers, which the plain load and store of head and tail do not support.
- Hash table: arbitrary mixtures of deletions with lookups of other keys have no map to refine; `DeleteHidesExactly` says what a deletion does instead. The key 0 marks an empty slot and is outside the map results.
- Ray benchmark: the generation of rays and triangles and the counting of hits, which add only easy loops.
- Core detection: the reading and tokenising of the sibling files, manual pin lists beyond their use, and the NUMA policy.
- Wrappers around libraries, system calls, sockets, files and timers, the command line, the reports and the scoring formulas.
- Bootstrap intervals, the t and normal distributions and the normality tests, which are numerical approximations.
- The ping-pong benchmarks, whose termination depends on the scheduler, and the second copy of the pointer-cycle setup in src/benchmarks/memory/numa_latency.c.
