# Pin tool kit: cache simulator, hand-over protocols, profile and search

A Dafny model of the parts of the kit that keep state and promise something about it, and proofs of
what they keep. `dafny verify dfyconfig.toml` checks the whole project.

**The cache simulator** (`pin_cache.H`). `Cache.Cache` is the cache class: an array of set objects
(`CacheSets.DirectMapped` or `CacheSets.RoundRobin`, chosen once as the template argument is), the
address split with its shift and mask, the loop of a multi-line access, the counters. Each method is
proved against a value model (`CacheModel`) whose round-robin set is a FIFO queue, and the theorems
about every run of a cache are proved about that model (`CacheTheorems`). `Bits`, `Logarithm`,
`Geometry` and `LineWalk` prove what the bit tricks compute, for addresses of any width from 32 bits
up. Points where the code differs from what one expects of it:

* Tag 0 marks an empty slot and is also the tag of line 0, so line 0 hits on a cold cache. It does so
  exactly while set 0 still has an empty slot (`LineZeroHitsWhileSlotsAreEmpty`); no other line ever
  hits without having been installed (`HitWasTouched`).
* The constructor's assertions accept a cache too small for one line per way: the set mask wraps
  around and there are no sets; the constructed object is then not a valid cache. Every set index is
  in range exactly when the cache size is at least the (32-bit) product of associativity and line size
  (`IndexInRangeExactly`). The capacity matches the sizes exactly when that product does not overflow
  (`CapacityExactly`).
* The address loop of a multi-line access ends exactly when the wrapped end of the access is not
  inside the last line of the address space (`LoopEndsExactly`), and when it ends it visits the lines
  of the accessed bytes exactly when the access stays below the last line, or starts in it and
  reaches the end of the address space (`VisitsTheAccessedLines`). The empty access at the first byte
  of the last line, for one, looks up every line there is.
* `Flush` starts one set past the ones in use and counts down in a signed 32-bit index. It stays inside
  the array of sets exactly when not all of them are in use, or when there are 2^31 and the index starts
  out negative, so that nothing is emptied (`FlushInRangeExactly`). The constructor also accepts a
  geometry that uses all sets (`FlushLeavesFullArray`) and one with 2^31 (`LargestCacheIsNotFlushed`).

**The two-thread hand-over** (`detach_syscall_app.cpp`, `detach_syscall.cpp`). `Handoff` is the step
machine of both threads and of the tool's checkpoints over one mutex, two counters, a flag and two
hand-over locks, with one step per access to shared memory. The loop bound (100) and the tool's round
(10) are parameters. An inductive invariant over both files' variables gives lock-step of the
counters, mutual exclusion and safe use of the locks on every interleaving. On every schedule only
boundedly many steps are not spins in one of the two wait loops (`WorkIsBounded`), the threads never
both spin for long (`SpinningIsOneSided`), and a spinning thread lets the other in within five steps
(`SpinnerLetsOtherIn`), so every fair run ends (`FairRunsEnd`). All this is proved for a tool whose
round is not the first one. Such a tool can detach while the main thread is blocked on the mutex
exactly when there are enough rounds (`DetachWhileBlockedExactly`). The overlay never blocks both threads
exactly when its round is not the first one (`Handoff.DeadlockFreeExactly`): in the first round the main
thread is not yet in its wait loop.

**The signal sender's and receiver's mutexes** (`change_mask_app.cpp`). `SignalTurns` proves strict
alternation of rounds and that no mutex is unlocked while free, for every bound of at least 1 in place
of 10. A read counts only when a signal has been sent since the last one that counted. The threads are
free of deadlock exactly when there is at least one round (`SignalTurns.DeadlockFreeExactly`).

**Profile counters** (`pin_profile.H`). `Profile` models the key compressor, with its 32-bit indices,
and the counters. The documentation promises an entry in the array of counters for every
mapped key; the code reserves capacity and never adds an element, so over any calls this holds exactly
when no more distinct keys are mapped than there were elements at construction
(`EntriesCoverKeysExactly`). The capacity ends above the number of keys exactly for a nonzero initial
size, for fewer than 2^32 distinct keys (`CapacityCoversExactly`). One key in an array created empty
has neither (`EmptyVectorFails`).

**Documentation search** (`search.php`). `Search` models a query over an already decoded index, from its
words to the sorted report, with exact real ranks. Points where the code differs from what one expects:

* A search whose matched words all have frequency 0 divides by zero (`DividesByZeroExactly`,
  `ZeroFrequencyFails`). The model gives such documents rank 0, the value that `false`, the result of
  the division before PHP 7, counts as; from PHP 7 on the result is not a number.
* Words are searched in lower case, but required and forbidden words are compared as typed. A required
  word with a capital letter rules out every document and a forbidden one rules out none
  (`SelectedExactly`, `RequiredWordExactly`). `ReportedExactly` gives the URLs a query reports.

**CPU sets** (`sched.h`). `CpuSet` proves that the packed words represent a set of CPU numbers, for
32-bit and 64-bit words. The macros accept sizes that are not a multiple of the word size, but combining
two sets skips the bytes after the last whole word: it covers the numbers the size has room for exactly
for a multiple of the word size (`CombineCoversExactly`, `PartialWordFails`). Eight times the size wraps
around in a size_t (`RoomExactly`).

## Model

| member | source | states |
|---|---|---|
| `Logarithm.IsPower2Exactly` | source/include/pin/pin_cache.H:46-49 | the test accepts a 32-bit number exactly when it is zero or a power of two |
| `Logarithm.FloorLog2` | source/include/pin/pin_cache.H:56-69 | the result p satisfies 2^p <= n < 2^(p+1), and is -1 for 0 |
| `Logarithm.CeilLog2` | source/include/pin/pin_cache.H:76-79 | the least c with n <= 2^c; 32 for 0, where n - 1 wraps |
| `Geometry.IndexInRangeExactly` | source/include/pin/pin_cache.H:263-267 | with the assertions passed, every tag's set index is below NumSets exactly when the cache holds a line per way |
| `Geometry.TooSmallCachePasses` | source/include/pin/pin_cache.H:289-299 | a smaller cache passes the assertions with zero sets and a full mask |
| `Geometry.CapacityExactly` | source/include/pin/pin_cache.H:295 | the lines of all sets fit the cache size exactly when associativity times line size does not overflow |
| `Geometry.FlushInRangeExactly` | source/include/pin/pin_cache.H:462-467 | with signed 32-bit indices, every index the flush loop visits is below MAX_SETS exactly when the number of sets in use is, or is at least 2^31; every set in use is visited exactly when it is less than 2^31 |
| `Geometry.FlushLeavesFullArray` | source/include/pin/pin_cache.H:374-382 | sizes the constructor accepts with one set, where the flush visits set 1 |
| `Geometry.LargestCacheIsNotFlushed` | source/include/pin/pin_cache.H:462-467 | sizes the constructor accepts with 2^31 sets, where the flush visits none |
| `Geometry.SplitRoundTrip` | source/include/pin/pin_cache.H:269-274 | address equals tag times line size plus line index, with the index below the line size |
| `Geometry.NotLineMaskClearsOffset` | source/include/pin/pin_cache.H:405 | masking with the complement of lineSize - 1 yields the first address of the line |
| `LineWalk.Layout.LoopEndsExactly` | source/include/pin/pin_cache.H:401-426 | the loop reaches its exit exactly when the wrapped end is at most the start of the last line |
| `LineWalk.Layout.VisitsTheAccessedLines` | source/include/pin/pin_cache.H:399-426 | the visited lines are the lines of the accessed bytes, in this order, exactly for covered accesses |
| `LineWalk.Layout.CoveredVisitsAscend` | source/include/pin/pin_cache.H:401-426 | the k-th line a covered access visits is k after the first, modulo the number of lines, and no line is visited twice |
| `LineWalk.Layout.VisitsLinesOfBytes` | source/include/pin/pin_cache.H:399-426 | a covered access visits a line exactly when one of its bytes is in it |
| `LineWalk.Layout.UncoveredDiffers` | source/include/pin/pin_cache.H:399-426 | any other access that ends looks up a wrong number of lines |
| `CacheSets.ReplaceRotates` | source/include/pin/pin_cache.H:168-176 | overwriting the next slot and stepping the index down cyclically pops the oldest tag and pushes the new one |
| `CacheSets.QueueHoldsSlots` | source/include/pin/pin_cache.H:153-166 | the queue order of the slots holds the same tags as the slots |
| `CacheSets.DirectMapped.Find` | source/include/pin/pin_cache.H:116 | whether the slot holds the tag |
| `CacheSets.DirectMapped.Replace` | source/include/pin/pin_cache.H:117 | the slot holds the new tag |
| `CacheSets.DirectMapped.Flush` | source/include/pin/pin_cache.H:118 | the slot is empty |
| `CacheSets.RoundRobin.constructor` | source/include/pin/pin_cache.H:133-143 | usable exactly for 1 to 2^31 slots, and then a set of empty slots; otherwise, though the assertion passes, the signed loop index starts out negative, and without slots the next one to replace is out of range |
| `CacheSets.RoundRobin.SetAssociativity` | source/include/pin/pin_cache.H:145-150 | chooses the slots in use, leaves their tags and replaces the last one next; usable exactly for 1 to 2^31 slots |
| `CacheSets.RoundRobin.Find` | source/include/pin/pin_cache.H:153-166 | membership in the queue |
| `CacheSets.RoundRobin.Replace` | source/include/pin/pin_cache.H:168-176 | the queue loses its oldest tag and gains the new one; unused slots stay |
| `CacheSets.RoundRobin.Flush` | source/include/pin/pin_cache.H:177-184 | the queue is all zeros, as long as before; unused slots stay |
| `Cache.Cache.constructor` | source/include/pin/pin_cache.H:374-383 | for sizes that pass the assertions: exactly with a line per way a valid, cold cache with zero counters, cacheSize / (associativity * lineSize) sets, each with as many empty slots as the associativity, and all sets disjoint in memory; without sets otherwise |
| `Cache.Cache.SplitAddress` | source/include/pin/pin_cache.H:263-267 | the line number and its remainder modulo the number of sets |
| `Cache.Cache.SplitAddressInLine` | source/include/pin/pin_cache.H:269-274 | the three parts determine the address and are in range |
| `Cache.Cache.LookUp` | source/include/pin/pin_cache.H:444-452 | the outcome is presence of the line, and only the line's set changes, by an allocating miss |
| `Cache.Cache.Access` | source/include/pin/pin_cache.H:399-431 | the whole new state is the left fold of the line lookup over the visited lines; the result is the conjunction of their hits; one counter advances once |
| `Cache.Cache.AccessSingleLine` | source/include/pin/pin_cache.H:437-457 | the whole new state and result of one line lookup, counted once |
| `Cache.Cache.Flush` | source/include/pin/pin_cache.H:462-469 | all sets in use and the one past them empty, or all unchanged when there are 2^31; statistics unchanged, one more flush |
| `Cache.Cache.ResetStats` | source/include/pin/pin_cache.H:472-480 | counters zero, sets unchanged, one more reset |
| `Cache.Cache.SumAccess` | source/include/pin/pin_cache.H:229-239 | the 64-bit sum of the counters of both kinds |
| `CacheTheorems.SetIndependence` | source/include/pin/pin_cache.H:263-267 | contents and outcomes of set i after any run are those of running only its own lookups and the flushes on it alone |
| `CacheTheorems.OutcomeIsPresence` | source/include/pin/pin_cache.H:446 | the k-th outcome of a run is presence of its line after the first k lookups |
| `CacheTheorems.LookupEffect` | source/include/pin/pin_cache.H:444-452 | an allocating lookup leaves its line present; a hit or a non-allocating lookup changes nothing; other sets never change |
| `CacheTheorems.PolicyDecides` | source/include/pin/pin_cache.H:448-452 | without store allocation a store leaves the sets alone; every other single-line access leaves its line present |
| `CacheTheorems.AccessIsManySingles` | source/include/pin/pin_cache.H:406-430 | a multi-line access is one single-line access per visited line, in order, on the sets and in its result, but counts once |
| `CacheTheorems.AccessLooksUpItsBytes` | source/include/pin/pin_cache.H:399-426 | a covered access that is not empty looks up a line exactly when it holds one of the accessed bytes |
| `CacheTheorems.FifoContents` | source/include/pin/pin_cache.H:133-176 | after any run without flush a set holds the last entries of old contents followed by the installed lines |
| `CacheTheorems.InstalledLineSurvives` | source/include/pin/pin_cache.H:168-176 | a line just installed is still present exactly while fewer replacements than slots followed |
| `CacheTheorems.FifoMissBound` | source/include/pin/pin_cache.H:153-176 | from any contents, allocating lookups of at most as many distinct lines of a set as it has slots miss at most once per line |
| `CacheTheorems.NewCacheMissBound` | source/include/pin/pin_cache.H:374-383 | in a new cache, allocating lookups of at most associativity many distinct lines of a set miss at most once per line |
| `CacheTheorems.EveryRunIsWellPlaced` | source/include/pin/pin_cache.H:415-422 | after any run no nonzero tag is twice in a set, each is in the set of its line, and tag 0 is a line of set 0 only |
| `CacheTheorems.HitWasTouched` | source/include/pin/pin_cache.H:84-93 | on a cold cache a line other than 0 hits only if an allocating lookup touched it since the last flush |
| `CacheTheorems.LineZeroHitsWhileSlotsAreEmpty` | source/include/pin/pin_cache.H:90 | after any run from a cold cache line 0, not installed since the last flush, hits exactly while fewer lines than slots were installed in set 0 since then |
| `CacheTheorems.FirstLookup` | source/include/pin/pin_cache.H:139-142 | the first lookup on a cold cache hits exactly for line 0 |
| `CacheTheorems.FlushRestoresNewCache` | source/include/pin/pin_cache.H:462-469 | after any run and a flush, sets and all later results are those of the new cache, and the flush keeps the statistics |
| `CacheTheorems.DirectMappedIsOneWay` | source/include/pin/pin_cache.H:105-185 | a direct-mapped and a one-way round-robin cache give equal results and statistics on every run of all operations |
| `CacheTheorems.CountersCount` | source/include/pin/pin_cache.H:428 | each counter advanced once per access of its kind and outcome since the last reset |
| `CacheTheorems.CountersAreTallies` | source/include/pin/pin_cache.H:428 | each counter is the number of accesses of its kind and outcome since construction or the last reset, modulo 2^64 |
| `CacheTheorems.SumsAreTallies` | source/include/pin/pin_cache.H:229-239 | the sum of the hit counters counts the hits of both kinds and the sum of the miss counters the misses, modulo 2^64 |
| `CacheTheorems.SmallCountsAreExact` | source/include/pin/pin_cache.H:251-258 | below 2^64 calls of a kind nothing wraps: hits plus misses are the calls |
| `CacheTheorems.ResetsAreInvisible` | source/include/pin/pin_cache.H:472-480 | resets of the statistics change no set and no result of any run |
| `CacheTheorems.HitsAndMissesAreCalls` | source/include/pin/pin_cache.H:253-258 | hits plus misses of a kind is the number of its access calls since construction or the last reset, in 64 bits |
| `CacheTheorems.TotalsAreCalls` | source/include/pin/pin_cache.H:253-258 | total hits plus total misses are the access calls of both kinds since construction or the last reset, in 64 bits |
| `CacheTheorems.RunIsOneEventRun` | source/include/pin/pin_cache.H:399-469 | the sets after a run of operations are those after the run of all their line lookups |
| `Handoff.CountersInStep` | source/tools/AttachDetach/detach_syscall_app.cpp:52-98 | on every interleaving the counters stay in lock-step, lock regions exclude each other, every unlock finds the mutex held, and both counters end at the bound |
| `Handoff.HandOverLocksAreSafe` | source/tools/AttachDetach/detach_syscall.cpp:58-106 | in the tool's round the main thread is in its wait loop with both locks free, releases find their lock held, and the main thread is past its wait only while the second holds the mutex |
| `Handoff.Outcome` | source/tools/AttachDetach/detach_syscall.cpp:78-95 | a finished run has detached exactly when there are enough rounds, in the tool's round, with the main thread not holding the mutex |
| `Handoff.DetachWhileBlockedExactly` | source/tools/AttachDetach/detach_syscall.cpp:78-106 | a state about to detach, or detached, with the main thread blocked on the mutex held by the second is reachable exactly when there are enough rounds |
| `Handoff.MainPassesItsWait` | source/tools/AttachDetach/detach_syscall.cpp:84-106 | between the release and the detach the main thread can always get its lock, and is then blocked on the mutex |
| `Handoff.StepsAreTakenInOrder` | source/tools/AttachDetach/detach_syscall.cpp:58-95 | every run that detaches goes through all checkpoint steps of the tool's round in order, and every run in which the second thread finishes unlocks before it sets the exit flag |
| `Handoff.CanFinish` | source/tools/AttachDetach/detach_syscall_app.cpp:54-98 | from every state of the invariant a schedule with a decreasing measure reaches the end |
| `Handoff.AlwaysProgress` | source/tools/AttachDetach/detach_syscall_app.cpp:54-98 | no reachable state is deadlocked and from each one the end can be reached |
| `Handoff.StepProgresses` | source/tools/AttachDetach/detach_syscall_app.cpp:54-98 | every step of either thread either moves between two places of its wait loop and leaves the progress alone, or increases it |
| `Handoff.WorkIsBounded` | source/tools/AttachDetach/detach_syscall_app.cpp:54-98 | on every schedule of any length at most 40 steps per round and 28 more are not spins |
| `Handoff.SpinningIsOneSided` | source/tools/AttachDetach/detach_syscall_app.cpp:62-96 | in a stretch of spins only, one of the threads takes at most four steps |
| `Handoff.SpinnerLetsOtherIn` | source/tools/AttachDetach/detach_syscall_app.cpp:62-96 | within five steps of one thread alone it makes progress or the other is enabled |
| `Handoff.FairRunsEnd` | source/tools/AttachDetach/detach_syscall_app.cpp:54-98 | a run made of stretches in which each thread takes five steps has at most 40 stretches per round and 28 more |
| `Handoff.EarlyStrikeDeadlocks` | source/tools/AttachDetach/detach_syscall.cpp:60-65 | a tool that strikes in the first round reaches a state where both threads are blocked |
| `Handoff.DeadlockFreeExactly` | source/tools/AttachDetach/detach_syscall.cpp:58-106 | no reachable state is deadlocked exactly when the tool does not strike in the first round |
| `SignalTurns.RoundsAlternate` | source/tools/AttachDetach/change_mask_app.cpp:134-215 | on every run send and read rounds alternate, their sections exclude each other, no mutex is unlocked while free, no more reads count than signals were sent for, and at the end at least the bound of rounds are matched |
| `SignalTurns.StepKeepsInv` | source/tools/AttachDetach/change_mask_app.cpp:199-215 | every step of the three threads keeps the whose-turn invariant |
| `SignalTurns.AlwaysProgress` | source/tools/AttachDetach/change_mask_app.cpp:274-287 | no reachable state is stuck, and from each one a run in which every counted read takes a sent signal ends all three threads |
| `SignalTurns.ReadsMayTimeOut` | source/tools/AttachDetach/change_mask_app.cpp:141-165 | for every number of rounds there is a run in which that many pass with a signal pending and none counted |
| `SignalTurns.DeadlockFreeExactly` | source/tools/AttachDetach/change_mask_app.cpp:134-287 | no reachable state is stuck exactly for a bound of at least 1 |
| `SignalTurns.NoRoundsGetStuck` | source/tools/AttachDetach/change_mask_app.cpp:134-287 | a run without rounds that leaves the sender blocked for ever |
| `Profile.Compressor.Map` | source/include/pin/pin_profile.H:85-102 | returns the 32-bit place of the key in order of first appearance; old keys keep their index |
| `Profile.IndexIsPlace` | source/include/pin/pin_profile.H:42-46 | over any sequence of calls each returns its key's place in the final order |
| `Profile.IndicesIdentifyKeysExactly` | source/include/pin/pin_profile.H:42-46 | equal keys get equal indices; equal indices mean equal keys exactly while the distinct keys are no more than the indices |
| `Profile.IndicesAreCompact` | source/include/pin/pin_profile.H:42-46 | the indices in use are then exactly those below the number of distinct keys |
| `Profile.CompressorCounter.Map` | source/include/pin/pin_profile.H:175-187 | the compressor's index for any number of keys; the capacity doubles when the 32-bit index + 1 reaches it, which keeps it the least doubling of the initial size above the number of keys; elements unchanged |
| `Profile.CapacityCoversExactly` | source/include/pin/pin_profile.H:175-187 | over any calls with fewer than 2^32 distinct keys the capacity ends above their number exactly for a nonzero initial size, and at most at twice that number or the initial size |
| `Profile.EntriesCoverKeysExactly` | source/include/pin/pin_profile.H:107-111 | over any calls every returned index has an element exactly when no more distinct keys were mapped than elements were created |
| `Profile.EmptyVectorFails` | source/include/pin/pin_profile.H:107-111 | after one key in an array created empty there is neither an element nor capacity for its index |
| `Search.SearchWord` | doc/html/search.php:97-193 | appends the matches of the word with their ranks and leaves earlier results alone |
| `Search.KeyHoldsTwoBytes` | doc/html/search.php:85-94 | the hash key divided by 256 is the first byte and modulo 256 the second; there is none exactly for words without two nonzero bytes |
| `Search.CollectMatches` | doc/html/search.php:109-124 | the entries with the word as prefix, up to the first word PHP takes for false |
| `Search.MatchesInOrder` | doc/html/search.php:109-124 | the matches stand in the list once each and in its order: exactly the entries with the word as prefix before the first "" or "0" |
| `Search.CountTotals` | doc/html/search.php:125-156 | the three totals over all occurrences of all matched words |
| `Search.RankDocs` | doc/html/search.php:173-188 | the ranked documents of one matched word |
| `Search.SearchFindsAllPrefixes` | doc/html/search.php:85-113 | in a well-formed index a search finds exactly the indexed words that start with the word, for words with a hash key |
| `Search.ResultsDescribeMatches` | doc/html/search.php:115-146 | a result names its indexed word, is a whole-word match when both are equal, and lists that word's documents |
| `Search.SearchRanksAreShares` | doc/html/search.php:166-188 | ranks of a search are not negative; they sum to at most 1 where the denominator is not zero, and count as 0 where it is |
| `Search.RanksSumExactly` | doc/html/search.php:125-188 | the denominator and the exact sum of all ranks of a search in terms of the numbers and frequencies of its occurrences; 1/2 without high-priority documents |
| `Search.DividesByZeroExactly` | doc/html/search.php:166-187 | a rank is divided by zero exactly when a matched word occurs somewhere and every occurrence of every matched word has frequency 0 |
| `Search.ZeroFrequencyFails` | doc/html/search.php:147-187 | any index with one word in one document with frequency 0 is such a case |
| `Search.HighPriorityFirst` | doc/html/search.php:178-187 | every high-priority occurrence ranks at least as high as every low-priority one |
| `Search.RankDifferences` | doc/html/search.php:178-187 | for words that match alike, rank differences at equal priority are proportional to the frequencies, so a higher frequency ranks strictly higher, and high priority is worth the weight of all low-priority documents |
| `Search.FrequencyAndWholeWord` | doc/html/search.php:170-187 | at equal priority a higher frequency never ranks lower unless only the lower one is a whole-word match, and a low-priority whole-word match counts exactly twice |
| `Search.WholeWordBeatsFrequency` | doc/html/search.php:170-187 | a low-priority prefix match of frequency 3 ranks below a low-priority whole-word match of frequency 2 |
| `Search.CombineResults` | doc/html/search.php:195-223 | the mentions of all words folded into one list of documents |
| `Search.MentionsAreResults` | doc/html/search.php:197-219 | what is combined is exactly every document of every result, with its URL, name, rank, word and frequency |
| `Search.CombiningConserves` | doc/html/search.php:197-221 | combining conserves total rank and number of word entries, with one document per URL |
| `Search.GroupedByUrl` | doc/html/search.php:204-219 | a document has the words of exactly the mentions of its URL, in order, the sum of their ranks and the name of the first; a URL has a document exactly when it is mentioned |
| `Search.DocsInOrderOfArrival` | doc/html/search.php:204-214 | documents are listed in order of first arrival of their URL |
| `Search.FilterResults` | doc/html/search.php:225-263 | the kept documents in order and unchanged |
| `Search.KeptExactly` | doc/html/search.php:231-260 | a document is kept exactly when each required word is one of the words that led to it and no forbidden word is; the kept documents stand in the list once each and in its order |
| `Search.CompareRankIsTotalPreorder` | doc/html/search.php:265-272 | the comparison is reflexive, antisymmetric in sign, transitive, and does not distinguish documents that compare as equal |
| `Search.SortResults` | doc/html/search.php:274-279 | sorting by comparisons alone yields a permutation with non-increasing ranks |
| `Search.SortedRanksAreUnique` | doc/html/search.php:265-279 | any two sorted permutations have the same rank at every place, whatever order equal documents are put in |
| `Search.SearchWords` | doc/html/search.php:344-360 | searches each distinct word of the query once, in lower case, and collects the required and forbidden words |
| `Search.QueryIsRead` | doc/html/search.php:348-353 | a query is read up to the first "" or "0"; each token before it is a word, required exactly after a plus and forbidden exactly after a minus |
| `Search.LowerExactly` | doc/html/search.php:356 | lower case leaves no capital, keeps words without one, and is equal exactly for words that differ in capitals only |
| `Search.SearchedExactly` | doc/html/search.php:353-357 | exactly the words of the tokens with their capitals made small are searched |
| `Search.ReportedExactly` | doc/html/search.php:348-365 | a URL is reported exactly when it is found for some searched word, for every required word, which must be a searched one as typed, and for no searched word forbidden as typed |
| `Search.Answer` | doc/html/search.php:344-368 | the report is a permutation of exactly the selected documents with non-increasing ranks that sum to at most one per search with a nonzero denominator |
| `Search.SelectedExactly` | doc/html/search.php:348-365 | a combined document is selected exactly when every required word has no capital letter and is among its words, and no forbidden word without capital letters is |
| `Search.RequiredWordExactly` | doc/html/search.php:348-365 | a query for one required word can report something, for some index, exactly when the word has a hash key, no minus sign after the plus and no capital letter |
| `Search.ReportedRank` | doc/html/search.php:361-365 | whatever is required or forbidden, the filtered ranks sum to at most the number of searches with a nonzero denominator |
| `CpuSet.Insert` | extras/crt/include/sched.h:107-112 | adds the CPU number to the set, or nothing above the room of the size, which may be any size the buffer holds |
| `CpuSet.Remove` | extras/crt/include/sched.h:114-119 | removes the CPU number from the set, or nothing above the room of the size |
| `CpuSet.Contains` | extras/crt/include/sched.h:121-127 | membership, false above the room of the size |
| `CpuSet.Combine` | extras/crt/include/sched.h:135-143 | the word loop computes intersection, union or symmetric difference of the numbers in whole words of the size, also in place, and leaves the others |
| `CpuSet.CombineCoversExactly` | extras/crt/include/sched.h:135-143 | combining is the set operation on all numbers below eight times the size, whatever the sets, exactly when the size is a multiple of the word size |
| `CpuSet.PartialWordFails` | extras/crt/include/sched.h:135-143 | for any other size, two empty sets combined into a buffer of words 1 leave a member below eight times the size |
| `CpuSet.RoomExactly` | extras/crt/include/sched.h:110 | eight times the size, as computed in a size_t, is exact when it is below 2^32 or 2^64 and smaller otherwise |
| `CpuSet.Clear` | extras/crt/include/sched.h:105 | the empty set |
| `CpuSet.EqualWordsExactly` | extras/crt/include/sched.h:129 | the words are equal exactly when the sets are |
| `CpuSet.AllocSizeExactly` | extras/crt/include/sched.h:96-97 | the size holds the requested number of bits exactly when rounding up does not wrap, and is then the least such size |
| `CpuSet.PositionFacts` | extras/crt/include/sched.h:70-71 | word number and bit put the CPU number together again, and the mask is that one bit |

## Left out

- Cache.Cache.Access: needs an access whose address loop ends; `LoopEndsExactly` says which ones do, and the others never return.
- Cache.Cache.constructor: sizes that fail an assertion or divide by zero are excluded, and so is a MAX_ASSOCIATIVITY of 0 or above 2^31, for which the round-robin sets start out without slots or with uninitialised ones.
- Cache.Cache.Flush: needs one set beyond the ones in use unless there are 2^31, because the loop starts there; the code does not check it, and `FlushInRangeExactly` says when it holds.
- Flush and reset counters: they are never initialised, so only their increments are stated.
- Cache names, `StatsLong`, the stream operator and miss rates: printing.
- Profile.CompressorCounter.Map: `reserve` is taken to grow to exactly the requested capacity.
- `StringLong`, key and counter names, the print threshold and COUNTER_ARRAY: printing and element-wise loops.
- Handoff.Outcome: the run ends at the detach call; the VM lock, sleep, alarm and what the Pin runtime does there are not part of this model.
- Weak memory: steps are sequentially consistent.
- SignalTurns.RoundsAlternate: whether a pending signal is seen before a read times out is a choice made at each read; the tool's change of the receiver's signal mask is not part of this model, and the sender's wait for it in round 2 is taken to end.
- Search.SearchWord: reading the index file is replaced by decoded entries; words are compared as strings, so PHP's loose equality of numeric strings does not appear.
- Search.Answer: the parts of the query between spaces are its input, and only the letters A to Z have a lower case.
- Search.SortResults: `usort`'s own algorithm is PHP's; an insertion sort stands for it.
- CpuSet.Clear: the size is a multiple of the word size, as for the comparison of two sets.
- CPU set allocation, freeing and `__sched_cpucount`: library calls.
- HTML output, the launcher, the other attach and detach tests and all other headers.
