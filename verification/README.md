# Models of the harness algorithms

The harness of this port measures a game that runs under Box86 and Wine on a handheld. Most of it is
plumbing; this project models the algorithms inside it whose correctness is not obvious, and proves
what they promise. Every file is one module.

| file | what it models |
|---|---|
| `FirstUseBarrier.dfy` | the mutex first-use stress program: N workers and a coordinator that meet in every round through shared 32-bit counters, with a mutex that may be correct or faulty |
| `SignalStress.dfy`, `SignalProgress.dfy` | the signal stress program: a plain counter incremented under a mutex while signals arrive |
| `Truncation.dfy`, `X87Oracle.dfy` | the guest's x87 dither sequence and its four rewrites, as exact integer arithmetic followed by truncation |
| `DitherKernels.dfy` | the two array kernels of the dither benchmark, with the rounding mode they set and restore |
| `LiveMemory.dfy`, `SubmitCensus.dfy` | readers of records that another process keeps writing: two equal passes, and a sequence word with retries |
| `RingDecode.dfy` | the event rings of the DirectMusic recorders and the two orders in which they are re-read |
| `ChunkedScan.dfy` | the search for a record header in mapped memory, chunk by chunk |
| `ArmingGate.dfy` | the call-graph closure of an island entry, the GL-slot verdict and the emitted bitset |
| `LoadRoute.dfy` | the pixel-gated route from the title screen into a saved game |
| `GuestMap.dfy` | the interval index from native addresses to guest blocks |
| `CMask.dfy`, `FunctionExtents.dfy` | the comment and literal mask, and the function extents counted on it |
| `SignTest.dfy`, `AbbaCycles.dfy` | the exact sign test and the pairing of blocks into ABBA cycles |
| `Tally.dfy`, `Bits.dfy`, `Wrappers.dfy` | sums over threads, bitwise OR on naturals, `Option` and `Result` |

How the concurrent programs are modelled: a state, a step function with one program counter per
thread, and any sequence of actions as a schedule. A step that cannot be taken leaves the state as it
is, so spinning and waiting need no special case. 32-bit counters wrap.

How live memory is modelled: the writer's memory is a function of time, and a reader takes one word
after the other while any amount of time passes. The writer's discipline (an odd sequence word while
it changes the record) is an assumption of the theorems that need it, stated by
`LiveMemory.Publishes`.

How float arithmetic is modelled: every finite float32 is a whole number of units of 2^-149. Under
round-toward-zero an operation is the exact integer result with all but its leading bits cleared,
which `Truncation.RzLargest` and `Truncation.RzFixed` show to be the definition of section 4.3.2 of
IEEE 754-2008.

Where the code and its own words part:

- `harness/dither/x87_oracle.c:131-133` says that below 2^31 the direct conversion has the same
  result. It has it exactly when the integer part of the sum fits in 24 bits
  (`X87Oracle.DirectIsCandidate`); s = 65793, d = 2 is the counterexample (`X87Oracle.DirectDiffers`).
- `harness/dither/x87_oracle.c:86-89` calls the four-ULP test conservative, but for exponents from
  150 on it is skipped. `X87Oracle.HybridIsCandidate` says exactly when that matters;
  s = 32896.50390625, d = 0.75 is the counterexample (`X87Oracle.HybridDiffers`).
- `harness/dither/x87_oracle.c:86-87` says that the float32 rewrite is never above the exact one. It is
  above it exactly when the exact sum reaches 2^31 and its own does not, since the exact rewrite then
  gives 0x80000000 (`X87Oracle.Float32ErrsAtBoundary`); s = 8388481, d = 8421119 is an input
  (`X87Oracle.Float32Exceeds`).
- The literal -2147483649.0f in the range tests is not a float; it is -2^31, as the compiler reads it.
- `harness/display_lock_history.py:96-102` accepts two equal passes. They are a snapshot if no word
  comes back to a value it has left (`LiveMemory.DoubleCollect`); the first word or the last may even do
  as it likes (`LiveMemory.DoubleCollectButOne`), and no word between them (`LiveMemory.FreeWordExact`).
  For two words `LiveMemory.FirstWordExact` and `LiveMemory.SecondWordExact` are exact, and `LiveMemory.DoubleCollectCanTear` shows a writer that
  changes one word at a time and is read torn.
- The first loop of the load route (`harness/autoload_save.py:405-414`) presses CONFIRM again without
  telling a lost key from a screen its gate missed. `LoadRoute.ToMainMenu` and
  `LoadRoute.NeverEntersIff` say exactly when that confirms NEW GAME.
- `harness/island/full/island_icall_audit.py:101-110` carries a literal over a line end, which C11 does
  not allow in one: an apostrophe in the prose of an `#error` or `#if 0` and the next one hide the brace
  between them (`CMask.ApostropheHidesABrace`). C also joins a line that ends in a backslash with the
  next before it reads literals and comments, and the mask does not (`CMask.SpliceHidesABrace`). It
  does no harm in code (a macro of several lines, `CMask.CodeSpliceFits`) unless a slash before it
  meets a slash or a star, in a comment unless a star before it meets a slash, in a literal unless the
  mark or a backslash comes next, and in a line comment only if nothing comes next: `CMask.Harmless`,
  with each of the four conditions shown to be exact. Where all splices are such, the file has a C
  reading, and the mask follows it, exactly when no line is left inside a literal that does not go on
  and the last is left in code (`CMask.HasReadingIff`, `CMask.MaskFollowsReading`).
- `harness/island/full/island_icall_audit.py:159-163` does not count the braces of a function's first
  line. The extent is then cut short (`FunctionExtents.ShortIsCutShort`); `FunctionExtents.WholeIff` and
  `FunctionExtents.OwnBraceCutsShort` say exactly when.
- `harness/island/full/island_gl_reach.py:83` takes one clone suffix off a name, so for
  `f.part.0.cold` neither the slots of `f` nor the edge to it is counted. `ArmingGate.CloneReadsSource`
  and `ArmingGate.CloneIsFollowed` say for which clones they are: those with at most one suffix.
- `harness/box86_guest_profile.py:93-99` looks at the last block with the nearest start only, and the
  map is sorted by start alone. A range recompiled shorter hides the older block
  (`GuestMap.RecompiledShorterIsMissed`); `GuestMap.MissesIff` says exactly when.
- `harness/present_ab_read.py:32-40` says ABBA does not cancel a step. It cancels one, the step in the
  middle of the cycle (`AbbaCycles.StepCancelsOnlyInTheMiddle`).

## Model

| member | source | states |
|---|---|---|
| `FirstUseBarrier.Reachable` | harness/box86_mutex_first_use_stress.c:76-126 | in every state of every run, for any number of workers and rounds and any mutex: each worker is in the part of the round the coordinator's position allows, every counter counts the workers past its point, and `inside` the workers between its two changes; with an excluding, error-free mutex it is held exactly while one worker is in the section |
| `FirstUseBarrier.LockStep` | harness/box86_mutex_first_use_stress.c:81-121 | `ready`, `done` and `departed` equal the number of workers past them when they are waited for; nobody is behind a worker that has begun a round; no worker can move, so no late increment can land, while the counters are reset |
| `FirstUseBarrier.OneInside` | harness/box86_mutex_first_use_stress.c:87-94 | an excluding, error-free mutex lets at most one worker between the increment and the decrement |
| `FirstUseBarrier.VerdictIsExact` | harness/box86_mutex_first_use_stress.c:87-125 | for a mutex that may admit anyone and fail any call, a finished run passes if and only if no two workers were ever in together and no call failed (as long as the 32-bit counters cannot wrap) |
| `FirstUseBarrier.CorrectMutexPasses` | harness/box86_mutex_first_use_stress.c:103-126 | an excluding, error-free mutex gives status 0 in every finished run |
| `FirstUseBarrier.VerdictModuloWord` | harness/box86_mutex_first_use_stress.c:87-125 | for any mutex and a run of any length, a finished run passes if and only if the occupied entries and the failed calls are multiples of 2^32 |
| `FirstUseBarrier.TogetherIsEntered` | harness/box86_mutex_first_use_stress.c:89-92 | two workers were in together at some moment if and only if some increment of `inside` met another worker there |
| `FirstUseBarrier.FailureLedger` | harness/box86_mutex_first_use_stress.c:87-94 | at every moment `overlaps` and `failures` hold, modulo 2^32, the occupied entries and failed calls so far minus those seen but not yet counted |
| `FirstUseBarrier.Ledger` | harness/box86_mutex_first_use_stress.c:81-99 | at every moment the lock calls returned so far are what the workers' positions say |
| `FirstUseBarrier.Acquisitions` | harness/box86_mutex_first_use_stress.c:87-126 | a finished run has returned from exactly WORKERS * ROUNDS lock calls |
| `FirstUseBarrier.SomeoneMoves` | harness/box86_mutex_first_use_stress.c:66-121 | every reachable state but the last, unless it is jammed, has a thread whose next step is neither a spin nor a wait: with lock calls that succeed when they may |
| `FirstUseBarrier.StuckIff` | harness/box86_mutex_first_use_stress.c:66-121 | deadlock, exactly: nobody can move if and only if the round's mutex is held and every worker waits for it or is past its unlock, one at least waiting |
| `FirstUseBarrier.JamNeedsFailure` | harness/box86_mutex_first_use_stress.c:87-94 | no run gets there before a lock or unlock call has failed |
| `FirstUseBarrier.StepProgresses` | harness/box86_mutex_first_use_stress.c:66-121 | each step that changes anything raises a bounded measure |
| `FirstUseBarrier.EffectiveSteps` | harness/box86_mutex_first_use_stress.c:66-121 | a run takes at most 13 * WORKERS * ROUNDS + 9 * ROUNDS + 1 steps that are neither spins nor waits |
| `FirstUseBarrier.FairRunFinishes` | harness/box86_mutex_first_use_stress.c:66-126 | a schedule that keeps giving every thread a turn finishes within that many rounds of turns, or jams after a failed call, whatever the mutex |
| `SignalStress.FaithfulUntilOvertaken` | harness/box86_mutex_signal_stress.c:91-98 | until a store is made in another worker's load/store window, the counter is the number of stores and every loaded value is current |
| `SignalStress.LosingOnceOvertaken` | harness/box86_mutex_signal_stress.c:91-98 | after such a store the counter stays behind for good: one lost update is never made up by another |
| `SignalStress.LostUpdateIsExact` | harness/box86_mutex_signal_stress.c:69-124 | a finished run returns 4 if and only if some store was made inside another worker's load/store window |
| `SignalStress.AlwaysExcluded` | harness/box86_mutex_signal_stress.c:93-97 | with an excluding, error-free mutex at most one worker is between lock and unlock in every state, wherever the handlers run |
| `SignalStress.NoLostUpdate` | harness/box86_mutex_signal_stress.c:69-124 | then the counter always equals the stores made modulo 2^32, and a finished run returns 0 if some handler ran in it and 5 if none did |
| `SignalStress.Ledger` | harness/box86_mutex_signal_stress.c:69-118 | over every run with any mutex: the signals given are those taken and those still waiting, `handled` is the number of handlers that ran and `failures` that of the lock, unlock and kill calls that failed less those seen but not yet counted (both modulo 2^32), and the stores and kills made are what the positions of the threads say |
| `SignalStress.AtTheEnd` | harness/box86_mutex_signal_stress.c:111-122 | a finished run has made SIGNALS kills and WORKERS * ITERATIONS stores, and its two counters are the handlers that ran and the failed calls (these modulo 2^32) |
| `SignalStress.SecondTestModuloWord` | harness/box86_mutex_signal_stress.c:121-123 | for any mutex, a finished run with the right count returns 5 if and only if no handler ran or the number of failed calls is no multiple of 2^32, and otherwise 0 |
| `SignalStress.VerdictIsExact` | harness/box86_mutex_signal_stress.c:69-124 | while the failures cannot wrap: 4 if and only if a store was overtaken, otherwise 5 if and only if no handler ran or some call failed, otherwise 0 |
| `SignalProgress.StartsTogether` | harness/box86_mutex_signal_stress.c:87-111 | in every state, once a worker is past the start, all the others have arrived |
| `SignalProgress.EffectiveSteps` | harness/box86_mutex_signal_stress.c:79-118 | a run takes at most 6 * WORKERS * ITERATIONS + 2 * WORKERS + SIGNALS + 4 steps of its threads that change anything |
| `SignalProgress.StuckIff` | harness/box86_mutex_signal_stress.c:79-118 | deadlock, exactly: before the end no thread can go on if and only if every worker is at the lock, which is held, and one of them wants it |
| `SignalProgress.NeverJams` | harness/box86_mutex_signal_stress.c:93-97 | with an excluding, error-free mutex that never happens |
| `Truncation.RzRepresentable` | harness/dither/x87_oracle.c:22-26 | a truncated number has at most p significant bits |
| `Truncation.RzLargest` | harness/dither/x87_oracle.c:22-26 | it is the largest such number not above the exact one |
| `Truncation.RzFixed` | harness/dither/x87_oracle.c:58-62 | a number is unchanged if and only if it fits in p bits |
| `Truncation.RzNested` | harness/dither/x87_oracle.c:58-70 | truncating to more bits first makes no difference |
| `Truncation.TwoTruncations` | harness/dither/x87_oracle.c:86-89 | truncating a term and then the sum loses less than two units of the result |
| `X87Oracle.MagOfEncode` | harness/dither/x87_oracle.c:48-49 | the word a magnitude is narrowed to stands for its truncation to 24 bits |
| `X87Oracle.EncodeOfMag` | harness/dither/x87_oracle.c:95-99 | every word is the word of its own value |
| `X87Oracle.MagLinear` | harness/dither/x87_oracle.c:111-121 | the words of one exponent are evenly spaced, which is the reading of IEEE 754 |
| `X87Oracle.CandidateIsReference` | harness/dither/x87_oracle.c:35-70 | for all pairs of words, of either sign, finite or not, at both precision settings, the C rewrite returns what the x87 sequence stores, 0x80000000 included |
| `X87Oracle.CandidateBySign` | harness/dither/x87_oracle.c:63-70 | what that value is, for all words of either sign: infinities and NaNs give 0x80000000; otherwise equal signs add the magnitudes and different ones subtract them, the larger gives the sign, and the integer part of the 24-bit truncation is returned, or 0x80000000 from 2^31 on |
| `X87Oracle.Float32BySign` | harness/dither/x87_oracle.c:76-84 | the same for the float32 rewrite, with the product narrowed first |
| `X87Oracle.CandidateIsOdd` | harness/dither/x87_oracle.c:63-70 | flipping both signs negates the result if and only if the exact sum is below 2^31 |
| `X87Oracle.Float32IsOdd` | harness/dither/x87_oracle.c:76-84 | flipping both signs negates the float32 rewrite's if and only if its own sum is below 2^31 |
| `X87Oracle.TestedIsSafe` | harness/dither/x87_oracle.c:86-125 | below 2^23, when the four-ULP test does not fire, the fast integer is the exact rewrite's |
| `X87Oracle.UntestedIsExact` | harness/dither/x87_oracle.c:110-125 | from 2^23 on, the fast integer is the exact rewrite's if and only if the two truncations dropped less than a unit of the sum |
| `X87Oracle.HybridIsCandidate` | harness/dither/x87_oracle.c:90-129 | on all words, the hybrid equals the exact rewrite if and only if not (inputs without a sign and finite, float32 sum from 2^23 up to 2^31, and what is cut off 255 * s and off the sum together reaches a unit of the sum) |
| `X87Oracle.NearBoundaryMeans` | harness/dither/x87_oracle.c:110-124 | the test fires exactly when the float32 sum is below 2^23, is no integer, and the next integer is at most four words away |
| `X87Oracle.HybridBelow` | harness/dither/x87_oracle.c:90-129 | it equals it whenever the exact sum is below 2^23 |
| `X87Oracle.HybridDiffers` | harness/dither/x87_oracle.c:117-125 | s = 32896.50390625, d = 0.75 gives 8388608 against 8388609 |
| `X87Oracle.CandidateHybrid` | harness/dither/x87_oracle.c:90-129 | the routine returns what the x87 sequence stores, at both precisions, if and only if no whole unit of a large sum is lost; it counts once for each input that has a sign, is not finite, sums to 2^31 or more, or sums to just below an integer |
| `X87Oracle.Float32ErrsAtBoundary` | harness/dither/x87_oracle.c:72-89 | on inputs without a sign the plain float32 rewrite is above the exact one if and only if the exact sum reaches 2^31 and the sum with the truncated product does not; and below 2^23 it is wrong only where the test fires |
| `X87Oracle.Float32Exceeds` | harness/dither/x87_oracle.c:72-89 | s = 8388481, d = 8421119 gives 2147483520 against 0x80000000 |
| `X87Oracle.DirectIsCandidate` | harness/dither/x87_oracle.c:131-149 | on all words, the direct conversion equals the exact rewrite if and only if not (plain inputs, exact sum below 2^31, integer part not a 24-bit float) |
| `X87Oracle.DirectBelow` | harness/dither/x87_oracle.c:131-149 | below 2^24 both are the integer part of 255 * s + d |
| `X87Oracle.DirectDiffers` | harness/dither/x87_oracle.c:131-149 | s = 65793, d = 2 gives 16777217 against 16777216 |
| `DitherKernels.PackRoundTrip` | harness/dither/arm_hybrid_bench.c:45-52 | four bytes packed are the four bytes unpacked |
| `DitherKernels.PackBits` | harness/dither/arm_hybrid_bench.c:45-52 | for any four channels, bytes or not: which bits the pixel has |
| `DitherKernels.FallsIff` | harness/dither/arm_hybrid_bench.c:31-42 | a channel falls back if and only if an input has a sign or is not finite, or their sum is 2^31 or more |
| `DitherKernels.FallBacksAre` | harness/dither/arm_hybrid_bench.c:73-90 | the number of fall-backs of a kernel call is that of the channels that do, each with the dither entry of its pixel |
| `DitherKernels.UnitChannel` | harness/dither/arm_hybrid_bench.c:17-43 | for s in [0, 1] and d in [0, 1) both conversions give the integer part of 255 * s + d, a byte, without a fall-back |
| `DitherKernels.UnitPixel` | harness/dither/arm_hybrid_bench.c:45-90 | on such inputs both kernels write the same pixel, whose bytes are the four integer parts |
| `DitherKernels.KernelsAgree` | harness/dither/arm_hybrid_bench.c:54-90 | on such inputs the kernels agree on every pixel and the fast one never falls back |
| `DitherKernels.ExactKernel` | harness/dither/arm_hybrid_bench.c:54-71 | the first `count` pixels are written, the rest of the array and the rounding mode are as before |
| `DitherKernels.HybridKernel` | harness/dither/arm_hybrid_bench.c:73-90 | the same for the direct conversion, and `slow` grows by the channels that fell back |
| `DitherKernels.Verify` | harness/dither/arm_hybrid_bench.c:133-136 | the mismatch count is the number of pixels on which the kernels differ; it is zero if and only if they agree, as they do on unit inputs |
| `DitherKernels.BenchmarkArm` | harness/dither/arm_hybrid_bench.c:99-108 | with a seven-entry table every dither index is in bounds, and the array ends as the last call left it |
| `LiveMemory.ReadExact` | harness/p67_correctness_read.py:69-74 | all the words, each as it stood at its own moment, in order; or a short read that some moment explains |
| `LiveMemory.DoubleCollect` | harness/display_lock_history.py:96-102 | if no word comes back to a value it has left, two equal passes are the whole record at any moment between them |
| `LiveMemory.DoubleCollectButOne` | harness/display_lock_history.py:96-102 | if all words but the first, or all but the last, are such, they are the record at the moment that word was read next to the others |
| `LiveMemory.FreeWordExact` | harness/display_lock_history.py:96-102 | for n words: with one word free and the others steady no double collect tears, if and only if the free word is the first or the last |
| `LiveMemory.FirstWordExact` | harness/display_lock_history.py:96-102 | for two words: no double collect tears, whatever the second word does, if and only if the first never comes back to a value and leaves it again |
| `LiveMemory.SecondWordExact` | harness/display_lock_history.py:96-102 | the mirror: whatever the first word does, if and only if the second never comes to a value, leaves it and comes back |
| `LiveMemory.SequencedDoubleCollect` | harness/p67_correctness_read.py:77-87 | with an even sequence word two equal passes are the record of one publication, the words before the sequence word included, unless the sequence wrapped |
| `LiveMemory.DoubleCollectCanTear` | harness/display_lock_history.py:96-102 | a writer of two words, one at a time, of which two equal passes accept a pair that never stood |
| `LiveMemory.ReadStable` | harness/p67_correctness_read.py:77-88 | what the tries accept is such a snapshot; they give up only after eight tries in each of which the record was not still, and report a short read only if some moment had too little memory |
| `LiveMemory.Quiet` | harness/p67_correctness_read.py:83-86 | while the sequence word stays even and unchanged, nothing in the record changes |
| `SubmitCensus.AttemptIsCoherent` | harness/reinforcement_submit_census.py:73-94 | an accepted attempt is the payload, the enabled word and the sequence of one finished publication, unless the sequence made a whole 32-bit turn meanwhile |
| `SubmitCensus.Snapshot` | harness/reinforcement_submit_census.py:68-97 | the twenty-try reader returns such a reading, every word of which stood there; or gives up after twenty tries in each of which the record was not still, or rejects a header of which a wrong word was there, or reports a short read when too little memory was there |
| `SubmitCensus.ReadAtRest` | harness/reinforcement_submit_census.py:68-97 | so a census that does not change, with a good header and an even sequence, is returned as it stands |
| `SubmitCensus.WrapTears` | harness/reinforcement_submit_census.py:73-94 | a 33-word census by a writer that keeps the discipline, and reads of it with 2^31 publications in between that the reader accepts, though no moment has that payload: the exception is real |
| `RingDecode.DecodeRecords` | harness/dmsynth_state.py:98-116 | exactly the slots that hold a record of the window in its own place, each once, in order |
| `RingDecode.DecodesOnce` | harness/dmsynth_state.py:98-116 | that determines the list |
| `RingDecode.RingRead` | harness/dmsynth_state.py:119-143 | whatever is written during the reading, the result is a strictly increasing choice of genuine records of the window, and it misses none that was there from start to end |
| `RingDecode.RingAtRest` | harness/dmsynth_state.py:98-143 | a ring at rest after w writes decodes to records max(1, w - EVENTS + 1) to w, in order |
| `RingDecode.DmsynthReadState` | harness/dmsynth_state.py:119-143 | the reader that, if the count moved, re-reads the slots and then the header keeps this: increasing genuine records of the window of the last header read, and none missed of that window that was there from the start of its last reading of the slots to the end of the call |
| `RingDecode.DmimeReadState` | harness/dmime_state.py:113-141 | the same for the reader that, if the count moved, re-reads the slots under the second header |
| `RingDecode.ReadingFitsRing` | harness/dmime_state.py:131-141 | such a reading never holds more records than the ring has slots |
| `ChunkedScan.ScanRange` | harness/dmime_state.py:81-96 | for any chunk size and any needle of two bytes or more: exactly the occurrences inside the range, each once |
| `ChunkedScan.LittleEndianOccurs` | harness/cs_deadlock_census.py:160 | the bytes searched for occur exactly where the word stands in memory |
| `ChunkedScan.LocateState` | harness/dmime_state.py:70-103 | the address returned is the only aligned occurrence in the ranges; the errors mean none, several, or too much to scan |
| `ChunkedScan.TotalOfMore` | harness/dmime_state.py:71 | the scanned total is the sum of the lengths of the ranges |
| `ChunkedScan.FindCensus` | harness/cs_deadlock_census.py:158-192 | the address returned is the only census header in the mappings; otherwise the number found is not one |
| `ChunkedScan.CensusInIff` | harness/cs_deadlock_census.py:175-185 | what is counted: the magic inside a mapping, 80 readable bytes from there on, and the version, the size and the complemented magic in the next three words |
| `ArmingGate.Worklist` | harness/island/full/island_mutable_state_audit.py:139-149 | the loop ends with the least set that holds the roots and is closed under the followed edges |
| `ArmingGate.LeastIsReachable` | harness/island/full/island_gl_reach.py:336-356 | that set is exactly what a path of followed edges leads to |
| `ArmingGate.Analyse` | harness/island/full/island_gl_reach.py:336-366 | the verdict is OK if and only if no function on any followed path refers to an unresolved slot; on the tables the scanner builds, the closure holds the root, is closed under call, source and ops-table edges, holds nothing else that no other member has an edge to, and `need` is exactly the slots its members' sources name |
| `ArmingGate.FollowIff` | harness/island/full/island_gl_reach.py:342-356 | the edges followed are exactly: a call in the binary of a function of the source, a call in the source of a function of the binary, and a function of the binary in an ops-table member the source calls through |
| `ArmingGate.NameBefore` | harness/island/full/island_gl_reach.py:232-239 | the name a source table is keyed by is the longest run of identifier characters before the parameter list, so it has no dot |
| `ArmingGate.LookupIsBase` | harness/island/full/island_gl_reach.py:346-360 | with such keys the `or` reads the entry of the name without its clone suffix, whichever name is asked |
| `ArmingGate.CloneReadsSource` | harness/island/full/island_gl_reach.py:342-360 | what the source says of a function is read for its clone if and only if the clone has one suffix at most |
| `ArmingGate.CloneIsFollowed` | harness/island/full/island_gl_reach.py:342-356 | a call of a clone is followed if and only if the clone has one suffix at most and its function is the source's |
| `ArmingGate.OneSuffixIff` | harness/island/full/island_gl_reach.py:83 | a name has at most one clone suffix if and only if it is a source name, followed perhaps by a dot, one of the six kinds, perhaps a dot, and digits |
| `ArmingGate.TwoSuffixes` | harness/island/full/island_gl_reach.py:83 | `f.part.0.cold` is left as `f.part.0`, which is no source name |
| `ArmingGate.RefusalStands` | harness/island/full/island_gl_reach.py:342-366 | more edges, targets or references never turn a refusal into an OK |
| `ArmingGate.Encode` | harness/island/full/island_gl_reach.py:380-392 | decoding the emitted words gives back exactly `need` |
| `ArmingGate.SetBit` | harness/island/full/island_gl_reach.py:388-389 | setting one slot's bit adds that slot and no other |
| `LoadRoute.SaveSelection` | harness/autoload_save.py:120-131 | a row is reported if and only if it is above 0.35 and 0.12 above every other row |
| `LoadRoute.MenuSelection` | harness/autoload_save.py:105-117 | an entry is selected if and only if the picture is 640x480 and its marker is above 0.35 and 0.12 above the other's |
| `LoadRoute.YesNoSelection` | harness/autoload_save.py:134-145 | each of the two words is selected if and only if it is 0.02 above the other and above its own threshold |
| `LoadRoute.Route` | harness/autoload_save.py:405-492 | with sound gates, whatever presses are lost: every press that arrives is one of the route's own on the way to the wanted save (the first row minus SAVE_UP, or the first row for a negative SAVE_UP), NEW GAME is never confirmed and no other save is loaded, if and only if the first loop is not caught out; success means that save is loaded; no stage presses more than three times, nor the last more than twice; with complete gates it gives up only after so many lost presses in a row, and if no two are lost in a row it succeeds if and only if the row is there |
| `LoadRoute.ToMainMenu` | harness/autoload_save.py:405-414 | the first loop presses CONFIRM on NEW GAME if and only if, in this run, its gate passes over the main menu and a later press arrives |
| `LoadRoute.NeverEntersIff` | harness/autoload_save.py:405-414 | it does so for no pattern of lost presses if and only if its first two screenshots cannot miss the main menu |
| `LoadRoute.MoveUp` | harness/autoload_save.py:442-458 | one turn of the cursor loop ends one row up, or raises; with complete gates only after three lost presses |
| `LoadRoute.Load` | harness/autoload_save.py:486-492 | the last stage succeeds only with the save of the confirmation box loaded |
| `LoadRoute.SomeWorldIsSound` | harness/autoload_save.py:105-151 | the assumptions on gates and keys can be met together |
| `GuestMap.MapInvariants` | harness/freeze_guest_read.py:29-50 | for records in any order: the counts are the positions that repeat a start, those that repeat it for another guest address than the last time, and those that overlap the block before them in sorted order; reused <= duplicates, and duplicates <= overlaps when blocks have a size |
| `GuestMap.RepeatsAndStarts` | harness/freeze_guest_read.py:38-44 | duplicates and distinct starts add up to the records, so the duplicates do not depend on the order |
| `GuestMap.SortedIsUnique` | harness/freeze_guest_read.py:45 | there is one sorted copy of the records, ties included |
| `GuestMap.ReusesAreChanges` | harness/freeze_guest_read.py:38-44 | for each start: the repeats are all its blocks but one, and the reuses the changes of guest address from one of them to the next |
| `GuestMap.Owners` | harness/freeze_guest_read.py:110-122 | exactly the guest addresses of all blocks that contain the address, as a linear search finds them |
| `GuestMap.Containing` | harness/box86_guest_profile.py:93-99 | for blocks sorted by start alone: the last one with the nearest start, if it reaches past the address, and nothing otherwise; without overlaps that is the only owner |
| `GuestMap.MissesIff` | harness/box86_guest_profile.py:51-99 | a block with the nearest start holds the address and the lookup does not find it, if and only if the last such block ends at or before it and an earlier one reaches past it |
| `GuestMap.RecompiledShorterIsMissed` | harness/box86_guest_profile.py:93-99 | two blocks of one start, the later one shorter, and an address only the earlier one holds |
| `GuestMap.NeverMissesInOrder` | harness/freeze_guest_read.py:45-122 | in the tuple order of the other reader it misses nothing |
| `GuestMap.OverlapsMeasureSharing` | harness/freeze_guest_read.py:45-50 | no adjacent overlaps if and only if no address lies in two blocks |
| `GuestMap.OneOwner` | harness/freeze_guest_read.py:110-122 | without overlaps an address has at most one owner |
| `CMask.MaskLines` | harness/island/full/island_icall_audit.py:74-126 | the loop with its three variables computes the mask as a function of the lines |
| `CMask.OnlyBlanks` | harness/island/full/island_icall_audit.py:75-82 | lengths are kept and a character is only ever replaced by a space |
| `CMask.NothingLeft` | harness/island/full/island_icall_audit.py:75-82 | no quote, `/*` or `//` is left in any masked line |
| `CMask.MaskIsIdempotent` | harness/island/full/island_icall_audit.py:74-126 | masking a masked file changes nothing |
| `CMask.HasReadingIff` | harness/island/full/island_icall_audit.py:83-126 | where every splice is harmless, the file, its lines joined as C joins them, reads as comments, literals and other characters (sections 5.1.1.2, 6.4.4.4, 6.4.5 and 6.4.9 of C11) if and only if the scan leaves no line inside a literal that does not go on, and the last line in code |
| `CMask.MaskFollowsReading` | harness/island/full/island_icall_audit.py:86-126 | then the mask keeps exactly the other characters, in place |
| `CMask.CodeSpliceFits` | harness/island/full/island_icall_audit.py:77-82 | the splices of a macro are harmless: the mask keeps the backslash, and no slash before it meets a slash or a star |
| `CMask.LiteralSpliceExact` | harness/island/full/island_icall_audit.py:101-110 | inside a literal the mask agrees with C on everything that may follow a splice and the character c, if and only if c is neither the mark nor a backslash |
| `CMask.SlashSpliceExact` | harness/island/full/island_icall_audit.py:111-118 | after a slash in code: if and only if c is neither a slash nor a star |
| `CMask.StarSpliceExact` | harness/island/full/island_icall_audit.py:92-100 | after a star in a comment: if and only if c is no slash |
| `CMask.CommentSpliceExact` | harness/island/full/island_icall_audit.py:115-118 | in a line comment: if and only if the line ends there |
| `CMask.BracesCounted` | harness/island/full/island_icall_audit.py:178-181 | in such a file there is a reading, and brace counts on the masked lines count each brace outside comments and literals once, and no other |
| `CMask.ApostropheHidesABrace` | harness/island/full/island_icall_audit.py:101-110 | two lines without a backslash at the end that have no C reading, and a brace the mask hides |
| `CMask.SpliceHidesABrace` | harness/island/full/island_icall_audit.py:101-110 | two lines joined by a backslash on which the mask and C differ |
| `FunctionExtents.FunctionsByFile` | harness/island/full/island_icall_audit.py:144-184 | the extents found are genuine, in order and apart, and every genuine extent is found unless it starts inside one or after a body that never closes; the table keeps each name's first |
| `FunctionExtents.FirstWins` | harness/island/full/island_icall_audit.py:181-183 | the body stored for a name is its first extent's lines |
| `FunctionExtents.WholeIff` | harness/island/full/island_icall_audit.py:159-183 | an extent closes where all braces of the function do if and only if the braces of its own first line pass a test on the balances after it |
| `FunctionExtents.OwnBraceCutsShort` | harness/island/full/island_icall_audit.py:159-183 | when the last line closes just what the lines after the first opened: if and only if no brace opens on the first line; and its braces balance there if and only if that line's do |
| `FunctionExtents.ShortIsCutShort` | harness/island/full/island_icall_audit.py:159-183 | a five-line function whose extent ends two lines early |
| `FunctionExtents.SurplusIsWhole` | harness/island/full/island_icall_audit.py:159-183 | a last line with one closing brace more makes the extent whole in spite of a brace on the first line |
| `SignTest.PIsAFraction` | harness/island_ab_read.py:75-82 | p is the fraction of the 2^n sign vectors whose rarer sign occurs at most as often as observed, the capped case included |
| `SignTest.PIsMonotone` | harness/present_ab_read.py:130-137 | for fixed n, p grows with the minority; it is symmetric |
| `SignTest.PIsOneIff` | harness/island_ab_read.py:75-82 | p is 1 if and only if the two counts differ by at most one |
| `SignTest.WithOnesSize` | harness/island_ab_read.py:81 | `math.comb(n, k)` counts the sign vectors with k positives |
| `SignTest.VectorsSize` | harness/island_ab_read.py:81 | there are 2^n of them: the row sum |
| `SignTest.TailsAreEqual` | harness/island_ab_read.py:80-82 | as many outcomes lean one way as the other, which doubling the tail relies on |
| `AbbaCycles.CyclesOf` | harness/present_ab_read.py:140-152 | exactly the aligned quads in the order sync, async, async, sync, each once, in order |
| `AbbaCycles.DeltaIsTheEffectIff` | harness/present_ab_read.py:155-158 | the delta is the effect if and only if the trend adds as much to the inner blocks as to the outer ones |
| `AbbaCycles.LinearDriftCancels` | harness/present_ab_read.py:14-17 | any linear drift cancels |
| `AbbaCycles.StepCancelsOnlyInTheMiddle` | harness/present_ab_read.py:32-40 | a step inside the cycle cancels if and only if it falls in the middle |

## Left out

- Thread creation and its failures, weak memory ordering and the operating system's scheduling in the stress programs: steps are sequentially consistent. The threads are a step function rather than methods, so that a theorem speaks of every interleaving.
- `FirstUseBarrier.VerdictIsExact`: asks that 2 * WORKERS * ROUNDS is below 2^32, as the shipped constants are; beyond that the failure counters can wrap, and `FirstUseBarrier.VerdictModuloWord` says what the verdict tells.
- `SignalStress.LostUpdateIsExact`: asks that WORKERS * ITERATIONS is below 2^32, as the shipped constants are.
- `SignalStress.VerdictIsExact`: asks that 2 * WORKERS * ITERATIONS + SIGNALS is below 2^32, as the shipped constants are; beyond that `SignalStress.SecondTestModuloWord` says what the second test tells.
- The oracle's and the benchmark's own counters, random inputs, checksum and timing; NaN and infinity beyond the tests that send them to the exact path or to 0x80000000.
- The recorders that write the memory: they are not part of this model. A ring record's write is one step, and ring counts do not wrap at 32 bits.
- The `--last` option of the ring readers, the JSON they print, and their header checks.
- Finding modules and mappings in `/proc`; memory that changes while it is searched; short reads in `find_census`, which end its scan of a mapping.
- `ChunkedScan.ScanRange`: a needle of one byte is excluded; the source's `window[-0:]` would carry the whole window, and both callers search for more.
- `objdump` and preprocessor output, and the regular expressions over source lines: the call tables and the candidates of the extent scan are inputs. Functions of the same name in several files are not merged.
- The audit's other cuts, and the gate's control check that some entry needs a slot.
- The load route after the save is loaded (walking, actions, captures), the window focus, the locked file mappings, and the key press before the first screenshot, which the title screen ignores. Image crops are numbers, and keys are lost but never delayed or repeated.
- `CMask.HasReadingIff`: speaks of files whose splices are harmless. Each condition for that is exact for what may follow; a file can break one and still come out right by chance, as when two errors cancel. Trigraphs are not modelled.
- Medians, quantiles, bootstrap intervals and the stability and cap filters of the A/B readers; the work-normalised estimate. Means are over rationals.
- The EGL facade, the Wayland and dma-buf probes, the Mali counters and the launchers: driver glue.
