# Verification of ros2_zephyr's stateful core

A Dafny model of the parts of ros2_zephyr that hold state or do arithmetic that has to be right, and
proofs about whole runs of them. `dafny verify dfyconfig.toml` checks everything. Modules come in pairs
where a component has both code and runs: one module holds the model and the code proved against it, the
other the properties of every run.

| module | component |
|---|---|
| `Plant`, `Control`, `ControlRuns` | the 100 Hz static control loop: saturated PD plant, command expiry, release and deadline accounting, latched fault |
| `Timing` | the loop's timing probe: histograms, percentile estimates, and the host's percentile order test |
| `WaitSet` | the cached wait-set attachments of `rmw_wait`, next to the detach-all/attach-all code they replace |
| `Condvar`, `CondvarRuns` | the condition-variable timeout protocol: kernel fix, library workaround, and the build's choice between them |
| `Allocator`, `AllocatorRuns` | the tracking allocator: two domains, two heaps, block headers, metrics shared by many threads |
| `Freelist` | borrowing one object from another thread's partial magazine |
| `Deployment`, `DeploymentPatterns`, `DeploymentRuns`, `GeneratedHeader`, `GeneratedUses` | the deployment compiler: endpoint validation and its lexical rules, the generated init and fini as statements of a small machine in which any call may fail, and the generated context structure |
| `Capture`, `CaptureLines` | the streaming marker matcher of the UART capture tool, and what it counts on the bytes of a stream |
| `ElfSections`, `ElfFiles`, `ElfWriter` | the ELF section table reader against the layout of the System V gABI, chapter 4 "Object Files" |
| `RamSpans` | physical RAM spans, computed by the inventory and by the resource verifier |
| `StackBudget` | stack admission, the aligned carve-out of thread-local storage, the Wi-Fi stack wrapper |
| `Words`, `Division`, `Common` | 32-bit wrapping, facts about division and small shared definitions |

Code that updates state in place is a class or a method with loops, proved equal to a function on values;
the properties are then proved of that function, over every run. Concurrent code is a machine whose steps
are the pieces between which another thread may act: a run is any sequence of enabled steps by any number
of threads. Clocks, timer counts, heap answers, DDS results and failing calls are inputs of each step.

## Where the code does not meet the obvious property

Each of these has a lemma at a concrete input that shows it, and the exact condition under which the
property holds.

- Percentile order. `timing_percentile` computes its rank in 32 bits. From 43,383,508 samples on the rank
  wraps, and p50 <= p95 <= p99 can fail (`OrderFailsPastLimit`); it holds for all sample lists of a given
  length exactly if the three wrapped ranks are in order (`OrderExactly`), and so up to 43,383,507 samples
  (`CheckerAcceptsOrder`).
- Wait-set cache. A detach that fails after an earlier one succeeded leaves the saved list as it was.
  From then on every call either fails or waits on the wrong entities (`BrokenCacheWaitsOnWrongSet`,
  `StaleForEver`). Otherwise, and only otherwise, waits observe what was requested
  (`WaitsOnRequestedExactly`).
- Condition variable. Neither and both of fix and workaround are wrong, on zero and on ordinary timeouts
  (`ZeroTimeoutAfter`, `TimeoutAfter`, `CorrectExactly`, `TimeoutsCorrectExactly`).
- Build selection. The build asks whether the kernel patch reverse-applies, and only for 4.4.0 to 4.4.2.
  An unfixed kernel of another version is left as it is (`UnfixedKernelLeftAlone`); the selection is right
  exactly under the condition of `SelectionCorrectExactly`.
- Generated context structure. Endpoint identifiers such as `a` and `a_initialized` are accepted and give
  two members one name (`AcceptedClash`, `NamesDistinctExactly`).
- Capture. A line whose marker starts more than 2048 bytes before its newline can lose it before the
  newline arrives (`LongLineMissed`); 2048 is the exact bound (`BoundExactly`), and lines may be of any length.

Two further results rest on what linking and a 32-bit address space guarantee. The wrapped Wi-Fi stack has the size that
admission computes because thread-local storage, where there is any, has an alignment
(`WrapperMatchesAdmission`). The allocator's high-water mark is the historical maximum of its live bytes
because these fit a 32-bit address space (`HighWaterExactly`).

Main results are stated on the inputs themselves, with the numbers the source uses written out: arrays of a
request, sizes of blocks, microseconds of samples, events of a run, bytes of a stream or file. Functions of the
model that the code is proved equal to are connected to such a statement by a lemma of their own.

The plant bound proved here, 24.75 on |position + 4.99 velocity| and 49.7 on |position|, is tighter than a
bound that only uses the effort limit.

## Model

| member | source | states |
|---|---|---|
| `Plant.Clamp` | samples/static_control/src/plant.c:10-19 | the result is the value itself between the bounds and the nearer bound outside them |
| `Plant.Effort` | samples/static_control/src/plant.c:31-35 | effort stays in [-1, 1], is zero while output is disabled, and is 4 (target - position) - velocity exactly when that lies in [-1, 1] |
| `Plant.AdvanceIntegrates` | samples/static_control/src/plant.c:37-39 | the two sequential updates of velocity and position, at the 10 ms period, are one linear map of the motion |
| `Plant.StaticControlPlant.constructor` | samples/static_control/src/plant.c:21-25 | a plant starts at rest |
| `Plant.StaticControlPlant.Step` | samples/static_control/src/plant.c:27-44 | the fields hold the integrated motion for the effort reported, and the output repeats them |
| `Plant.EffortSeeksTarget` | samples/static_control/src/plant.c:31-35 | with output enabled, effort is positive, zero or negative exactly as 4 (target - position) is above, at or below velocity, and saturated exactly past 1 |
| `Plant.RestsOnTargetExactly` | samples/static_control/src/plant.c:27-44 | an enabled step leaves a motion unchanged exactly if it is at rest on the target |
| `Plant.AdvanceMovesCoastPoint` | samples/static_control/src/plant.c:37-39 | position + 4.99 velocity moves by exactly 0.05 effort in a step |
| `Plant.EffortOpposesEscape` | samples/static_control/src/plant.c:31-35 | with an accepted target, effort never pushes further out once position + 4.99 velocity is past 24.7 |
| `Plant.StepStaysBounded` | samples/static_control/src/plant.c:27-44 | one step keeps the velocity and coast-point bounds, for either switch position and every accepted target |
| `Plant.RunStaysBounded` | samples/static_control/src/plant.c:27-44 | over every run with targets in [-1, 1] and any switching: velocity at most 5, position + 4.99 velocity at most 24.75, position at most 49.7 in magnitude |
| `Plant.CoastPointConservesEffort` | samples/static_control/src/plant.c:31-39 | over every run position + 4.99 velocity changes by 0.05 times the sum of the efforts applied |
| `Plant.CoastTravel` | samples/static_control/src/plant.c:31-39 | with output disabled the plant slows without reversing and its total travel is 4.99 times the loss of speed, for any number of steps |
| `Plant.SteadyMotion` | samples/static_control/src/plant.c:37-39 | closed form of every run under a constant effort: the difference of velocity from 5 times the effort shrinks to 0.998 of itself in each step, and the position follows |
| `Plant.DeviationShrinks` | samples/static_control/src/plant.c:31-39 | near the target each step multiplies a quadratic measure of distance and velocity by exactly 0.988 |
| `Plant.DeviationBounds` | samples/static_control/src/plant.c:27-44 | that measure bounds the squared distance from the target within a factor 1.1 and the squared velocity within 4.5 |
| `Plant.Settles` | samples/static_control/src/plant.c:27-44 | from a deviation of at most 0.0595, every run driven at one target settles on it: the deviation after n steps is exactly 0.988^n of what it was |
| `Control.StaticControl.constructor` | samples/static_control/src/control.c:39-43 | initial snapshots: nothing running, no valid command, the published state all zero and DISABLED |
| `Control.StaticControl.Start` | samples/static_control/src/control.c:244-266 | starts only when not running; a start invalidates the command and resets the published state to all zero and DISABLED, a refused start changes nothing |
| `Control.StaticControl.Submit` | samples/static_control/src/control.c:278-290 | accepts exactly finite targets in [-1, 1] with a non-negative receipt, storing target, sequence and receipt; a refused command leaves the snapshot as it was |
| `Control.StaticControl.Interleave` | samples/static_control/src/control.c:278-290 | any number of submissions between two reads leaves the snapshot of the last accepted one |
| `Control.StaticControl.Pass` | samples/static_control/src/control.c:176-238 | one pass of the loop over plant, published state, schedule and fault flag is the cycle function |
| `Control.StaticControl.ControlEntry` | samples/static_control/src/control.c:162-242 | the thread publishes the all-zero DISABLED state and then the state after each turn, keeps nothing running at the end, and leaves the snapshot the run decides |
| `Control.PublishedAt` | samples/static_control/src/control.c:237 | the k-th published state is the state after k turns |
| `ControlRuns.SnapshotHoldsLastAccepted` | samples/static_control/src/control.c:278-290 | the snapshot is the last accepted submission, or the old one if none was accepted |
| `ControlRuns.SnapshotAfter` | samples/static_control/src/control.c:153-160 | what a turn reads, and what a run leaves, is decided by the submissions made before the read, in any interleaving |
| `ControlRuns.ScheduleAfter` | samples/static_control/src/control.c:202 | scheduled release = anchor + 10 + 10 times the sum of releases |
| `ControlRuns.CyclesAfter` | samples/static_control/src/control.c:232 | the cycle counter is the number of turns, modulo 2^32 |
| `ControlRuns.SkippedAfter` | samples/static_control/src/control.c:198-201 | the skipped counter is the sum of releases beyond one per turn, modulo 2^32 |
| `ControlRuns.ReleasesAccounted` | samples/static_control/src/control.c:170-232 | if every sync returns at least 1, cycles + skipped = sum of releases; exactly below 2^32, and modulo 2^32 always |
| `ControlRuns.LatenessAfter` | samples/static_control/src/control.c:193-197 | the published lateness is the greatest lateness any turn of the run reported, truncated to 32 bits as the code does |
| `ControlRuns.GreatestIsGreatest` | samples/static_control/src/control.c:193-197 | that value is at least every reported lateness and is one of them, or 0 |
| `ControlRuns.ReportedExactly` | samples/static_control/src/control.c:195-196 | an early turn reports no lateness; a late one its milliseconds times 1000 modulo 2^32, and so the true lateness while that fits |
| `ControlRuns.FaultExactly` | samples/static_control/src/control.c:198-226 | the fault flag holds exactly if some turn so far skipped a release or began or completed after its schedule |
| `ControlRuns.FaultUnderMonotoneClock` | samples/static_control/src/control.c:198-226 | with a monotone clock: exactly if some turn had more than one release or completed after its schedule |
| `ControlRuns.FaultLatches` | samples/static_control/src/control.c:223-236 | once FAULT is published every later turn publishes FAULT with zero effort |
| `ControlRuns.StatusExactly` | samples/static_control/src/control.c:204-236 | the published status is decided by the environment: FAULT, DISABLED, STALE or ACTIVE from missed turns and the last accepted command |
| `ControlRuns.EffortOnlyWhileActive` | samples/static_control/src/control.c:230-236 | published effort is the applied effort while ACTIVE and zero otherwise |
| `ControlRuns.EffortImpliesSafe` | samples/static_control/src/control.c:176-238 | nonzero published effort implies ACTIVE, no missed turn in the whole run, and a last accepted command with receipt <= start <= receipt + 250 |
| `ControlRuns.DriveExactly` | samples/static_control/src/control.c:204-231 | output is enabled exactly when nothing was missed before the step and the last accepted command is at most 250 ms old; the plant is driven towards that command and its sequence is published, or those kept from before if none was accepted |
| `ControlRuns.PlantFollowsDrives` | samples/static_control/src/control.c:215-229 | the plant inside the loop follows the run of its drives and the published motion is the plant's |
| `ControlRuns.PublishedMotionBounded` | samples/static_control/src/control.c:215-229 | whatever is submitted, the published motion satisfies the plant bounds |
| `ControlRuns.PublishedMotionConservesEffort` | samples/static_control/src/control.c:215-229 | published position + 4.99 velocity = 0.05 times the sum of applied efforts |
| `ControlRuns.TravelAfterFault` | samples/static_control/src/control.c:215-226 | after a fault latches the plant travels at most 4.99 times its velocity, for any number of later turns |
| `ControlRuns.DrivenRunSettles` | samples/static_control/src/control.c:204-231 | a run that keeps driving at one target of magnitude at most 0.24 publishes, after n turns from rest, a motion whose deviation from rest on the target is exactly 0.988^n of that at the start |
| `Timing.Bucket` | samples/static_control/src/control.c:95-98 | bucket b below 101 holds exactly the samples from 100 b up to 100 b + 99 us, bucket 101 exactly those from 10100 us on |
| `Words.WrapIsRemainder` | samples/static_control/src/control.c:83-89 | wrapping is the remainder modulo 2^32 |
| `Timing.ElapsedAcrossWrap` | samples/static_control/src/control.c:83-89 | the unsigned difference of two wrapped counters is the true interval, for any interval below 2^32 |
| `Timing.SamplesExactly` | samples/static_control/src/control.c:83-94 | a release sample is the true interval in whole microseconds and a completion sample how many of them exceed 10000, across counter wraps and up to the greatest 32-bit value |
| `Timing.PrefixIsBelow` | samples/static_control/src/control.c:99-106 | a histogram prefix counts exactly the samples in the buckets below, and the whole histogram sums to the number of samples |
| `Timing.RankExactly` | samples/static_control/src/control.c:113 | the computed rank is the nearest rank exactly if samples times percentile plus 99 does not wrap |
| `Timing.TimingPercentile` | samples/static_control/src/control.c:108-122 | the loop is the 32-bit scan: zero without samples, otherwise the upper edge of the first bucket whose wrapping count reaches the rank, or the last edge |
| `Timing.ScanLands` | samples/static_control/src/control.c:114-121 | while the counts fit 32 bits the scan ends in the bucket where the count first reaches the rank |
| `Timing.EstimateFromHistogram` | samples/static_control/src/control.c:108-122 | scanning a histogram of the samples gives the estimate of the samples |
| `Timing.EstimateHoldsRankedSample` | samples/static_control/src/control.c:108-122 | for up to 43,383,507 samples, with x the ceil(n p / 100)-th smallest: the result is the multiple of 100 us with result - 100 <= x < result, and 10200 if x is at least 10100 |
| `Timing.TimingProbe.constructor` | samples/static_control/src/control.c:53-61 | an empty probe describes no samples |
| `Timing.TimingProbe.Record` | samples/static_control/src/control.c:80-106 | a record appends one release and one completion sample, saturated to 32 bits, and keeps the histograms counting them |
| `Timing.TimingProbe.Tally` | samples/static_control/src/control.c:95-105 | counts, histograms and maxima all move to the extended sample lists |
| `Timing.TimingProbe.Read` | samples/static_control/src/control.c:124-143 | a record holds the sample count modulo 2^32, both maxima, and the scans of both histograms; below 2^32 samples these are the estimates of the recorded samples |
| `Timing.EstimateExists` | samples/static_control/src/control.c:108-122 | every sample list has an estimate for every percentile up to 99 |
| `Timing.EstimateMonotone` | samples/static_control/src/control.c:108-122 | a smaller rank never gives a larger estimate |
| `Timing.EstimateBelowMaximum` | samples/static_control/src/control.c:99-122 | an estimate is at most the recorded maximum plus 100 us, and at most 10200 |
| `Timing.OrderExactly` | samples/static_control/src/control.c:136-141 | p50 <= p95 <= p99 holds for every list of n samples exactly if the three wrapped ranks are in order |
| `Timing.CheckerAcceptsOrder` | tools/check_static_control_timing.py:43-46 | a record of at most 43,383,507 samples always passes the percentile order test |
| `Timing.OrderFailsPastLimit` | tools/check_static_control_timing.py:43-46 | with one sample more the 32-bit rank wraps and some sample list is reported out of order |
| `WaitSet.NewWait` | patches/rmw-cyclonedds-c-fixed-waitset.patch:81-125 | a request is rejected exactly if subscriptions and guard conditions together exceed capacity or either array holds a null; then, and when they are what is saved, the wait set is untouched |
| `WaitSet.WaitSetData.constructor` | patches/rmw-cyclonedds-c-fixed-waitset.patch:62 | a new wait set observes nothing |
| `WaitSet.WaitSetData.ValidateList` | patches/rmw-cyclonedds-c-fixed-waitset.patch:16-33 | one list is accepted exactly if it fits and has no null entry; the match flag says the requests so far are a prefix of the saved ones |
| `WaitSet.WaitSetData.ValidateRequestedAttachments` | patches/rmw-cyclonedds-c-fixed-waitset.patch:9-54 | rejects exactly these requests, counts the entries of both arrays, and reports a match exactly if the saved list is the subscriptions followed by the guard conditions |
| `WaitSet.WaitSetData.DetachAll` | patches/rmw-cyclonedds-c-fixed-waitset.patch:89-94 | detaches in order and stops at the first failure, leaving the saved list alone |
| `WaitSet.WaitSetData.AttachEntity` | patches/rmw-cyclonedds-c-fixed-waitset.patch:5-7 | appends on success, unchanged on failure |
| `WaitSet.WaitSetData.AttachList` | patches/rmw-cyclonedds-c-fixed-waitset.patch:103-124 | attaches in order until the first failure |
| `WaitSet.WaitSetData.Attach` | patches/rmw-cyclonedds-c-fixed-waitset.patch:81-125 | the attachment phase in place on the saved array is the new wait function |
| `WaitSet.WaitStep` | patches/rmw-cyclonedds-c-fixed-waitset.patch:81-125 | a call on a consistent cache leaves it consistent, unless a detach after the first one fails, and then it leaves it stale |
| `WaitSet.StaleForEver` | patches/rmw-cyclonedds-c-fixed-waitset.patch:81-125 | a stale cache never changes again, and every wait it lets through observes the wrong entities |
| `WaitSet.CacheAfter` | patches/rmw-cyclonedds-c-fixed-waitset.patch:81-125 | over every run the capacity is kept and never exceeded, and the cache is consistent unless a call broke it |
| `WaitSet.WaitsOnRequestedExactly` | patches/rmw-cyclonedds-c-fixed-waitset.patch:81-125 | in every run, a call that reaches the wait step has saved the subscriptions in order and then the guard conditions, and DDS observes exactly those entities if and only if no earlier call failed midway through detaching |
| `WaitSet.BrokenCacheWaitsOnWrongSet` | patches/rmw-cyclonedds-c-fixed-waitset.patch:88-101 | a run of three calls in which a failed second detach leads to a wait on the wrong entities |
| `WaitSet.OldStep` | patches/rmw-cyclonedds-c-fixed-waitset.patch:63-114 | one call of the removed code with any fault: it waits exactly on servable requests whose DDS calls succeed, with the requested entities attached; it stays consistent exactly if no detach failed midway |
| `WaitSet.NewStep` | patches/rmw-cyclonedds-c-fixed-waitset.patch:81-125 | one call of the cached code with any fault: it waits exactly on servable requests that are attached already or whose DDS calls succeed |
| `WaitSet.DdsErrorLeaves` | patches/rmw-cyclonedds-c-fixed-waitset.patch:88-125 | a failed detach leaves the saved list and observes the rest of it; a failed attach leaves exactly the entities before the first that is repeated or refused, saved and observed |
| `WaitSet.NeverBroken` | patches/rmw-cyclonedds-c-fixed-waitset.patch:63-101 | runs in which no detach fails break neither version, whatever attaches fail |
| `WaitSet.CachedRefinesUncached` | patches/rmw-cyclonedds-c-fixed-waitset.patch:63-125 | after any two runs with any faults that broke neither version, the cached code waits exactly when the removed code would or the request is attached already; it observes exactly the request, and when both wait they leave the same wait set |
| `WaitSet.SameOverEveryRun` | patches/rmw-cyclonedds-c-fixed-waitset.patch:63-125 | in every run where no detach fails, a call whose attaches succeed waits in both versions or in neither, on the same wait set observing exactly the request |
| `Condvar.StepKeepsMutex` | patches/zephyr-condvar-timeout-relock.patch:8-31 | every step keeps owner and hold count equal to what the threads' places say, if exactly one of fix and workaround is used |
| `Condvar.StepKeepsCondLock` | patches/zephyr-condvar-timeout-relock.patch:18-21 | every step keeps the condition-variable lock with the one thread that is parking, in all four configurations |
| `Condvar.StepKeepsQueue` | patches/zephyr-condvar-timeout-relock.patch:21 | every step keeps the wait queue equal to the waiting threads, without repeats, in all four configurations |
| `Condvar.KernelAfter` | patches/zephyr-condvar-timeout-relock.patch:18-31 | lock and queue follow the threads' places after every interleaving of any number of threads, in all four configurations |
| `Condvar.MutexAfter` | patches/zephyr-condvar-timeout-relock.patch:8-31 | so do owner and hold count of the mutex, if exactly one of fix and workaround is used |
| `Condvar.NoWakeupLost` | patches/zephyr-condvar-timeout-relock.patch:18-31 | in every configuration a signal or broadcast never falls between unlocking and queueing: a broadcast wakes every waiter, a signal wakes one whenever there is one, and only one |
| `Condvar.WakeupPossibleExactly` | patches/zephyr-condvar-timeout-relock.patch:18-21 | in every run a thread not in a wait can signal and broadcast exactly while no wait is between taking the condition variable's lock and being queued |
| `CondvarRuns.ZeroTimeoutAfter` | patches/zephyr-condvar-timeout-relock.patch:8-17 | a zero timeout returns with the mutex held once for each of fix and workaround: not at all with neither, twice with both |
| `CondvarRuns.TimeoutAfter` | patches/zephyr-condvar-timeout-relock.patch:18-31 | an ordinary timeout returns the same way |
| `CondvarRuns.HoldsAfter` | patches/cyclonedds-zephyr-4.4.patch:298-309 | with both, in every run, the mutex belongs to the one thread it is due to, held once for every timed-out wait of that thread and once more where it is due |
| `CondvarRuns.DoubleRelockNeverFrees` | patches/cyclonedds-zephyr-4.4.patch:298-309 | with both, once a timed-out wait has returned, its caller owns the mutex in every continuation of every run, even outside its critical section, and holds it at least once per such wait |
| `CondvarRuns.ReportsWhatEndedIt` | patches/zephyr-condvar-timeout-relock.patch:8-31 | in every run of every configuration a wait returns a timeout exactly if its timeout ended it, and success exactly if a signal or broadcast took it off the queue, read off the events |
| `CondvarRuns.NeverStuck` | patches/zephyr-condvar-timeout-relock.patch:8-31 | with exactly one of fix and workaround, while a thread is in its critical section or past the queue, it or the owner of the mutex can take its next step |
| `CondvarRuns.CorrectExactly` | patches/zephyr-condvar-timeout-relock.patch:8-31 | every return in every run leaves the caller sole owner with hold count 1, and reports truly what ended the wait, exactly if one of kernel fix and relock workaround is used, not both and not neither |
| `CondvarRuns.TimeoutsCorrectExactly` | patches/zephyr-condvar-timeout-relock.patch:18-31 | the same holds for the runs without zero timeouts alone |
| `CondvarRuns.SelectionCorrectExactly` | cmake/rmw/cyclonedds_c.cmake:74-89 | the build's selection is correct exactly if, for versions 4.4.0 to 4.4.2, the reverse check agrees with the kernel, and otherwise the kernel is fixed |
| `CondvarRuns.UnfixedKernelLeftAlone` | cmake/rmw/cyclonedds_c.cmake:74-78 | for version 4.3.0 with an unfixed kernel neither is used, which is wrong |
| `Allocator.TrackingAllocator.constructor` | platform/allocator.c:36-40 | no blocks and zero metrics |
| `Allocator.TrackingAllocator.MetricsAdd` | platform/allocator.c:60-69 | charges one call and the size to one domain and leaves the other |
| `Allocator.TrackingAllocator.MetricsReplace` | platform/allocator.c:226-233 | replaces the old size by the new one and raises the high-water mark only afterwards |
| `Allocator.TrackingAllocator.Allocate` | platform/allocator.c:117-148 | a null result changes nothing; otherwise a new block with a truthful header, in the external heap exactly if there is external RAM and the size is at least 4096 for ROS or 8192 for the middleware |
| `Allocator.TrackingAllocator.Deallocate` | platform/allocator.c:150-171 | null is ignored; otherwise the block is refunded and returned |
| `Allocator.TrackingAllocator.Reallocate` | platform/allocator.c:173-237 | null allocates; failure leaves the old block and all metrics unchanged; success leaves the block with its new size in the heap of that size |
| `Allocator.TrackingAllocator.ZeroAllocate` | platform/allocator.c:239-250 | null exactly on overflow or failed allocation; otherwise a block of zeros |
| `Allocator.OverflowTest` | platform/allocator.c:241 | the division test detects exactly the products that do not fit |
| `Allocator.AllocatedAtOnce` | platform/allocator.c:117-148 | the atomic steps of an allocation compose to one new live block in the heap its size selects, with its domain charged |
| `Allocator.DeallocatedAtOnce` | platform/allocator.c:150-171 | the steps of a free compose to a refund and a return to the heap named in the header |
| `Allocator.ReallocatedAtOnce` | platform/allocator.c:173-237 | the steps of a reallocation compose to one live block of the new size, the old memory returned to the heap it came from and the domain recharged |
| `AllocatorRuns.StepPosts` | platform/allocator.c:60-69 | each step changes a domain's metrics by one ledger entry |
| `AllocatorRuns.StepTotals` | platform/allocator.c:117-237 | each step changes the bytes and blocks booked by the same entry |
| `AllocatorRuns.LedgerRecordsRun` | platform/allocator.c:60-69 | in every interleaving the metrics and the booked totals are both read off one ledger |
| `AllocatorRuns.BooksBalance` | platform/allocator.c:60-69 | in every interleaving live bytes equal the sum of accounted block sizes and calls - frees = live blocks + successful reallocations: modulo 2^32 always, the bytes exactly while they fit, the count exactly below 2^32 successful calls |
| `AllocatorRuns.NoUnderflow` | platform/allocator.c:157-160 | whenever a block is about to be refunded or resized its size is part of the booked bytes of its domain, hence at most its live bytes while those fit 32 bits |
| `AllocatorRuns.HighWaterExactly` | platform/allocator.c:60-69 | the high-water mark is exactly the historical maximum of live bytes, if and only if that maximum fits 32 bits |
| `AllocatorRuns.PeakIsGreatest` | platform/allocator.c:60-69 | that maximum is reached at some step and exceeded at none |
| `AllocatorRuns.CountersCount` | platform/allocator.c:60-69 | in every interleaving the two counters are the numbers of successful allocations and resizes, and of frees, made in the domain, modulo 2^32 |
| `AllocatorRuns.HeapCallsRight` | platform/allocator.c:150-237 | every free and resize calls exactly the heap the block is in, once, and no other step calls one on a block |
| `AllocatorRuns.LiveBytesAreReal` | platform/allocator.c:60-69 | whenever no operation is under way a domain's live bytes are the payload bytes of its live blocks |
| `AllocatorRuns.PlacedAlways` | platform/allocator.c:117-237 | in every interleaving every live block is in the external heap exactly if there is external RAM and its size is at least 4096 (ROS) or 8192 (middleware), its header says so, and all memory was returned to the heap it came from |
| `AllocatorRuns.ReallocateKeepsPrefix` | platform/allocator.c:173-237 | a reallocation keeps the first min(old, new) bytes, moves the block to the heap its new size calls for, and touches no other block or domain |
| `Freelist.OtherValue` | patches/cyclonedds-partial-magazines.patch:15 | the magazine inspected at a turn, without the modulus |
| `Division.RemainderExactly` | patches/cyclonedds-partial-magazines.patch:15 | the remainder the model computes by subtraction is that of the division |
| `Freelist.TurnsVisitOthersOnce` | patches/cyclonedds-partial-magazines.patch:13-15 | the turns visit every magazine but the home one, each once |
| `Freelist.LocksAlways` | patches/cyclonedds-partial-magazines.patch:13-23 | in every run the locks are held by exactly the borrowers between lock and unlock |
| `Freelist.OneLockAtATime` | patches/cyclonedds-partial-magazines.patch:13-23 | no borrower ever holds two locks |
| `Freelist.LockProtects` | patches/cyclonedds-partial-magazines.patch:16-20 | while a borrower holds a magazine's lock nothing but its own look changes the magazine |
| `Freelist.NeverDeadlocked` | patches/cyclonedds-partial-magazines.patch:13-23 | while a borrow is in progress some borrower can take a step |
| `Freelist.ObjectsConserved` | patches/cyclonedds-partial-magazines.patch:16-22 | in every run the number of copies of every object, stored or in hand, never changes |
| `Freelist.SearchRemembers` | patches/cyclonedds-partial-magazines.patch:13-23 | the looks of a borrow in progress are its turns so far, each an inspection of that magazine under its lock that found it empty |
| `Freelist.NothingMeansAllEmpty` | patches/cyclonedds-partial-magazines.patch:13-24 | a borrow that returns nothing inspected every other magazine exactly once and found each empty while it held its lock |
| `Freelist.FoundWasTaken` | patches/cyclonedds-partial-magazines.patch:13-23 | a borrow that returns an object took it off the end of another magazine under its lock, after finding each magazine before it empty |
| `Capture.FindsFirst` | samples/loopback/capture_esp32.py:73 | the search returns the first occurrence at or after the start, or -1 if there is none |
| `Capture.NewlineFromIsFirst` | samples/loopback/capture_esp32.py:76 | the newline found is the first one |
| `Capture.DrainWindow` | samples/loopback/capture_esp32.py:72-84 | the inner loop is the drain function |
| `Capture.Capture` | samples/loopback/capture_esp32.py:67-86 | the whole loop is the watch function over the chunks |
| `Capture.StoppedStays` | samples/loopback/capture_esp32.py:81-84 | once enough lines matched, later chunks change nothing |
| `Capture.CutMatchedLine` | samples/loopback/capture_esp32.py:72-80 | cutting through the end of the first line with the marker takes exactly one matching line off the stream |
| `Capture.NothingToCut` | samples/loopback/capture_esp32.py:72-78 | when nothing is cut the window holds no complete matching line |
| `Capture.TruncationIsSafe` | samples/loopback/capture_esp32.py:85-86 | keeping the last 2048 bytes of a window without a complete match loses no match and adds none, if matching lines hold the marker within 2048 bytes of their newline |
| `Capture.TruncationKeepsBound` | samples/loopback/capture_esp32.py:85-86 | what is kept satisfies the same condition |
| `Capture.ShortLineWithin` | samples/loopback/capture_esp32.py:85-86 | lines of at most 2048 bytes satisfy that condition |
| `Capture.WatchTracks` | samples/loopback/capture_esp32.py:67-86 | after any chunking, matches so far plus matching lines in window and rest of stream is the total |
| `Capture.CaptureCounts` | samples/loopback/capture_esp32.py:67-86 | for every stream and chunking, if every line with the marker has it at most 2048 bytes before its newline, the counter is the number of complete lines with the marker, stopping exactly when enough were seen |
| `Capture.LongLineMissed` | samples/loopback/capture_esp32.py:85-86 | a line whose marker starts 2049 bytes before its newline and is missed |
| `Capture.BoundExactly` | samples/loopback/capture_esp32.py:85-86 | the count is right for all streams with markers up to a distance from their newline exactly if the distance is at most 2048 |
| `CaptureLines.CountIsMarkedLines` | samples/loopback/capture_esp32.py:67-86 | the lines counted are the newline bytes before which the marker stands with no newline between |
| `CaptureLines.CaptureCountsMarked` | samples/loopback/capture_esp32.py:67-86 | in these terms, for every stream and chunking: right if markers stand at most 2048 bytes before their newlines |
| `CaptureLines.ShortStreamCounts` | samples/loopback/capture_esp32.py:85-86 | streams of at most 4096 bytes are counted right wherever their markers stand |
| `Deployment.ValidateEndpoints` | tools/compile_deployment.py:121-165 | accepts exactly the valid endpoint lists and otherwise reports what the first bad endpoint deserves, capacity last |
| `Deployment.ComplainsExactly` | tools/compile_deployment.py:129-155 | the checks in their order find a duplicate, an unsupported lifetime or a schema error exactly if the endpoint deserves it, and nothing exactly if it is well formed |
| `DeploymentPatterns.LowerIdentifierExactly` | tools/compile_deployment.py:15 | endpoint identifiers are the strings the regular expression matches in full |
| `DeploymentPatterns.IdentifierExactly` | tools/compile_deployment.py:14 | the same for callbacks |
| `DeploymentPatterns.MessageTypeExactly` | tools/compile_deployment.py:16 | the same for message types |
| `DeploymentPatterns.TopicExactly` | tools/compile_deployment.py:135-137 | a topic is not empty, does not end in a slash and has no two slashes in a row |
| `Deployment.SubscriptionsInOrder` | tools/compile_deployment.py:302 | the executor's subscriptions are all of the deployment's, each once, in their order |
| `Deployment.CreatesEverything` | tools/compile_deployment.py:348-375 | the node is created first, then every endpoint in its place, and last an executor exactly if there is a subscription |
| `Deployment.GenerateFini` | tools/compile_deployment.py:319-336 | the generated fini finishes executor, endpoints backwards and node, each behind its flag |
| `Deployment.GenerateCreation` | tools/compile_deployment.py:348-369 | node and endpoints are created in order, each followed by its check and flag |
| `Deployment.GenerateWiring` | tools/compile_deployment.py:370-385 | executor, one addition per subscription, prepare |
| `Deployment.GenerateInit` | tools/compile_deployment.py:337-387 | the generated init is the concatenation of these parts |
| `DeploymentRuns.ValidatedAreDistinct` | tools/compile_deployment.py:124-132 | validated deployments have distinct endpoints, each of the kind its text names |
| `DeploymentRuns.FiniVisitsAll` | tools/compile_deployment.py:319-335 | fini finishes every flagged resource in its order even after errors, and reports an error exactly if one failed |
| `DeploymentRuns.FinishOrderIsBackwards` | tools/compile_deployment.py:323-334 | the finish order is the creation order reversed |
| `DeploymentRuns.FinishesPrefixBackwards` | tools/compile_deployment.py:323-334 | if the first k resources are flagged, fini finishes exactly these, backwards |
| `DeploymentRuns.BlocksRun` | tools/compile_deployment.py:348-375 | when every constructor succeeds the blocks create their resources in order |
| `DeploymentRuns.BlocksStop` | tools/compile_deployment.py:348-375 | creation stops at the first failing call, having created exactly the resources before it, and returns its code |
| `DeploymentRuns.WiringRuns` | tools/compile_deployment.py:376-385 | additions and prepare stop at the first failing call and never exceed the executor's capacity |
| `DeploymentRuns.InitFailsCreating` | tools/compile_deployment.py:348-375 | init that fails creating returns the failing call's code and finishes exactly what it created, once each, backwards |
| `DeploymentRuns.InitFailsWiring` | tools/compile_deployment.py:376-385 | init that fails wiring finishes everything, once each, backwards |
| `DeploymentRuns.InitSucceeds` | tools/compile_deployment.py:348-386 | a successful init leaves every resource live and unfinished, and the executor exactly full and prepared with every subscription in order |
| `DeploymentRuns.InitExactly` | tools/compile_deployment.py:337-387 | for every deployment and every pattern of failing calls, which of the three happens and with what result |
| `DeploymentRuns.InitSucceedsExactly` | tools/compile_deployment.py:337-387 | init returns success exactly if every call it makes succeeds |
| `DeploymentRuns.FiniUndoesInit` | tools/compile_deployment.py:319-335 | fini after a successful init finishes everything backwards and returns 0 if every finalizer did and otherwise 1 |
| `DeploymentRuns.NullRejected` | tools/compile_deployment.py:319-342 | without a context both return code 11 and make no call |
| `GeneratedHeader.GenerateHeader` | tools/compile_deployment.py:274-285 | the context structure declares node, executor, one member per endpoint, one message per subscription and one flag per resource, each once |
| `GeneratedHeader.NamesSpelled` | tools/compile_deployment.py:274-285 | kind, underscore and identifier, with _message or _initialized after it |
| `GeneratedUses.UsesExactly` | tools/compile_deployment.py:274-387 | the members that the generated init and fini name are exactly those the header declares |
| `GeneratedHeader.NamesDistinctExactly` | tools/compile_deployment.py:274-285 | with distinct endpoints, the field names are distinct exactly if no identifier is another one of its kind followed by _initialized or, for subscriptions, _message |
| `GeneratedHeader.AcceptedClash` | tools/compile_deployment.py:121-165 | the identifiers a and a_initialized are accepted and give two fields the same name |
| `RamSpans.Place` | tools/esp32c6_resources.py:48-53 | a section is appended to every region it starts in, unless it crosses the end of one |
| `RamSpans.Collect` | tools/esp32c6_resources.py:38-53 | the inventory is refused exactly if a non-empty allocated section crosses a region's end, and otherwise lists each region's sections in file order |
| `RamSpans.Summarize` | tools/esp32c6_resources.py:54-60 | span is greatest end minus origin, bytes the sum of sizes |
| `RamSpans.Inventory` | tools/esp32c6_resources.py:36-60 | one report per region, or a refusal exactly when a section crosses a boundary |
| `RamSpans.SectionsOfExactly` | tools/esp32c6_resources.py:38-53 | a region lists exactly the non-empty sections with flag bit 1 that start in it |
| `RamSpans.MeasureRegion` | tools/verify_resources.py:546-549 | the greatest end of the allocated sections that start in a region |
| `RamSpans.MeasureLinked` | tools/verify_resources.py:538-550 | the RAM total is the sum of the measured spans |
| `RamSpans.MaxEndExactly` | tools/esp32c6_resources.py:54-57 | the greatest end is reached by some section or is the origin, and none is greater |
| `RamSpans.LinkedSpanExactly` | tools/esp32c6_resources.py:54-59 | the linked span is the greatest distance from the origin at which such a section ends, or 0 |
| `RamSpans.MeasuredSpanExactly` | tools/verify_resources.py:546-550 | the same with empty sections |
| `RamSpans.RegionUsageExactly` | tools/verify_resources.py:423-431 | the same for sections that also end inside |
| `RamSpans.MeasuredAgainstLinked` | tools/verify_resources.py:546-550 | the measured span is at least the linked span, and equal exactly if no empty allocated section starts past the last counted byte |
| `RamSpans.AllTightExactly` | tools/verify_resources.py:541-550 | the condition for several regions is the condition for each |
| `RamSpans.TotalsCompare` | tools/verify_resources.py:538-550 | the measured total is at least the linked total, and equal exactly if every region is tight |
| `RamSpans.AcceptedSpansFit` | tools/verify_resources.py:423-431 | in an accepted image all spans fit their regions and region_usage equals the measured span |
| `RamSpans.DisjointBytes` | tools/esp32c6_resources.py:60 | disjoint sections fill at most the range they lie in |
| `RamSpans.BytesAreAddresses` | tools/esp32c6_resources.py:60 | the bytes of disjoint sections are exactly the number of addresses they occupy |
| `RamSpans.BytesWithinSpan` | tools/esp32c6_resources.py:54-60 | if a region's sections are disjoint: section bytes = addresses occupied <= linked span <= capacity |
| `ElfSections.ReadsBack` | tools/verify_resources.py:375-391 | decoding an encoded integer gives it back, in both byte orders, for any width |
| `ElfSections.WritesBack` | tools/verify_resources.py:375-391 | encoding a decoded integer gives the bytes back |
| `ElfSections.LittleWeights` | tools/verify_resources.py:373 | in little-endian order each further byte weighs 256 times the one before |
| `ElfSections.BigWeights` | tools/verify_resources.py:373 | in big-endian order the first byte weighs most |
| `ElfSections.HalfWordOrders` | tools/verify_resources.py:373 | the two orders of a 16-bit field |
| `ElfSections.StoredExactly` | tools/verify_resources.py:375-391 | an integer is stored at a place exactly if decoding the slice there gives it |
| `ElfSections.Unpack` | tools/verify_resources.py:375-391 | a structure is read exactly if it lies inside the data |
| `ElfSections.HeaderOffsets` | tools/verify_resources.py:376-383 | the offsets the two header formats imply are those of Elf32_Ehdr and Elf64_Ehdr in the System V gABI, chapter 4 |
| `ElfSections.SectionOffsets` | tools/verify_resources.py:378-383 | the offsets the two section formats imply are those of Elf32_Shdr and Elf64_Shdr |
| `ElfSections.RowExactly` | tools/verify_resources.py:386-389 | an unpacked entry matches a section header exactly if the gABI places that header there |
| `ElfSections.HeaderExactly` | tools/verify_resources.py:375-383 | the unpacked file header matches exactly if the gABI fields hold table offset, entry size, count and name index |
| `ElfSections.UnpackTableExactly` | tools/verify_resources.py:386-389 | the table is read exactly if every entry lies inside the data, entry by entry |
| `ElfSections.TableExactly` | tools/verify_resources.py:386-389 | the table matches a list of section headers exactly if all of them are laid out there |
| `ElfFiles.IdentifyExactly` | tools/verify_resources.py:370-374 | magic, class and byte order are recognised exactly as the identification bytes say |
| `ElfFiles.RefusalsExactly` | tools/verify_resources.py:370-375 | a file is refused as no ELF file exactly without the magic number, and as unsupported exactly for a class or byte order other than 1 and 2 |
| `ElfFiles.NameReadsBack` | tools/verify_resources.py:390-397 | a zero-terminated name in the name table is returned without its terminator |
| `ElfFiles.SectionNameExactly` | tools/verify_resources.py:393-397 | any name runs up to the next zero byte or the end of the table, and is empty from beyond the end |
| `ElfFiles.ParsesEveryLaidOutFile` | tools/verify_resources.py:365-402 | for every file laid out by the gABI, in either class and byte order, the result is exactly the list of name bytes, address, size, type and flags |
| `ElfFiles.AcceptedIsLaidOut` | tools/verify_resources.py:365-402 | every accepted file is laid out for some section headers, and address, size, type and flags of the list returned are theirs |
| `ElfFiles.AcceptsExactly` | tools/verify_resources.py:365-402 | the reader accepts exactly the laid-out files |
| `ElfFiles.NoTableExactly` | tools/verify_resources.py:384-385 | a complete header is refused for its table exactly if the name index is not below the section count |
| `ElfWriter.PackStored` | tools/verify_resources.py:375-391 | packing by a format stores every field where the format puts it |
| `ElfWriter.WriteIsLaidOut` | tools/verify_resources.py:375-391 | every table of headers whose values fit their fields has a laid-out file, in either class and byte order |
| `ElfWriter.ReaderInvertsWriter` | tools/verify_resources.py:365-402 | the reader returns what the writer was given |
| `StackBudget.RoundDownExactly` | patches/zephyr-riscv-tls-alignment.patch:14-15 | rounding down gives the greatest multiple of the alignment that is not above |
| `StackBudget.CarveOutExactly` | patches/zephyr-riscv-tls-alignment.patch:9-24 | the storage is aligned, the returned size is what the stack loses, and that is between the size and size + alignment - 1 |
| `StackBudget.Thread.ArchTlsStackSetup` | patches/zephyr-riscv-tls-alignment.patch:9-24 | the thread's storage address and the returned size, for every stack end |
| `StackBudget.StackBudget` | tools/admit_esp32c6.py:41-58 | invalid exactly for negative arguments or an alignment below 1; a thread stack reserves size + alignment - 1, an interrupt stack nothing; passes exactly if reserve, overhead, execution and margin fit |
| `StackBudget.PassingStackHolds` | tools/admit_esp32c6.py:41-58 | a passing thread stack keeps execution + margin bytes after storage and overhead, at every address and alignment |
| `StackBudget.FailingStackFallsShort` | tools/admit_esp32c6.py:41-58 | a failing thread stack falls short at some address, so the reserve is not too large |
| `StackBudget.PassesExactly` | tools/admit_esp32c6.py:41-58 | with room in the address space a thread stack passes exactly if it keeps its budget wherever it is placed |
| `StackBudget.AdmittedBackingExactly` | tools/admit_esp32c6.py:136-137 | the backing is the least multiple of 16 not below 3427 + storage + alignment - 1 |
| `StackBudget.WrappedStackExactly` | platform/esp32c6_wifi_stack.c:8-13 | short of overflow the wrapper returns the least multiple of 16 not below vendor size + storage + alignment - 1 + 355 |
| `StackBudget.WrapperMatchesAdmission` | platform/esp32c6_wifi_stack.c:8-13 | short of overflow, and with an alignment whenever there is storage, the wrapper applied to 3072 returns the backing admission computes |
| `StackBudget.WrapperAgreesExactly` | platform/esp32c6_wifi_stack.c:8-13 | without that link they agree exactly unless both alignments are 0 and the storage size is 14 modulo 16 |
| `StackBudget.WifiRowPasses` | tools/admit_esp32c6.py:136-143 | the Wi-Fi row passes exactly if the overhead is at most 99 plus the rounding slack |
| `StackBudget.WifiAlwaysAdmittedExactly` | tools/admit_esp32c6.py:78-83 | it passes for every linked storage exactly if the exception frame is at most 80 bytes, 84 without the sentinel |
| `StackBudget.WrappedStackHoldsVendorBudget` | platform/esp32c6_wifi_stack.c:8-13 | whatever size the vendor asks for, the wrapped stack keeps it plus the margin after storage and overhead |

## Left out

- float32 rounding, NaN and infinities inside the plant: the plant is modelled over `real`; non-finite targets exist only as submissions that are refused.
- `static_control_stop` and the thread join: a run ends after any number of turns; one owner thread is assumed to start and stop.
- `release_expiry` and the cycle counter itself: cycle counts are inputs of `Record`; `k_cyc_to_us_floor64` is modelled as exact rounding down for a given frequency.
- Timing.EstimateHoldsRankedSample: takes the sorted list as an argument, any sorted permutation of the samples, instead of building it.
- The unseen head of `attach_entity`: given a contract (append on success; unchanged when the set is full, the entity is already attached, or the DDS call fails). Entities are assumed not to be deleted while attached.
- The rest of `rmw_wait` after the attachment phase: waiting, timeouts and taking results.
- Mutex priorities and fairness in the condition-variable protocol: only safety, and that no wake-up is lost; hold count 1 on entry is assumed, as is that signal and broadcast take the condition variable's lock.
- Heap internals: a heap answers with a fresh block or fails without effect, and its realloc keeps the prefix. The parts of a reallocation before the metrics update are one step.
- Allocator.TrackingAllocator.Allocate: requires header plus request to fit `size_t`, taken as 32 bits, which the source does not test; a wrapped sum would ask the heap for less than the header.
- Allocator.TrackingAllocator.Reallocate: requires the same of the new size.
- Allocator.TrackingAllocator.ZeroAllocate: requires the same of the product, once its own overflow test has passed.
- Failure reports, failure injection's counter, and heap statistics of the allocator: injection is an input.
- The local and full-magazine fast paths of the free list: other threads push and pop as single steps under the magazine's lock.
- JSON typing, `exact_keys`, and the node, graph, rmw and remaining resource checks of `validate_deployment`; the capability checks and the other generated files.
- Text of the generated C beyond its calls, flags, checks and member names; calling the generated fini twice, since it does not clear its flags.
- Serial I/O, reconnects and timeouts of the capture tool, and its argument parser, which refuses a minimum below 1.
- Capture.CaptureCounts: requires a marker without a newline, which the tool does not test; such a marker cannot lie within one line.
- UTF-8 decoding of section names, and extended section numbering (a count of 0 in the header), which the reader refuses.
- ElfWriter.ReaderInvertsWriter: the writer does not build the name table; the names have to be in the body it is given.
- Parsing of linker maps into regions, flash accounting, and which named regions are measured.
- `z_tls_data_size`: taken equal to the budgeted storage size; its definition is not part of the repository.
- StackBudget.Thread.ArchTlsStackSetup: requires a nonzero alignment, since rounding to 0 divides by 0; copying the storage image is left out.
- WaitSet.CachedRefinesUncached: excludes a last call whose detach fails, which the two versions may make for different entities.
- StackBudget.PassesExactly: requires backing + storage + alignment to fit the address space, so that the worst placement exists.
- The remaining admission rows, the disassembly scan and call-graph checks of `admit`.
- The native reader/writer lock and once primitive, and the log-buffer patch: too little of their code is in the repository.
- Build scripts, patch application, samples that only call ROS or the network, report rendering and argument parsing.
