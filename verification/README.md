# Verified model of the emulator's timers, wake-up protocols, data cache and text and image helpers

This project models eight cores of a PlayStation 2 emulator with a PS Vita port and proves what
each of them promises, for every input, every interleaving or every run. `dafny verify dfyconfig.toml`
checks all of it.

## What is proved

**EE timers** (`EeTimers`, `IopCounters`, `IopBlanks`, `IopGates`, `IopDeadline`, `HsyncFold`, `Deadlines`,
`Ticks`, `TimerRegisters`, `RegisterLaws`, `GateLaws`, `CounterUpdates`, `FoldedUpdates`, `VerticalUpdates`,
`UpdateEvents`, `FoldExamples`, `EeTimerUnit`; pcsx2/Counters.cpp, pcsx2/IopCounters.cpp). The
four counters are lazy: elapsed cycles become ticks when somebody looks.
`VitaFoldSilentHsyncBefore` applies many horizontal sync edges at once; `HsyncFold` proves that this
leaves the timers as running the ordinary handler at the cycle of each edge does, for every state the
fold accepts and any number of edges, and that no such step raises an interrupt. The comment in the
source says that the skipped IOP callbacks only republish an unchanged deadline: `IopAgreesIffPublished`
says exactly when that holds, and `SkippedPublication` is a state where it does not. The ordinary path
runs the whole of `rcntUpdate` at each edge: `CounterUpdates`, `FoldedUpdates` and `VerticalUpdates` decide
when folding up to the next deadline and updating once, at a vertical edge or not, is as good
(`FoldThenUpdateIff`). It is not for a counter nobody watches that overflows twice (`TwoOverflowsAreLost`) or
that a vertical blank closes after an overflow (`ClosedUnwrapped`), nor, with sync interrupts suppressed, for
one that follows a level (`LevelIsLost`); and a counter past its target has its interrupt put off
(`FoldPostponesIff`). `Deadlines` proves the two deadline computations exact and decides, for every state, when
they are: a counter past its target is answered with "in four cycles" although it is due now
(`DeadlineExactIff`, `LateDeadline`), and in `cpuRcntSet` it also throws away what was found before it
(`CpuRcntSetMinimumIff`, `LostEdge`). `Ticks` proves that reading a counter early changes nothing and that
ticks are conserved over any run. `TimerRegisters` decides for every event, late or not, whether it leaves a
counter past its target, and with it every run of updates, blanking edges, reads and register writes; by
the deadline no event on a counter that counts cycles does, but on the external clock a target of zero is
passed by two ticks (`ZeroTargetIsPassed`). `UpdateEvents` proves that in every state each counter meets at an
update exactly the event of `TimerRegisters` (`UpdateIsEvent`); `GateLaws` and `RegisterLaws` say in ticks of the
clock what gate modes and register writes promise. On the IOP, `IopBlanks` gives count, target, flags and
interrupts of a counter of scanlines in closed form, and `IopGates` what the four gate modes do to counter 0.
`EeTimerUnit` holds the loops of the source on mutable state.

**Wake-up protocols** (`WorkSema`, `ProgressEvent`, `UserspaceSemaphore`, `SpscRing`, `RingWait`).
Each is a transition system whose steps are the atomic operations, lock sections and kernel semaphore
operations of the source. An invariant is kept by every step, hence holds in every state of every
interleaving; the promises follow, among them which results are possible (`WaitResultIff`: a wait returns false
if and only if the worker is dead at its deciding load) and what each thread can be stuck on (the `BlockedIff`
lemmas). Three promises fail in general and have counterexample runs:
`WaitForEmpty` can return true for unprocessed work if the worker is killed and reset while somebody
waits (`ResetRaceReturnsTrue`; `WaitMeansProcessedIff` says exactly when); a producer that finds items
pending can fall asleep on a ring drained before it took its position, although
pcsx2/vita/VitaGsMailbox.cpp:9392 says that a drain to empty loses no wake (`DrainBeforePositionLosesWakeup`,
`SleepsOnEmptyRingIff`); and publishing and notifying without
`PublishQuiescence`, as the stage progress of pcsx2/vita/VitaGpuVuUniversalEpoch.cpp:811 does, can lose a
wake-up (`NotifyAloneLosesWakeup`); `NotifySufficesIff` says exactly when it does.

**Data cache** (`DataCache`, `CacheRuns`, `DataCacheUnit`; pcsx2/Cache.cpp). Flat memory is a byte at every
address. Without locked lines every run of reads, writes and write-back operations, at any width, is
indistinguishable from it, pages that do not exist are neither written nor read, and a write-back operation
puts into memory exactly what was seen at the addresses it is about (`MemoryAfterWriteBack`).
A locked hit is where this ends: `LandsOnPageIff` says exactly when an access lands on its own page, and
`LockedHitReturnsAnotherPage` is a read that does not.

**Sequential algorithms.** MD5 streaming over an arbitrary block function (`Md5Stream`, sections 3.1 to
3.5 of RFC 1321); the greedy wildcard matcher against the recursive relation, for every character
equality (`Wildcards`); the UTF-8 codec against sections 3 and 4 of RFC 3629 and the file name sanitizer
on top of it (`Utf8`, `FileNames`); path splitting, joining, combining, canonicalizing and relativizing
(`Paths`, `PathAlgebra`, `PathMeaning`, `RelativePaths`); the LRU cache against a recency list, which in every
run is in the order of last use (`LruCache`); writing and reading back a BMP (`Bmp`, `BmpLoad`).

Where the code does something its names or comments do not suggest, the model follows the code:

- the wildcard matcher folds case exactly when a case-sensitive match is asked for
  (common/StringUtil.cpp:56-101);
- `Canonicalize` turns `/` and `../..` into the empty path and `/../a` into `a`; it keeps the place a
  path denotes if and only if no `..` removes the root or a kept `..`, and the path is not the root
  (`CanonicalKeepsMeaningIff`);
- `LRUCache::Insert` makes room before it looks for the key, so refreshing a key in a full cache can
  evict another entry; `InsertIsTextbookIff` says exactly when it differs from the textbook cache;
- the UTF-8 decoder does not check continuation bytes, accepts overlong sequences, and produces values
  up to 0x13FFFF; `ReencodeIff` says which byte strings survive decoding and encoding.

## Assumptions

- Memory is sequentially consistent, and each access to a shared atomic is one step. Spin limits are
  nondeterministic. `WaitForWorkWithSpin` and `WaitForEmptyWithSpin` are covered by the spinning states.
- `WorkSema`: one thread at a time waits for empty (common/Semaphore.cpp:157), fewer than 2^29
  notifications are unacknowledged (`NotificationBoundIsExact` shows that the bound is exact), and `Kill`
  is called by the worker.
- Progress event and ring: one consumer; other waiters queue on the outer mutex and touch nothing.
  `size()` is exact for its caller (`SizeIsExactForItsCaller`), so the pending check is one step.
- EE cycles are unbounded naturals. The truncations to 32 bits are written out, and lemmas about
  deadlines state the ranges in which the differences do not wrap. The phases of a scanline last at least
  one cycle. The IOP cycle does not move while EE edges are stepped. In `TimerRegisters` events
  are fewer than 2^31 cycles apart.
- Data cache: the virtual-to-host mapping keeps the low 12 bits, and whether a page exists is a function
  of the page.
- Strings handed to the wildcard matcher hold no NUL character. Paths are those of a host whose separator
  is the slash, with the absolute paths of the Vita build.

## Model

| member | source | states |
|---|---|---|
| HsyncFold.FoldSimulatesStepping | pcsx2/Counters.cpp:261-344 | folding any number of accepted edges gives the state that running the ordinary handler at each edge cycle gives, apart from the current cycle and an unpublished IOP deadline |
| HsyncFold.FoldedStateIsSteppedState | pcsx2/Counters.cpp:261-344 | sync counter, HSINT, blanking level and all four counters agree, and no stepped edge raises an EE or IOP interrupt |
| HsyncFold.EdgeSimulates | pcsx2/Counters.cpp:1007-1052 | one folded edge is one run of the edge handler at the cycle of that edge, in either phase, suppressed or not, but for the interrupt of an unmasked first HSINT |
| HsyncFold.LateEdge | pcsx2/Counters.cpp:1007-1052 | an edge handled late leaves what it leaves on time, but for the current cycle |
| HsyncFold.BlankStartSimulates | pcsx2/Counters.cpp:1165-1220 | at a blank start the gates of foldable counters do nothing but tick the externally clocked ones, silently; the one interrupt is that of an unmasked first HSINT |
| HsyncFold.BlankEndSimulates | pcsx2/Counters.cpp:1222-1258 | at a blank end the gates of foldable counters do nothing |
| HsyncFold.FoldKeepsFoldable | pcsx2/Counters.cpp:185-215 | a folded edge keeps the state foldable with the same external-clock mask, so the mask may be computed once |
| HsyncFold.IopAgreesIffPublished | pcsx2/IopCounters.cpp:247-257 | fold and steps agree on the whole IOP state if and only if IOP counter 0 does not count cycles, or is past its target with four cycles scheduled, or is due no sooner than the IOP deadline |
| HsyncFold.SkippedPublication | pcsx2/IopCounters.cpp:310-322 | a concrete state in which the step postpones the IOP deadline from one cycle to four and the fold does not |
| IopCounters.SilentEdges | pcsx2/IopCounters.cpp:616-648 | with silent IOP counters the blank callbacks only set the level and republish one deadline, and stay silent |
| IopCounters.PublishIsIdempotent | pcsx2/IopCounters.cpp:286-364 | republishing the deadline changes nothing, at either level, for every delta, negative ones included |
| IopCounters.PublishedAtAnyLevel | pcsx2/IopCounters.cpp:247-257 | whether the deadline is published does not depend on the blanking level |
| IopCounters.PublishedIff | pcsx2/IopCounters.cpp:286-364 | republishing leaves the deadline unchanged exactly in the states the field conditions describe |
| IopDeadline.DeadlineIsExact | pcsx2/IopCounters.cpp:286-364 | for a counter not past its target: a cycle is at or after the republished deadline if and only if it is at or after the one before, or counter 0 has overflowed or reached its target by then |
| IopDeadline.OtherDeadlines | pcsx2/IopCounters.cpp:306-322 | a counter past its target is given four cycles, one that counts no cycles leaves the deadline alone |
| IopBlanks.ReturningCounter | pcsx2/IopCounters.cpp:427-503 | an IOP counter of scanlines that returns to zero, after any number of them: count modulo target, flags, and how many interrupts in each of the four interrupt modes |
| IopBlanks.WrappingCounter | pcsx2/IopCounters.cpp:427-503 | the same for one that runs through: overflows and targets counted, the target put off while it is behind |
| IopBlanks.LinesAreCounted | pcsx2/IopCounters.cpp:616-648 | over any scanlines counters 1 and 3 count them if they count scanlines, each for itself, and raise between them what each raises alone |
| IopGates.BlankStart | pcsx2/IopCounters.cpp:546-579 | what a read of counter 0 finds after the blank has started, by gate mode, stopped or not |
| IopGates.BlankEnd | pcsx2/IopCounters.cpp:581-614 | and after it has ended |
| IopGates.TargetAtGates | pcsx2/IopCounters.cpp:546-614 | where a gate clears the count, a target put off until after the overflow comes back into force; elsewhere it stays |
| IopGates.PixelClockRunsFast | pcsx2/IopCounters.cpp:259-284 | a concrete counter at the pixel clock of rate 3 that gains a tick by being read |
| EeTimerUnit.Timers.FoldSilentHsyncBefore | pcsx2/Counters.cpp:261-344 | the loop on the mutable state: the new state is the stepped one with the deadline rebuilt, every folded edge lies strictly between now and the horizon, and each of the six stop reasons means what it says |
| EeTimerUnit.Timers.FoldLoop | pcsx2/Counters.cpp:290-338 | the loop folds exactly the edges before the first due edge, horizon or unmasked first HSINT, and terminates |
| EeTimerUnit.Timers.FoldOne | pcsx2/Counters.cpp:302-336 | one turn of the loop is one folded edge and moves the start cycle forward |
| EeTimerUnit.Timers.PrepareFold | pcsx2/Counters.cpp:185-215 | accepts exactly the foldable counters, returns the mask, or names the first counter that forbids the fold |
| EeTimerUnit.Timers.TickExternal | pcsx2/Counters.cpp:325-332 | the inner loop advances and tests exactly the masked counters |
| EeTimerUnit.Timers.NextNonHsyncCounterCycle | pcsx2/Counters.cpp:217-259 | the loop computes the deadline whose exactness is proved |
| EeTimerUnit.Timers.NarrowFor | pcsx2/Counters.cpp:72-136 | one call narrows the deadline for one counter and changes nothing else |
| EeTimerUnit.Timers.SetNextCounterEvent | pcsx2/Counters.cpp:139-164 | the loop over the counters computes the scheduled deadline of the specification |
| Deadlines.CounterDeadlineExact | pcsx2/Counters.cpp:1054-1123 | for a counter not past its target the overflow or target test acts at exactly the cycles from its deadline on |
| Deadlines.DeadlineIsExact | pcsx2/Counters.cpp:217-259 | with no watched counter past its target, something is due at a cycle if and only if the cycle is at or after the deadline |
| Deadlines.DeadlineExactIff | pcsx2/Counters.cpp:217-259 | the deadline is exact if and only if no watched counter is past its target or something else is due already |
| Deadlines.LateDeadline | pcsx2/Counters.cpp:87-91 | a concrete state that is due at cycle 100 and scheduled for 104 |
| Deadlines.DeadlinePassedIff | pcsx2/Counters.cpp:217-259 | the deadline has passed exactly when something not past its target is due now |
| Deadlines.CpuRcntSetSchedulesTheMinimum | pcsx2/Counters.cpp:139-164 | with no watched counter past its target, the scheduled cycle is the earlier of the next horizontal edge and the exact deadline, clamped to now |
| Deadlines.CpuRcntSetSchedules | pcsx2/Counters.cpp:139-164 | what is scheduled in every state: the last watched counter past its target throws away everything found before it |
| Deadlines.CpuRcntSetMinimumIff | pcsx2/Counters.cpp:87-91 | the minimum is scheduled if and only if no watched counter is past its target, or nothing found before the last such counter is due sooner than what it and the counters after it ask for |
| Deadlines.LostEdge | pcsx2/Counters.cpp:87-91 | a concrete state whose due horizontal edge is postponed by four cycles |
| Ticks.SyncMovesWholeTicks | pcsx2/Counters.cpp:1109-1126 | a sync moves exactly the whole elapsed ticks into the count, keeps alignment and leaves less than one tick over |
| Ticks.SyncingEarlyChangesNothing | pcsx2/Counters.cpp:1109-1126 | any sequence of intermediate syncs gives the same count and start cycle as the last one alone |
| Ticks.TicksAreConserved | pcsx2/Counters.cpp:1054-1148 | over any run of reads and updates the elapsed ticks are the change in count plus 0x10000 per wrap plus the target per zero return |
| Ticks.TestsBalance | pcsx2/Counters.cpp:1054-1093 | what the overflow and target tests take out of a counter |
| Ticks.MaskRoundsDown | pcsx2/Counters.cpp:1109-1126 | masking the start cycle with a power-of-two rate rounds down to a multiple of it |
| TimerRegisters.SyncPassesIff | pcsx2/Counters.cpp:1109-1126 | a sync takes a counter past its target if and only if more ticks have elapsed than there was room for |
| TimerRegisters.TestsPassIff | pcsx2/Counters.cpp:1054-1093 | the tests leave any counter past its target if and only if a second target or a second overflow is left over |
| TimerRegisters.UpdatePassesIff | pcsx2/Counters.cpp:1128-1148 | so does an update, however late |
| TimerRegisters.WriteCountNeverPasses | pcsx2/Counters.cpp:1284-1300 | writing the count never does |
| TimerRegisters.WriteTargetPassesIff | pcsx2/Counters.cpp:1302-1318 | writing the target does if and only if the synced count is beyond an overflow |
| TimerRegisters.WriteModePassesIff | pcsx2/Counters.cpp:1260-1282 | writing the mode does exactly when the sync in it does, whatever clock, gate or stop is selected |
| TimerRegisters.UpdateByAction | pcsx2/Counters.cpp:1165-1258 | what the edges of an update do to a counter gated by one of them: nothing, or open, close or restart it |
| TimerRegisters.ActedPassesIff | pcsx2/Counters.cpp:1165-1258 | when an update whose edge opens, closes or restarts a counter leaves it past its target, the edge handled late or not |
| TimerRegisters.EventPassesIff | pcsx2/Counters.cpp:1109-1338 | decided for every event: updates with their edges and ticks, sync interrupts suppressed or not, reads, and writes of count, target and mode |
| TimerRegisters.NeverPastIff | pcsx2/Counters.cpp:1109-1338 | in every run of these events, whatever their lateness, no state is past its target if and only if no event meets its condition |
| TimerRegisters.PunctualEventIsSafe | pcsx2/Counters.cpp:72-136 | an event on a counter that counts cycles, by its deadline, never meets the condition |
| TimerRegisters.ZeroTargetIsPassed | pcsx2/Counters.cpp:1054-1093 | a run of the external clock that ends past its target: target zero, count 0xFFFF, return to zero and two blanks |
| TimerRegisters.TickPassesIff | pcsx2/Counters.cpp:1165-1180 | a tick of the external clock takes a counter past its target if and only if it returns to zero at a target of zero with a tick to spare |
| TimerRegisters.StoppedKeepsCount | pcsx2/Counters.cpp:1109-1126 | a counter stopped by a mode write keeps its count |
| TimerRegisters.TicksAfterModeWrite | pcsx2/Counters.cpp:1260-1282 | a counter set running by a mode write and read later has gained the ticks of 2, 32 or 512 cycles that its clock source selects, from the last such tick before the write |
| UpdateEvents.UpdateIsEvent | pcsx2/Counters.cpp:1128-1148 | for every state, whatever is gated, clocked, due, late or suppressed: each counter after an update is what the event of TimerRegisters leaves, and the interrupts come in the order of the source |
| UpdateEvents.HScanlineAt | pcsx2/Counters.cpp:1007-1052 | the horizontal handler in every state: each counter meets the horizontal edge, and the rest of the state does not depend on the counters |
| UpdateEvents.StartGatesAt | pcsx2/Counters.cpp:1165-1220 | the gates at a blank start for any four counters, horizontally gated ones included, with their ticks and interrupts in order |
| UpdateEvents.EndGatesAt | pcsx2/Counters.cpp:1222-1258 | the gates at a blank end for any four counters |
| UpdateEvents.TestsRaise | pcsx2/Counters.cpp:1054-1093 | which interrupts the two tests raise, told from count, target and flags |
| GateLaws.RisingEdge | pcsx2/Counters.cpp:1165-1220 | what a read finds after the gate signal has risen on its cycle, by gate mode: the ticks up to the edge, the ticks since the edge, or all of them |
| GateLaws.FallingEdge | pcsx2/Counters.cpp:1222-1258 | what a read finds after it has fallen: mode 0 has counted no tick of the blank, modes 2 and 3 begin at the edge |
| GateLaws.SameSourceNeverCounts | pcsx2/Counters.cpp:1096-1107 | gated and clocked by the horizontal blank at once, a counter is off |
| GateLaws.UngatedCounts | pcsx2/Counters.cpp:1096-1126 | without a gate a counter counts through every edge, or never |
| RegisterLaws.ModeReadsBack | pcsx2/Counters.cpp:1260-1282 | the mode register holds the ten bits written; a reached flag is kept unless a one was written to it |
| RegisterLaws.ModeRoundTrip | pcsx2/Counters.h:8-51 | the twelve bits of the mode register determine its fields |
| RegisterLaws.CountReadsBack | pcsx2/Counters.cpp:1284-1300 | a written count reads back with the ticks of the clock since added |
| RegisterLaws.TargetAfterCountWrite | pcsx2/Counters.cpp:1284-1300 | after a count write the target is hit at exactly the tick it is ahead, a whole turn if it equals the count, and not before |
| RegisterLaws.TargetAfterTargetWrite | pcsx2/Counters.cpp:1302-1318 | the same after a target write |
| EeTimerUnit.Timers.SyncCounter | pcsx2/Counters.cpp:1109-1126 | one counter is synced in place, the others stay |
| EeTimerUnit.Timers.ReadCount | pcsx2/Counters.cpp:1326-1338 | syncs and returns the low 16 bits |
| EeTimerUnit.Timers.WriteCount | pcsx2/Counters.cpp:1284-1300 | the counter and the narrowed deadline of the specification, other counters unchanged |
| EeTimerUnit.Timers.WriteTarget | pcsx2/Counters.cpp:1302-1318 | the same for the target |
| EeTimerUnit.Timers.WriteMode | pcsx2/Counters.cpp:1260-1282 | the same for the mode, from the value written: the bits, the flags and the rate of its clock source |
| CounterUpdates.TestedTwiceIff | pcsx2/Counters.cpp:1054-1093 | testing a counter nobody watches early makes no difference unless the early test wraps it and it wraps again |
| CounterUpdates.IdleUpdates | pcsx2/Counters.cpp:1128-1148 | updates that reach no threshold are as good as one sync |
| CounterUpdates.UnnoticedUpdatesIff | pcsx2/Counters.cpp:1128-1148 | for any number of updates of a counter nobody watches: as good as the last one if and only if it does not overflow before the last but one and again before the last |
| VerticalUpdates.FoldThenUpdateIff | pcsx2/Counters.cpp:261-344 | folding edges and updating once, with vertical and horizontal edges due or not and on time or late, leaves the EE side as updating at every edge, if and only if no counter nobody watches overflows both before the last edge and again before the update or is closed after a test has acted on it, and no counter that follows a level sees a tick before an edge with another level than the last |
| VerticalUpdates.FoldBeforeDeadlineIff | pcsx2/R5900.cpp:350-358 | the same for the horizon the caller computes, with no watched counter past its target |
| VerticalUpdates.VScanlineAt | pcsx2/Counters.cpp:969-1005 | the vertical handler: what it does to the sync counters and interrupts has nothing to do with the counters, and it opens, closes or restarts exactly those whose gate answers to the edge |
| VerticalUpdates.HandlersKeepTwins | pcsx2/Counters.cpp:1128-1132 | the two handlers on two states that differ in their lazy counters leave the same levels, interrupts and externally clocked counts, and of the other counters what the vertical gate alone leaves |
| VerticalUpdates.CounterAtUpdate | pcsx2/Counters.cpp:1134-1148 | the next update of one counter, alone and after updates at the edges: the same interrupts in any case, and the same counter if and only if it agrees |
| FoldedUpdates.FoldPostponesIff | pcsx2/R5900.cpp:350-358 | the first folded edge leaves the same interrupts raised as the ordinary path if and only if no counter, past its target or not, is due to interrupt at it |
| FoldedUpdates.VerticalGateIff | pcsx2/Counters.cpp:1165-1258 | the gate of a counter at a vertical edge of the next update: the two paths come to the same if and only if the edge does not close a counter nobody watches that a test has wrapped or postponed |
| FoldedUpdates.VerticalUpdateIff | pcsx2/Counters.cpp:1128-1258 | the same with the sync and the tests that follow the gate in that update |
| CounterUpdates.SyncAfterUpdatesIff | pcsx2/Counters.cpp:1109-1148 | a sync after updates of a counter nobody watches is as good as the sync alone if and only if no test has taken or marked anything |
| CounterUpdates.LevelAtEndIff | pcsx2/Counters.cpp:1096-1126 | a counter that follows the horizontal level, with no test acting: updates at the edges are as good as none if and only if no tick elapses before an edge that brings another level than the last |
| FoldExamples.TwoOverflowsAreLost | pcsx2/Counters.cpp:261-344 | a state with NTSC scanlines in which folding fourteen edges and stepping them part |
| FoldExamples.ClosedUnwrapped | pcsx2/Counters.cpp:1186-1195 | a state in which a vertical blank closes an overflowed counter that stepping has wrapped and the fold has not |
| FoldExamples.LevelIsLost | pcsx2/Counters.cpp:275-283 | a state with sync interrupts suppressed in which folding two edges counts a blank that stepping skips |
| WorkSema.InvPreserved | common/Semaphore.cpp:70-190 | every step of notifiers, worker and drainer keeps the word, both semaphores and the bookkeeping of work consistent |
| WorkSema.InvHolds | common/Threading.h:198-238 | the invariant holds in every state of every interleaving |
| WorkSema.NoLostWakeup | common/Semaphore.cpp:70-143 | a worker asleep or committed to sleep with unprocessed notified work has exactly one wake in flight; each kernel semaphore holds at most one token |
| WorkSema.DrainedMeansProcessed | common/Semaphore.cpp:146-178 | WaitForEmpty returns true only if everything notified before the call was processed, or abandoned by a reset |
| WorkSema.DeadIff | common/Semaphore.cpp:180-190 | the word says dead exactly between a Kill and the next Reset |
| WorkSema.WaitResultIff | common/Semaphore.cpp:146-178 | every wait that returns: false if and only if the worker is killed and not reset at the load that decides |
| WorkSema.WaitReturnsTrue | common/Semaphore.cpp:146-178 | a wait called on a live worker that nobody kills meanwhile returns true |
| WorkSema.WordCountsUnseen | common/Threading.h:198-238 | while the worker is awake the word counts, in twos, the notifications it has not taken note of |
| WorkSema.AskingForWorkIff | common/Semaphore.cpp:70-143 | a worker that asks gets work at once if and only if it was notified since it last took note; otherwise it sleeps, spins or comes back empty-handed, and a waiting drainer is owed its token |
| WorkSema.BlockedIff | common/Semaphore.cpp:70-178 | the worker is stuck exactly when dead or asleep without a token, the drainer exactly while its token is missing |
| WorkSema.WaitWithoutResetMeansProcessed | common/Semaphore.cpp:146-178 | if no Reset falls into a wait, a true result means that everything notified before its call was processed, or had been abandoned before |
| WorkSema.WaitMeansProcessedIff | common/Semaphore.cpp:146-190 | for every wait that returns true: an item of its snapshot is left unprocessed if and only if a Reset during the wait abandons one |
| WorkSema.ResetRaceReturnsTrue | common/Semaphore.cpp:180-190 | a run in which Kill and Reset make WaitForEmpty return true for unprocessed work |
| WorkSema.DrainerNeverStuck | common/Semaphore.cpp:146-160 | a blocked drainer has its token once the worker sleeps, spins or is dead and no notification has come since |
| WorkSema.AssertionsHold | common/Semaphore.cpp:70-160 | the assertions in the source never fire |
| WorkSema.NotificationBoundIsExact | common/Threading.h:198-238 | one more notification carries into the waiting flag exactly when 2^29 are unacknowledged |
| ProgressEvent.InvPreserved | common/SingleWaiterProgressEvent.h:26-107 | every step of waiter, consumer and stray posters keeps lock ownership, the arm, the claim and the tokens consistent |
| ProgressEvent.InvHolds | common/SingleWaiterProgressEvent.h:26-107 | the invariant holds in every state of every interleaving |
| ProgressEvent.NoLostWakeup | common/SingleWaiterProgressEvent.h:74-80 | after the last publication and PublishQuiescence, a sleeper with an outdated observation is claimed and has a token |
| ProgressEvent.ArmAssertionHolds | common/SingleWaiterProgressEvent.h:26-66 | the arm-time assertion never fails |
| ProgressEvent.TokensNeverCarryOver | common/SingleWaiterProgressEvent.h:44-66 | outside a wait every token is a stray posted since, and a claim adds at most one |
| ProgressEvent.NotifySeesSleeper | common/SingleWaiterProgressEvent.h:68-72 | a notification issued while a waiter sleeps unclaimed is not skipped |
| ProgressEvent.NotifyTakesLockIff | common/SingleWaiterProgressEvent.h:68-72 | a notification goes on to the lock if and only if there is an advertised, unclaimed arm |
| ProgressEvent.BlockedIff | common/SingleWaiterProgressEvent.h:26-107 | what waiter and consumer can be stuck on: the lock held by the other, or a missing token |
| ProgressEvent.NotifySufficesIff | common/SingleWaiterProgressEvent.h:68-72 | after a notification, a sleeper with an outdated observation is claimed, with its token, if and only if no load of the hint since the publication fell between its protected read and its hint store, or a later claim made good for it |
| ProgressEvent.NextNotifyHeals | common/SingleWaiterProgressEvent.h:68-107 | the next notification sees a sleeper that was missed, and its claim ends the miss |
| ProgressEvent.ClaimedWaiterReturns | common/SingleWaiterProgressEvent.h:26-66 | a claimed waiter can always move and every move brings it closer to returning |
| ProgressEvent.NotifyAloneLosesWakeup | common/SingleWaiterProgressEvent.h:68-72 | a run in which a missed notification leaves a waiter asleep on an old value with no token |
| UserspaceSemaphore.InvPreserved | common/Threading.h:261-289 | posting, waiting and trying keep the balance of sleepers, posts in flight and tokens |
| UserspaceSemaphore.WakesBalanceSleepers | common/Threading.h:261-289 | max(0, -counter) plus kernel posts in flight plus tokens is the number of blocked threads, in every run |
| UserspaceSemaphore.RefinesCountingSemaphore | common/Threading.h:261-289 | it is a counting semaphore: completed waits never exceed posts |
| UserspaceSemaphore.NoWaiterStaysBlocked | common/Semaphore.cpp:221-242 | with a non-negative counter and no wake in flight every blocked thread can take a token |
| UserspaceSemaphore.TakesAtOnceIff | common/Threading.h:261-289 | Wait does not block, and TryWait succeeds, if and only if a resource is free that is not on its way to a blocked thread |
| UserspaceSemaphore.PostWakesIff | common/Threading.h:261-289 | a post goes to the kernel if and only if some blocked thread is not yet owed a token |
| UserspaceSemaphore.BlockedIff | common/Semaphore.cpp:221-242 | the only thread that cannot go on is one blocked without a kernel token |
| SpscRing.InvPreserved | common/boost_spsc_queue.hpp:92-176 | every atomic step of producer and consumer keeps indices and slots in step with the histories |
| SpscRing.FirstInFirstOut | common/boost_spsc_queue.hpp:105-160 | in every interleaving the popped items are a prefix of the pushed ones, at most size - 1 behind |
| SpscRing.StepRefinesFifo | common/boost_spsc_queue.hpp:105-160 | each index store is one operation of a bounded FIFO, every other step is invisible, and push, pop and front fail exactly at full and empty |
| SpscRing.SlotLifetimes | common/boost_spsc_queue.hpp:105-160 | construction only into empty slots, destruction and copying only from constructed ones |
| SpscRing.NoSlotRace | common/boost_spsc_queue.hpp:105-160 | producer and consumer never work on the same slot |
| SpscRing.FullAndEmpty | common/boost_spsc_queue.hpp:92-133 | the index tests hold exactly when size - 1 items or none are queued |
| SpscRing.NeverBlocked | common/boost_spsc_queue.hpp:105-160 | each side always has a step of its own |
| SpscRing.FrontIsHead | common/boost_spsc_queue.hpp:142-160 | front() hands out the head of the queue, which is the item popped next |
| SpscRing.SizeCounts | common/boost_spsc_queue.hpp:208-217 | size() is the number of queued items in both of its branches |
| SpscRing.SizeIsExactForItsCaller | common/boost_spsc_queue.hpp:208-217 | with its two loads apart, size() is the number of items at the load of the other side's index, for producer and consumer alike |
| RingWait.InvPreserved | common/boost_spsc_queue.hpp:105-133 | ring and progress event stay consistent when composed as the mailbox does, the pending check and the position load apart, and fewer than size pops follow a snapshot |
| RingWait.PositionDetectsPops | common/boost_spsc_queue.hpp:219-226 | although the index wraps, a waiting producer sees its own position exactly when nothing was popped since |
| RingWait.BlockedProducerIsWoken | common/SingleWaiterProgressEvent.h:26-80 | after at least one pop and quiescence the waiting producer has its token |
| RingWait.SleepsOnEmptyRingIff | pcsx2/vita/VitaGsMailbox.cpp:9755-9766 | after quiescence a sleeper that is not claimed has seen no pop since its position load, and its ring is empty if and only if it was empty then |
| RingWait.WaitsIfPending | pcsx2/vita/VitaGsMailbox.cpp:9755-9766 | the producer goes on to wait if and only if its check finds an item queued |
| RingWait.DrainBeforePositionLosesWakeup | pcsx2/vita/VitaGsMailbox.cpp:9755-9766 | a run in which the ring is drained between the check and the position load and the producer sleeps for good |
| DataCache.WriteBackKeepsView | pcsx2/Cache.cpp:113-124 | writing a line back keeps the invariant and the coherent view |
| DataCache.FillKeepsView | pcsx2/Cache.cpp:259-280 | replacing a line, with write-back first, keeps the invariant and the view |
| DataCache.PrepareIsTransparent | pcsx2/Cache.cpp:285-295 | preparing an access keeps the view and makes the chosen line hold the view of its block |
| DataCache.FillSparesLatest | pcsx2/Cache.cpp:259-280 | a fill never evicts the line most recently filled in its set: the ways take turns, way 0 first |
| DataCache.LandsOnPageIff | pcsx2/Cache.cpp:242-257 | an access lands on a line of its own page if and only if it is not a hit on a locked line whose other way is free |
| DataCache.WriteChangesOwnBytes | pcsx2/Cache.cpp:297-305 | a write changes the view at its own bytes and nowhere else |
| DataCache.InvalidateRevertsOneLine | pcsx2/Cache.cpp:402-428 | invalidation reverts the view of exactly one block to memory |
| DataCache.WriteBackInvalidateKeepsView | pcsx2/Cache.cpp:408-413 | writing back before invalidating keeps the view |
| DataCache.ResetHasInv | pcsx2/Cache.cpp:176-179 | the reset cache satisfies the invariant |
| CacheRuns.WriteBackAllMakesMemoryCurrent | pcsx2/Cache.cpp:202-211 | writebackCache makes memory equal to the view on every existing page |
| CacheRuns.QuietOpKeepsView | pcsx2/Cache.cpp:398-501 | no read and no write-back operation changes the view |
| CacheRuns.MemoryAfterWriteBack | pcsx2/Cache.cpp:398-501 | memory after a write-back operation: what was seen at the existing addresses it is about, and what it held everywhere else |
| CacheRuns.LinesAfterWriteBack | pcsx2/Cache.cpp:398-501 | every line after it: the selected ones gone or clean, the others as they were |
| CacheRuns.CopyAfterWriteBack | pcsx2/Cache.cpp:398-501 | the addressed block after it: in no way after DHWBIN and DXWBIN, still there and clean after DHWOIN and DXLTG |
| CacheRuns.ReadRefinesFlat | pcsx2/Cache.cpp:336-345 | a read returns the bytes at its aligned addresses |
| CacheRuns.WriteChangesSeen | pcsx2/Cache.cpp:297-305 | a write changes exactly the bytes at its aligned addresses, as far as they exist |
| CacheRuns.OpRefinesFlat | pcsx2/Cache.cpp:285-376 | one operation of any width agrees with a memory that has one byte at each address, reads and writes aligned to their width; memory that does not exist is not written |
| CacheRuns.RunRefinesFlat | pcsx2/Cache.cpp:285-376 | every run agrees with that memory at every point and keeps the invariant: one matching way per page, clean lines equal memory |
| CacheRuns.ReadAfterRun | pcsx2/Cache.cpp:336-345 | after any run from reset a read returns the bytes that this memory holds at its addresses |
| CacheRuns.AnyRunEffect | pcsx2/Cache.cpp:398-428 | in every run that also invalidates, the invariant holds throughout; an invalidation reverts the bytes it is about to memory, a write changes the bytes at its addresses, and no other byte is seen differently |
| CacheRuns.NonexistentPagesAreNeverRead | pcsx2/Cache.cpp:126-143 | what memory holds on pages that do not exist has no effect on the cache, on existing memory or on any read, in any run |
| CacheRuns.LockedHitReadsOtherWay | pcsx2/Cache.cpp:242-257 | a read that hits a locked line whose other way is free returns the bytes of the other way and loads nothing |
| CacheRuns.LockedHitReturnsAnotherPage | pcsx2/Cache.cpp:242-257 | a concrete state in which a read returns the byte of another page |
| CacheRuns.LockedLineStays | pcsx2/Cache.cpp:226-283 | in every run of reads and writes, from any state, a line locked beside a free one stays as it is |
| CacheRuns.AccessKeepsLocks | pcsx2/Cache.cpp:226-283 | no access locks or unlocks a line |
| CacheRuns.BothLockedMiss | pcsx2/Cache.cpp:259-280 | with both lines locked a miss replaces the one an unlocked set would spare |
| DataCacheUnit.Cache.WriteBackIfNeeded | pcsx2/Cache.cpp:113-124 | the in-place write-back is the one of the specification |
| DataCacheUnit.Cache.WriteBackCache | pcsx2/Cache.cpp:202-211 | the two nested loops keep the view and make memory current on every existing page |
| DataCacheUnit.Cache.GetFreeCache | pcsx2/Cache.cpp:226-283 | finds or fills a line in place as the specification does and returns the chosen way |
| DataCacheUnit.Cache.ReadCache | pcsx2/Cache.cpp:336-345 | returns the bytes seen at the addresses of the access, and changes none |
| DataCacheUnit.Cache.WriteCache | pcsx2/Cache.cpp:297-305 | changes the bytes seen at the addresses of the access, as far as they exist, and no other |
| DataCacheUnit.Cache.FindInCache | pcsx2/Cache.cpp:213-224 | returns a way that matches, or a miss when neither does |
| DataCacheUnit.Cache.ExecuteWriteBackOp | pcsx2/Cache.cpp:398-501 | DHWBIN, DHWOIN, DXWBIN and DXLTG keep the view, and memory receives what was seen at the addresses they are about and keeps the rest; DXLTG returns the flags it leaves, bit by bit |
| DataCacheUnit.Cache.HitInvalidate | pcsx2/Cache.cpp:402-406 | DHIN reverts the bytes of the 64-byte block of its address to memory and leaves every other byte and memory itself alone |
| Md5Stream.Md5Digest.Reset | common/MD5Digest.cpp:113-124 | from any state, the empty message |
| Md5Stream.Md5Digest.AddBits | common/MD5Digest.cpp:133-136 | the two words with their carry are the bit count modulo 2^64 |
| Md5Stream.Md5Digest.Update | common/MD5Digest.cpp:126-170 | the state is the fold of the block function over the full blocks of the whole message so far, plus its tail and bit count |
| Md5Stream.Md5Digest.AbsorbFrom | common/MD5Digest.cpp:138-169 | leading chunk, whole blocks and rest leave the fold over the longer message |
| Md5Stream.Md5Digest.Final | common/MD5Digest.cpp:172-210 | padding in place gives the one-shot digest of the padded message, through one or two blocks |
| Md5Stream.CarryIsExact | common/MD5Digest.cpp:133-136 | the carry test and the high-word addition compute the 64-bit sum |
| Md5Stream.PaddingFillsBlocks | common/MD5Digest.cpp:180-203 | padding always ends on a block boundary |
| Md5Stream.PaddingIsInjective | common/MD5Digest.cpp:172-203 | no two messages are padded to the same bytes |
| Md5Stream.HashPieces | pcsx2/CDVD/IsoHasher.cpp:165-185 | hashing piece by piece gives the digest of the concatenation, for every way of cutting it |
| Md5Stream.Md5OfPieces | common/MD5Digest.cpp:113-210 | with the four initial words, the sixteen output bytes are those of the digest of the concatenation |
| Md5Stream.OutputIsInjective | common/MD5Digest.cpp:209-209 | the output bytes determine the chaining words |
| Md5Stream.InitialBytes | common/MD5Digest.cpp:113-124 | the initial words are the sixteen bytes of section 3.3 of RFC 1321 |
| Wildcards.WildcardMatch | common/StringUtil.cpp:56-101 | the matcher that backtracks only to the latest star returns true exactly when the recursive relation holds, and terminates |
| Wildcards.StarlessIff | common/StringUtil.cpp:56-101 | without stars: the same length, and a question mark or an equal character at every position |
| Wildcards.StarIff | common/StringUtil.cpp:56-101 | a star at the front stands for any beginning of the text |
| Wildcards.MatchHead | common/StringUtil.cpp:61-68 | the scan before the first star fails only on texts that do not match, and otherwise leaves an equivalent question |
| Wildcards.NextStar | common/StringUtil.cpp:72-79 | reaching a further star makes the choice for the earlier one final |
| Wildcards.Backtrack | common/StringUtil.cpp:87-91 | a mismatch rules out this position of the latest star and no other |
| Wildcards.Match | common/StringUtil.cpp:54-147 | asking for a case-sensitive match compares with case folded, and the other way round |
| Utf8.Decode | common/StringUtil.cpp:394-432 | always moves on, never past the end, and never beyond 0x13FFFF |
| Utf8.InvalidIff | common/StringUtil.cpp:394-432 | nothing is decoded if and only if the first byte cannot come first or asks for more bytes than there are; then one byte is skipped |
| Utf8.HighBitsIgnored | common/StringUtil.cpp:394-432 | the two high bits of the bytes after the first have no effect |
| Utf8.DecodeOne | common/StringUtil.cpp:362-392 | decoding undoes encoding of any code point, with the length, whatever follows |
| Utf8.RoundTripIff | common/StringUtil.cpp:362-432 | a text survives encoding and decoding if and only if all its values are at most 0x10FFFF |
| Utf8.DecodeEncoded | common/StringUtil.cpp:362-432 | every value above 0x10FFFF comes back as U+FFFD, the others as themselves |
| Utf8.EncodeOneIff | common/StringUtil.cpp:394-432 | re-encoding a decoded sequence gives it back if and only if it is well-formed |
| Utf8.ReencodeIff | common/StringUtil.cpp:394-432 | re-encoding a decoded text gives it back if and only if it is well-formed throughout (section 4 of RFC 3629, surrogates admitted) |
| Utf8.EncodedIsWellFormed | common/StringUtil.cpp:362-392 | whatever is encoded is well-formed |
| FileNames.SanitizeFileName | common/FileSystem.cpp:147-168 | the loop returns the decoded name with forbidden characters replaced, encoded |
| FileNames.CharacterByCharacter | common/FileSystem.cpp:147-168 | character by character: an asterisk, and a slash if asked, becomes an underscore, what was not decoded U+FFFD, and the rest stays |
| FileNames.OutputIsPermitted | common/FileSystem.cpp:147-168 | the result is well-formed and decodes only to permitted characters |
| FileNames.ForbiddenBytesAreGone | common/FileSystem.cpp:74-102 | no forbidden byte is left in the result, even if it was spelled as an overlong sequence |
| FileNames.UnchangedIff | common/FileSystem.cpp:147-168 | a name is returned unchanged if and only if it is well-formed and has no forbidden byte |
| FileNames.SanitizeIsIdempotent | common/FileSystem.cpp:147-168 | sanitizing twice is sanitizing once |
| Paths.SplitNativePath | common/FileSystem.cpp:791-823 | the scan computes the components |
| Paths.JoinNativePath | common/StringUtil.h:225-236 | the loop joins with one separator between components |
| Paths.SplitJoinIff | common/FileSystem.cpp:791-828 | splitting undoes joining if and only if the list is normal and not the lone root |
| Paths.JoinSplitIff | common/FileSystem.cpp:791-828 | joining undoes splitting if and only if the path has no repeated or trailing separator |
| PathAlgebra.PathAppendString | common/FileSystem.cpp:104-145 | the flag loop collapses repeated separators across the seam |
| PathAlgebra.Combine | common/FileSystem.cpp:869-884 | whatever separators the two paths have, the result joins the components of the one and the other |
| PathAlgebra.AppendToComponents | common/FileSystem.cpp:104-145 | collapsing and trimming text is appending components |
| PathAlgebra.Canonicalize | common/FileSystem.cpp:514-543 | the loop computes the reduced components |
| PathAlgebra.CanonicalIsIdempotent | common/FileSystem.cpp:514-543 | canonicalizing twice is canonicalizing once, for every path |
| PathMeaning.CanonicalKeepsMeaningIff | common/FileSystem.cpp:514-543 | the canonical path denotes the same place from every working directory if and only if no parent step removes the root or a kept parent and the path is not the root |
| PathMeaning.RelativeMeaning | common/FileSystem.cpp:514-543 | for a path without a root: kept from everywhere, or lost from every deep enough directory |
| PathMeaning.RootedMeaning | common/FileSystem.cpp:514-543 | the same for rooted paths, the root itself included |
| PathMeaning.ParentsAreLost | common/FileSystem.cpp:526-533 | concrete paths whose meaning is lost |
| RelativePaths.MakeRelative | common/FileSystem.cpp:550-595 | the loops compute the route up to the shared components and down again, or the path itself |
| RelativePaths.AbsoluteIff | common/FileSystem.cpp:282-297 | a path is absolute if and only if it begins with a slash, or has a colon after its first character and before any slash |
| RelativePaths.RelativeLeadsBack | common/FileSystem.cpp:550-595 | combined with its base and canonicalized, the relative path gives the canonical path, for absolute paths sharing the first component and a base without dots |
| RelativePaths.RecoveredIff | common/FileSystem.cpp:550-595 | a canonical absolute path is recovered if and only if it shares its first component with the base |
| RelativePaths.CanonicalAbsoluteIsDotFree | common/FileSystem.cpp:282-297 | an absolute canonical path has no dot components, so it is a base for which the above holds |
| LruCache.Lru.Lookup | common/LRUCache.h:43-52 | a hit returns the value and does to the cache what a use does in RunIsInOrderOfUse, a miss changes nothing |
| LruCache.Lru.OldestKey | common/LRUCache.h:79-81 | the least access time in the map |
| LruCache.Lru.Evict | common/LRUCache.h:75-85 | drops exactly the given number of entries, those used longest ago |
| LruCache.Lru.ShrinkForNewItem | common/LRUCache.h:110-116 | makes room for one entry; at capacity zero the unsigned expression empties the cache |
| LruCache.Lru.Insert | common/LRUCache.h:54-73 | shrinks first, even for a key that is present, then puts the entry at the recent end; and when this is what the textbook cache does |
| LruCache.Lru.Remove | common/LRUCache.h:87-95 | takes out one entry and keeps the order of the others |
| LruCache.Lru.SetMaxCapacity | common/LRUCache.h:36-41 | drops the oldest entries beyond the new capacity |
| LruCache.ListIsUnique | common/LRUCache.h:12-16 | the access times determine the recency list |
| LruCache.RunIsInOrderOfUse | common/LRUCache.h:36-116 | in every run from the empty cache the entries are in the order in which their keys were last put in or found, with the values last put in |
| LruCache.KeysAfter | common/LRUCache.h:36-116 | which keys each operation leaves: the evicted ones are those used longest ago |
| LruCache.AccessTimesIncrease | common/LRUCache.h:75-85 | access times are distinct and increase along the list, so every evicted entry is older than every survivor |
| LruCache.ApplyFitsIff | common/LRUCache.h:54-73 | an operation leaves the size within the capacity if and only if it is not an insertion at capacity zero |
| LruCache.RunFits | common/LRUCache.h:36-116 | so does every run that never inserts at capacity zero |
| LruCache.InsertIsTextbookIff | common/LRUCache.h:54-73 | insertion into a cache within its capacity is that of the textbook cache if and only if the cache is not full, the key is new, or the key is the oldest |
| Bmp.RowSizesAgree | common/Image.cpp:824-824 | the three row-size formulas agree |
| Bmp.BmpBufferSaver | common/Image.cpp:1288-1346 | fails exactly on empty images; otherwise the file holds the headers and the rows from the bottom up, zero-padded |
| Bmp.WriteRow | common/Image.cpp:1336-1342 | the inner loop writes blue, green and red of each pixel and nothing outside the row |
| BmpLoad.BmpBufferLoader | common/Image.cpp:1099-1277 | decides by the headers and returns the pixels of each row, flipped as the sign of the height says |
| BmpLoad.LoadRows | common/Image.cpp:822-918 | every row of the picture holds the pixels of its row of the file |
| BmpLoad.ParseSaved | common/Image.cpp:1122-1160 | the reader accepts a written file exactly when both sizes are under 65536 |
| BmpLoad.HeaderRest | common/Image.cpp:1288-1346 | the fields the reader does not look at: file size, second header, planes, pixel size, zeros |
| BmpLoad.SavedSizes | common/Image.cpp:1288-1346 | a written file names its own length and that of its rows, which reach from the offset it names to its end |
| BmpLoad.AcceptsIff | common/Image.cpp:1099-1160 | which 24-bit files are read: signature, sizes of 1 to 65535 with either sign, and rows that fit; the flip is the sign of the height |
| BmpLoad.SaveAndLoad | common/Image.cpp:1099-1346 | writing and reading back gives the same size and pixels with alpha forced to 0xFF, for exactly the sizes under 65536 |

## Left out

- Weak memory orderings, real kernel objects, spin timing and the Vita trace counters around them.
- Wrap-around of the 64-bit cycle and access counters, and of the 32-bit counter of the userspace semaphore.
- Deadlines.DeadlineExactIff: states the ranges in which the 32-bit differences do not wrap; outside them the source compares wrapped values.
- The hold registers, floating-point video timing, and what the vertical sync handler does outside the EE timers: the IOP callbacks, the CSR field and VSINT bits after it, frame pacing and input.
- EeTimerUnit.Timers.NarrowFor: does not hand the narrowed deadline to the event scheduler, which is not modelled.
- EeTimerUnit.Timers.SetNextCounterEvent: does not hand the deadline to the event scheduler either.
- VerticalUpdates.FoldBeforeDeadlineIff: is about states with no watched counter past its target; FoldedUpdates.FoldPostponesIff decides those for the first edge. A counter whose level changes under it without a gate action is taken to reach no threshold.
- VerticalUpdates.FoldThenUpdateIff: takes the folded edges to be before the vertical edge, as the caller's horizon makes them.
- FoldedUpdates.VerticalGateIff: is about the gate alone; FoldedUpdates.VerticalUpdateIff adds the sync and the tests.
- SpscRing.SizeCounts: reads both indices in one step; SpscRing.SizeIsExactForItsCaller takes the two loads apart.
- PathMeaning.CanonicalKeepsMeaningIff: takes a Vita device name for an ordinary directory name, as the code does.
- PathMeaning.RelativeMeaning: counts device paths as relative, for the same reason.
- WorkSema.DrainerNeverStuck: says nothing of a worker that has been notified and not yet woken, whose drainer is released when the worker is idle again.
- IopDeadline.DeadlineIsExact: states the ranges in which the differences do not wrap; IopCounters.PublishedIff is about all deadlines.
- IopGates.BlankStart: is about clocks whose rate is a power of two; IopGates.PixelClockRunsFast shows what the pixel clock of rate 3 does.
- IopGates.BlankEnd: likewise.
- IopBlanks.ReturningCounter: is about a target that is ahead of the count and within the limit.
- GateLaws.RisingEdge: takes the edge to be handled on its cycle and the counter to be below its target; UpdateEvents.UpdateIsEvent and TimerRegisters.EventPassesIff are about the rest.
- GateLaws.FallingEdge: likewise.
- The IOP counters that no horizontal blank reaches (2, 4 and 5), the guest's accesses to IOP counters, and the SPU2-only counter update.
- The EE event scheduler and the IOP deadline cache behind the published IOP deadline.
- Cache operations that write tags or data directly (DXSTG, DXSDT), the read of cache data into TagLo (DXLDT), and runs with locked lines: they break agreement with memory on purpose.
- CacheRuns.RunRefinesFlat: is about runs without locked lines; what a locked hit does is stated by DataCache.LandsOnPageIff.
- The MD5 block function (common/MD5Digest.cpp:25-106): a parameter of the streaming model, so every result holds for it.
- Md5Stream.Md5Digest.Reset: takes the initial chaining value as a parameter; Md5Stream.Md5OfPieces puts in the four words of the source.
- Md5Stream.Md5Digest.Final: returns the chaining value; Md5Stream.Md5OfPieces returns the sixteen bytes.
- The overload of SanitizeFileName that works in place, and the Windows and macOS branches of the path and file name code.
- RelativePaths.RelativeLeadsBack: asks for a base without dot components, which every canonical absolute base is; device names are ordinary first components.
- BmpLoad.BmpBufferLoader: stops at files of other depths and compressions, and at files for which the reader's 32-bit size computation wraps.
- Bmp.BmpBufferSaver: asks for a file size below 2^32, as the writer's unsigned arithmetic does.
- The manual-evict switch and Clear of the LRU cache, which add no ordering.
- Everything else of the emulator: recompilers, graphics, audio, input, networking, settings and file formats.
