# A verified model of the robflex scheduler's core

robflex (robonix) schedules robot workloads from user space. Each thread takes a signal every so many
cycles; the handler picks a context from a table of event contexts, charges it and makes the thread wait
according to its policy. A daemon publishes the system load and event bits in shared memory, and the
xsched patch gates GPU queues by priority through a futex.

This project models the parts of that system with the most state and proves what they promise:

- `Probe`, `RoundUp`, `Bits`, `TableModel`, `TableState`, `KHash`, `KHashRuns`: the khash open-addressing table,
  with its triangular probe, its flags packed two bits to a bucket, its in-place rehash and its load bound, as a
  class over arrays that refines a finite map.
- `Context`, `EventNames`, `EventBits`, `EventTable`, `EventApi`, `EventTies`, `Tick`, `EventRuns`: the event
  names and bits, the two builds of the event table, the calls on them, the tick, and runs of all of these.
- `CriticalSection`: the API calls that defer the tick signal, with a signal possible between any two steps,
  against runs in which each section is one atomic step.
- `Switching`, `Pipelines`: what follows for runs of those calls that move contexts about, and for chains of
  latency rounds.
- `Throttle`, `Handlers`: the tick handlers in C arithmetic, and what whole runs of them guarantee.
- `HpfGate`, `HpfShm`: the shared-memory gate as a transition system over single loads and stores, and the
  server's slot table and policy.
- `Monitor`: the load smoothing and the idle waker.

`dafny verify dfyconfig.toml` checks everything.

Code that updates arrays, fields or loop variables is modelled by classes and methods, each tied by its
contract to a function, relation or finite map about which the lemmas then speak. Allocation results, clock
readings, lengths of waits, the load, and the signals that arrive at each point are parameters, so every
theorem holds for all of them.

## Where the code differs from what it means

- At line 157 of `src/dym_hook.c` the maximum with zero is taken on unsigned values and never has an effect
  (`Throttle.IdleBudgetIsMaximum`).
- At line 183 a positive latency bias makes the target 0 instead of later (`Throttle.BiasedTargetIsShifted`).
- At line 197 a tick after the deadline asks for an enormous wait instead of none
  (`Throttle.PeriodIsShare`, `Throttle.LateTickOversleeps`).
- The gate's client loads the minimum and the futex word separately; an update between the two loads can be
  slept through (`HpfGate.LostWakeupFromStart`, and `HpfGate.NoOtherLostWakeup` for the converse).
- A comment in the patch says that nothing can run before the first update of a device; the initial
  minimum, one below PRIORITY_MIN, lets everything run (`HpfGate.UnpublishedSlotIsOpen`,
  `HpfGate.RunsBeforeFirstUpdate`).
- A client that searches while its device is being added can run below the minimum that is then published
  (`HpfGate.SkippedFromStart`; `HpfGate.GateSafety` shows that nothing else lets it).
- A client of device 0 can be directed to the slot of another device
  (`HpfGate.DeviceZeroMisdirectedFromStart`; `HpfGate.FoundSlotStaysExactly` says exactly when).
- The commands reject an event index of -1, but an unknown name has index 0 and sets bit 0; no stored
  context has that index, so it changes no selection (`EventRuns.TellUnknown`).
- A khash table of 2^31 buckets at its load bound and half full of keys cannot grow
  (`KHash.Table.MakeRoom`). It goes on taking keys until all its buckets are live; a put of one more key then
  overwrites the value of another, which is the only case in which a put that reports success does not store
  its key (`KHashRuns.PutStoresUnlessOverfull`, `KHashRuns.FillUp`).
- The two builds of the event table break ties between levels differently (`EventTies.TiesDepend`);
  short of a tie and of failed allocations they cannot be told apart (`EventRuns.RunTwins`).
- `n_signal_pendings` is 32 bits wide: 2^32 signals deferred in one section, or a multiple, get no tick
  (`CriticalSection.OnlyFullLapsAreForgotten`).
- The unsigned differences of `read_system_load` give more than 100 percent when a counter such as iowait
  goes back (`Monitor.ReadSystemLoad`, `Monitor.BackwardReadingJumps`).

## Model

| member | source | states |
|---|---|---|
| `Probe.BucketClosedForm` | inc/khash.h:235-238 | The masked 32-bit step `i = (i + ++step) & mask` is `(h + s(s+1)/2) mod n` after s steps, for every power of two n up to 2^32. |
| `Probe.BucketsMeet` | inc/khash.h:235-238 | Two probe steps a <= b meet exactly when 2n divides (b-a)(a+b+1). |
| `Probe.ProbeDistinct` | inc/khash.h:237-240 | The first n steps of a probe inspect n different buckets. |
| `Probe.ProbeCovers` | inc/khash.h:237-240 | Every bucket is inspected by one of the first n steps. |
| `Probe.ProbeReturnsHome` | inc/khash.h:238-239 | Within 2n-1 increments the probe is back at its first bucket at the last one and not before, so `i == last` means that every bucket was inspected. |
| `RoundUp.FillDownIsOnes` | inc/khash.h:176 | The five or-and-shift lines of `kroundup32` fill in every bit below the highest one. |
| `RoundUp.KRoundUp32Correct` | inc/khash.h:176 | `kroundup32` is the least power of two that is not below x, and 0 exactly for 0 and for x above 2^31. |
| `RoundUp.SizeForCorrect` | inc/khash.h:249-250 | The size `kh_resize` settles on: the least power of two not below a request between 4 and 2^31, otherwise 4. |
| `RoundUp.RequestBelow` | inc/khash.h:311-314 | A request of n-1 keeps a table of n buckets at its size. |
| `RoundUp.RequestAbove` | inc/khash.h:315-317 | A request of n+1 doubles it, except that at 2^31 buckets it wraps round to 4. |
| `Bits.ReadersAgree` | inc/khash.h:165-167 | The three read macros report the lane of the bucket and nothing of its neighbours, for every word and every lane. |
| `Bits.MarkAllEmpty` | inc/khash.h:255 | Filling the words with 0xaa makes every lane read "empty". |
| `Bits.FlagWordsSuffice` | inc/khash.h:173 | `__ac_fsize` words hold a lane for each of m buckets, m a power of two. |
| `Bits.SetIsDelTrue` | inc/khash.h:171 | Turns a live lane into a deleted one and changes no other lane. |
| `Bits.SetIsEmptyFalse` | inc/khash.h:169 | Turns an empty lane into a live one and changes no other lane. |
| `Bits.SetIsBothFalse` | inc/khash.h:170 | Makes a lane live whatever it was and changes no other lane. |
| `TableModel.ProbeMeetsEmpty` | inc/khash.h:281 | A probe of a table that is not full meets an empty bucket within n steps, from every hash. |
| `TableModel.ResizeLeavesRoom` | inc/khash.h:310-318 | Both sizes `kh_put` asks for have their load bound above the number of keys. |
| `TableModel.UpperBoundIsNearest` | inc/khash.h:303 | The load bound is 0.77 of the buckets, rounded to the nearest number. |
| `TableModel.NotMissed` | inc/khash.h:237-241 | A search that ran into an empty bucket, or through all of them, has not missed the key. |
| `TableModel.SlotIsFree` | inc/khash.h:320-335 | The slot chosen for a new key is free and on its probe path before any empty bucket. |
| `TableModel.ClaimKeeps` | inc/khash.h:336-345 | Writing a new key there keeps the directory exact, every key reachable, and counts one key and at most one taken bucket more. |
| `TableModel.DeleteKeeps` | inc/khash.h:349-355 | A tombstone keeps every other key reachable, removes exactly one key and changes no taken bucket. |
| `TableModel.RehashStart` | inc/khash.h:268-269 | A table and an all-empty new layout satisfy the rehash invariant: the old layout spells out the whole map. |
| `TableModel.RehashPick` | inc/khash.h:270-276 | Marking an old live bucket deleted moves its pair from the old layout into hand and loses none. |
| `TableModel.RehashRound` | inc/khash.h:277-292 | One round of the kick-out loop keeps the rehash invariant (old-live, new and in-hand pairs are disjoint and together the original map; every placed key is reachable; no bucket is live in both layouts), and a kick takes one bucket out of the old layout. |
| `TableModel.RehashHasRoom` | inc/khash.h:281 | During the rehash the new layout has an empty bucket for every probe. |
| `TableModel.RehashEnd` | inc/khash.h:294-303 | When no old bucket is live, the new layout alone spells out the map, with as many taken as live buckets. |
| `KHash.RequestRounds` | inc/khash.h:310-318 | The size `kh_put` asks for, with its 32-bit wraparound, comes out of the rounding with room for all keys exactly unless the table has 2^31 buckets and is half full. |
| `KHash.RebuildPaysOff` | inc/khash.h:310-318 | A rebuild never shrinks the table, doubles it only when it then has at most 4 buckets for a key, and leaves room for new keys in a quarter of its buckets. |
| `TableState.StandsClaim` | inc/khash.h:336-345 | Writing an absent key to a free bucket on its probe path makes the arrays stand for the map with that key, for every layout of flags. |
| `TableState.StandsDelete` | inc/khash.h:349-355 | A tombstone makes them stand for the map without the key. |
| `TableState.MovesRound` | inc/khash.h:277-292 | One round of the kick-out loop, on arrays and layouts, keeps every pair of the map in exactly one of the old layout, the new one and the hand, and a kick shrinks the old layout. |
| `KHash.Realloc` | inc/khash.h:257-263 | A grown or shrunk array keeps the common prefix. |
| `KHash.Table.constructor` | inc/khash.h:212-214 | An empty table stands for the empty map. |
| `KHash.Table.Clear` | inc/khash.h:223-229 | Leaves the empty map and the bucket count. |
| `KHash.Table.Get` | inc/khash.h:230-243 | Returns the bucket of the key if the map has it and `n_buckets` otherwise. |
| `KHash.Table.FindEmpty` | inc/khash.h:278-281 | The unguarded probe ends, at an empty bucket reachable for the hash. |
| `KHash.Table.KickOut` | inc/khash.h:277-292 | The kick-out loop ends with nothing in hand and the rehash invariant kept. |
| `KHash.Table.KickStep` | inc/khash.h:277-292 | A round that does not leave the loop has one key fewer in the old layout. |
| `KHash.Table.KickWrites` | inc/khash.h:282-291 | The swap: the pair in hand goes to bucket i, the pair it held comes into hand exactly when i was live in the old flags. |
| `KHash.Table.Rehash` | inc/khash.h:269-294 | Moves every live bucket into the new layout in place, conserving the map. |
| `KHash.Table.Expand` | inc/khash.h:256-265 | Grows both arrays or fails; a failed allocation leaves the map, also when the keys have already been replaced. |
| `KHash.Table.Adopt` | inc/khash.h:295-303 | The new layout takes over: same map, `n_occupied == size`, arrays trimmed when shrinking. |
| `KHash.Table.Resize` | inc/khash.h:244-306 | For every request: the map and the size are unchanged; -1 only after a failed allocation; the table is left alone when the rounded size is too small and has exactly that size otherwise. |
| `KHash.Table.MakeRoom` | inc/khash.h:310-318 | Unless an allocation failed the load is afterwards below its bound if and only if the table was below it, or more than half of its buckets hold no key, or it has fewer than 2^31; the rebuilt size is stated, and otherwise the layout is unchanged. |
| `KHash.Table.FewKeysLeaveRoom` | inc/khash.h:310-318 | A table of fewer than 2^30 keys can always make room. |
| `KHash.Table.LoadInvariant` | inc/khash.h:303 | In every valid state `n_occupied` is live plus deleted buckets; within the load bound a bucket is empty, so no probe makes a whole lap. |
| `KHash.Table.FindSlot` | inc/khash.h:320-335 | Finds the bucket of a present key, otherwise the last tombstone before the end of the probe, otherwise its end; in a table without empty or deleted buckets an absent key gets its first bucket. |
| `KHash.Table.ProbeFor` | inc/khash.h:324-329 | The probe stops at the key, at an empty bucket, or after a whole lap (line 328), with the last tombstone it passed. |
| `KHash.Table.Claim` | inc/khash.h:336-346 | The result code is 0 for present, 1 for never used and 2 for a tombstone, and the map gains the key exactly when it is not 0. |
| `KHash.Table.Put` | inc/khash.h:307-348 | In every valid state: present, new or failed, with the map, the bucket and the code that go with each; a failed put leaves the map; the bucket is the one the probe rule names. The one exception is a full table of 2^31 keys and an absent key, which gets code 0 and the bucket of another key. |
| `KHash.Table.SetValue` | inc/khash.h:521 | Changes the value of the key in that bucket and nothing else. |
| `KHash.Table.PutValue` | inc/robflex_def.h:217-222 | `kh_put` and the store of the value: the map with the key set, or unchanged after a failed allocation; in that exceptional state the value of the other key is overwritten. |
| `KHash.Table.Delete` | inc/khash.h:349-355 | Removes exactly the key of a live bucket; other buckets and `n_buckets` itself are ignored. |
| `KHashRuns.Replay` | inc/khash.h:212-355 | Every history of put, get, del, clear and resize, of any length and with any allocation failures, answers like a finite map that starts empty, up to the exceptional put. |
| `KHashRuns.ReplayOn` | inc/khash.h:212-355 | The same with the maps of the history; as long as all of them have fewer than 2^30 keys the load stays within its bound. |
| `KHashRuns.PutStoresUnlessOverfull` | inc/khash.h:307-348 | A put that does not fail leaves the map with its key if and only if the map did not hold 2^31 other keys. |
| `KHashRuns.FillUp` | inc/khash.h:307-348 | From an empty table 2^31 puts of different keys are all stored; one more reports 0, is not found afterwards, and has overwritten the value of another key. |
| `EventNames.GetEventIdx` | inc/robflex_event.h:37-50 | The lookup loop returns the index that belongs to the name, 0 for null or unknown names. |
| `EventNames.KnownNames` | inc/robflex_event.h:9-50 | Indices 1 to 8 are exactly the known names, each of its own. |
| `EventBits.MaskTest` | inc/robflex_def.h:91-101 | Testing a word against `1 << bi` reads bit bi. |
| `EventBits.SetWord` | inc/robflex_def.h:70-74 | Or-ing the mask sets that event and changes no other of the 1024. |
| `EventBits.ClearWord` | inc/robflex_def.h:83-87 | And-ing its complement clears that event and changes no other. |
| `EventBits.SystemData.SetEventBit` | inc/robflex_def.h:65-76 | Sets one event; -1 and no change for an index out of range. |
| `EventBits.SystemData.UnsetEventBit` | inc/robflex_def.h:78-89 | Clears one event; -1 and no change for an index out of range. |
| `EventBits.SystemData.TestEventBit` | inc/robflex_def.h:91-101 | Whether the event is set; false out of range. |
| `EventBits.SystemData.TestEvent` | src/robflex_api.c:247-253 | Whether the event is set; false for -1. |
| `EventBits.SystemData.Do` | src/server.c:392-428 | One command: which bit it changes and how, and -1 exactly when a required field is missing. |
| `EventBits.SystemData.Serve` | src/server.c:392-428 | After any history of commands an event is set exactly when its last command was apply, or it had none and was set before. |
| `EventTable.HoldsCounts` | inc/robflex_def.h:164-170 | The number of slots in use is the number of stored events. |
| `EventTable.SelectionsAgree` | src/dym_hook.c:217-251 | All selections agree on the highest level; they agree on the context exactly when no two events above the default share it. |
| `EventTable.UnknownNamesIrrelevant` | src/server.c:403-427 | Bit 0, which unknown names reach, never changes a selection. |
| `EventTable.ArrayTable.constructor` | inc/robflex_def.h:242-253 | Init leaves the empty map. |
| `EventTable.ArrayTable.FindEntry` | inc/robflex_def.h:260-272 | The slot that holds the event, null exactly when none does. |
| `EventTable.ArrayTable.Upsert` | inc/robflex_def.h:274-298 | Succeeds exactly for a positive index that is stored or finds a free slot, and then sets it in the map; a new event takes the first free slot. |
| `EventTable.ArrayTable.Erase` | inc/robflex_def.h:300-312 | Removes a stored event, -1 and no change otherwise; `count` stays the number of stored events. |
| `EventTable.ArrayTable.GetCtx` | inc/robflex_def.h:314-318 | The stored context, null exactly when there is none. |
| `EventTable.ArrayTable.Select` | src/dym_hook.c:217-250 | The scan finds a highest-level active context, the first slot among equals, the default unless exceeded. |
| `EventTable.HashTable.constructor` | inc/robflex_def.h:176-183 | Init leaves the empty map. |
| `EventTable.HashTable.Upsert` | inc/robflex_def.h:212-224 | Sets the event in the map, or fails without change for a non-positive index or a failed allocation. |
| `EventTable.HashTable.Erase` | inc/robflex_def.h:226-237 | Removes a stored event, -1 and no change otherwise. |
| `EventTable.HashTable.GetCtx` | inc/robflex_def.h:200-210 | The stored context, null exactly when there is none. |
| `EventTable.HashTable.Select` | src/dym_hook.c:222-235 | The bucket scan finds a highest-level active context, the first bucket among equals. |
| `EventApi.RoomForKnown` | inc/robflex_def.h:159-170 | A known event that is not stored leaves one of the 8 slots free, so attaching it never fails in the array build. |
| `EventApi.LastCallDecides` | src/robflex_api.c:200-245 | After any history an event is attached exactly when its last call but queries attached it, with the policy, data and level of that call. |
| `EventApi.CallsAnswer` | src/robflex_api.c:200-245 | So a query returns the value of the policy last attached, or -1; a detach succeeds exactly when the event is attached, an attach of a known name always. |
| `EventApi.CallArray` | src/robflex_api.c:200-245 | Attach, detach and get_policy on the array build do and return what the finite map says; attach of a known name always succeeds. |
| `EventApi.CallHash` | src/robflex_api.c:200-245 | The same on the khash build, where only a failed allocation makes an attach fail, without change. |
| `EventApi.RunArray` | src/robflex_api.c:200-245 | Any history of calls from an empty array table returns what the map says and ends in a correct selection. |
| `EventApi.PerformHash` | src/robflex_api.c:200-245 | Any history of calls on an empty khash table returns what the map says. |
| `EventApi.RunBoth` | src/dym_hook.c:217-251 | After any history the two builds have returned the same results and select the same level, and the same context unless two events tie above the default. |
| `EventTies.ArrayTie` | src/dym_hook.c:237-250 | Attaching event 2 and then event 1 at one level through the API makes a tick of the array build run event 2. |
| `EventTies.BucketsForced` | inc/khash.h:320-346 | A khash table of four buckets that holds exactly events 1 and 2 holds each in the bucket of its own index, whatever happened before. |
| `EventTies.HashTie` | src/dym_hook.c:225-234 | The same two calls on the khash build make a tick run event 1. |
| `EventTies.TiesDepend` | src/dym_hook.c:217-251 | So the two builds run different contexts after the same calls. |
| `Tick.ArrayThread.HandleTick` | src/dym_hook.c:217-268 | A tick of the array build selects a highest-level active context, charges exactly that one as its policy says, and leaves the wait, time and average of that policy. |
| `Tick.HashThread.HandleTick` | src/dym_hook.c:217-268 | So does a tick of the khash build. |
| `EventRuns.RunArrayThread` | src/dym_hook.c:217-268 | Every run of calls, commands and ticks on the array build goes through states in which each call and command does what the map and the bits say and each tick what its selection says, up to a tick whose sizes the handlers exclude. |
| `EventRuns.RunHashThread` | src/dym_hook.c:217-268 | So does every run of the khash build. |
| `EventRuns.RunsAgree` | src/dym_hook.c:217-251 | Any two such runs give the same answers and states as long as no tick finds two events that share the highest level. |
| `EventRuns.RunTwins` | src/dym_hook.c:217-251 | So a thread of either build gives the same answers, charges the same contexts and ends in the same state. |
| `EventRuns.TellUnknown` | src/server.c:392-428 | A command with an unknown name leaves every selection from every map as it was. |
| `CriticalSection.Thread.OnSignal` | src/dym_hook.c:274-282 | Inside a section a signal is only counted; outside it runs one tick. |
| `CriticalSection.Thread.Deliver` | src/dym_hook.c:274-282 | Any number of signals at one point: no tick runs inside a section. |
| `CriticalSection.Thread.Leave` | src/robflex_api.c:278-281 | Leaving the section runs exactly one tick for all deferred signals, none when their 32-bit count is 0; the drain body runs at most once and both flags end at 0. |
| `CriticalSection.OnlyFullLapsAreForgotten` | src/dym_hook.c:276-277 | Deferred signals get no tick exactly when their number is a multiple of 2^32. |
| `CriticalSection.Thread.ClearTimeBudget` | src/robflex_api.c:285-293 | Equals its serial run: ticks before, the body as one step, then the ticks after, for signals at every point. |
| `CriticalSection.Thread.SetCyclesForTick` | src/robflex_api.c:266-283 | Equals its serial run; -1 and no change of the context unless the policy is throttled. |
| `CriticalSection.Thread.SetTimeForThrottle` | src/robflex_api.c:295-311 | Equals its serial run; -1 and no change of the context unless the policy is throttled. |
| `CriticalSection.Thread.SetAsImmediate` | src/robflex_api.c:313-316 | A single store, atomic by itself. |
| `CriticalSection.Thread.SetAsLatencyFlick` | src/robflex_api.c:318-331 | Equals its serial run although six fields are written one at a time. |
| `CriticalSection.Thread.AddRuncycle` | src/robflex_api.c:333-341 | Equals its serial run. |
| `CriticalSection.Thread.ShotOnLatency` | src/robflex_api.c:343-383 | The part up to line 364 equals its serial run and yields the measured chain context; ticks may run between the stores of lines 379-381. |
| `CriticalSection.Thread.ChainedFromLatency` | src/robflex_api.c:385-397 | Equals its serial run. |
| `CriticalSection.Thread.SwitchContext` | src/robflex_api.c:399-415 | Equals its serial run; the saved context is the one at entry, with every tick before the section and none after, also when both arguments are the same cell: then an exact swap. |
| `CriticalSection.Thread.Perform` | src/robflex_api.c:266-415 | Any script of the nine calls, switches between any cells included, with signals at arbitrary points, ends and answers as its serial run does, for every tick function. |
| `Switching.ScriptIsActs` | src/robflex_api.c:266-415 | The serial run of a script is a run of single ticks, updates and exchanges. |
| `Switching.ExchangesKeepCharges` | src/robflex_api.c:399-415 | Over any run, with swaps, saves to other cells and switches that save nothing: the value that holds a context has its initial charge plus what ticks and updates added while the thread held that context, for every tick function and every charge. |
| `Switching.PerformKeepingCharges` | src/robflex_api.c:266-415 | The calls of a thread do so, with signals at arbitrary points. |
| `Switching.EveryTickIsCharged` | src/robflex_api.c:399-415 | The ticks charged to the single contexts add up to all the ticks that run. |
| `Switching.GainIsTickWeight` | src/robflex_api.c:266-415 | If every tick adds its weight to the charge of a context, modulo 2^64, the run adds the weight of the ticks that ran while the thread held it and what the calls themselves changed. |
| `Switching.SurvivesExactly` | src/robflex_api.c:399-415 | The latest value of a context survives a run exactly when no switch loses it: by not saving the thread, or by saving it over another context than the one just loaded. |
| `Pipelines.TargetsConserved` | src/robflex_api.c:354-360 | Across a pipeline of any length, whatever ticks interleave, `total_latency` is the sum of the local targets, modulo 2^64. |
| `Pipelines.TimesConserved` | src/robflex_api.c:354-360 | And `used_latency` is the sum of the measured local times. |
| `Pipelines.EndToEndSlack` | src/robflex_api.c:385-391 | When the sums fit 64 bits the end-to-end slack is the sum of the local slacks. |
| `Pipelines.FeedbackIsShare` | src/robflex_api.c:391 | The bias is the given percentage of the slack of the stage before, rounded toward zero; for a positive percentage it is never positive after an overrun and never negative after a stage in time. |
| `Pipelines.HandsOnOwnTimes` | src/robflex_api.c:354-360 | What a pipeline hands on for that is the target and the measured time of its last stage. |
| `Pipelines.ChainOnThread` | src/robflex_api.c:385-397 | After the call, whatever ticks run, the round starts at its clock reading with the totals it was handed and that bias. |
| `Pipelines.FlickOnThread` | src/robflex_api.c:318-331 | After the call, whatever ticks run, the thread is in latency mode with that target, start and expected cycles and empty totals. |
| `Pipelines.ShotOnThread` | src/robflex_api.c:343-383 | After the call, whatever ticks run, the next round starts at the second clock reading with empty totals, and the cycles expected are the mean of those expected and those used, rounded down. |
| `Pipelines.MeanApproaches` | src/robflex_api.c:361 | Each shot halves the distance of the expected cycles to a steady use of them. |
| `Pipelines.StartOnThread` | src/robflex_api.c:318-383 | Flick and shot on a thread, with signals at every point, hand on the start of the chain. |
| `Pipelines.RelayOnThread` | src/robflex_api.c:343-397 | Chained and shot on a thread, with signals at every point, hand on the relay the pipeline lemmas are about. |
| `Throttle.Average` | src/dym_hook.c:101 | The average goes a tenth of the way from the old average to the new sample, rounded down, and lies between them. |
| `Throttle.WaitIsCapped` | src/dym_hook.c:81-86 | A wait is between 0 and a slice, is asked for exactly while the budget with the new slice exceeds the time spent, and, served exactly, uses the budget up or lasts the whole slice. |
| `Throttle.BudgetTelescopes` | src/dym_hook.c:76-103 | Over any run the budget is its start plus n slices less the elapsed time plus what the clamps changed, and stays within five slices of zero. |
| `Throttle.ServedBudgetStaysLow` | src/dym_hook.c:85-100 | If every wait lasts as long as asked, the budget never exceeds zero or its start, and the upper clamp never fires. |
| `Throttle.RateBound` | src/dym_hook.c:76-103 | Then n consecutive ticks take at least n slices plus the (negative) start budget: at least n-5 slices in any run, n from a budget of zero. |
| `Throttle.IdleBudgetIsMaximum` | src/dym_hook.c:157 | The unsigned maximum is always its second operand: it is the intended maximum with zero exactly when that operand is not negative. |
| `Throttle.BiasedTargetIsShifted` | src/dym_hook.c:183 | The unsigned comparison gives the shifted target, not below zero, exactly when the bias is not positive; a positive bias gives 0. |
| `Throttle.PeriodIsShare` | src/dym_hook.c:197 | The unsigned product gives the intended share of the remaining time exactly when the tick is not late, or one cycle is left; otherwise it is at least 2^63 divided by the cycles, less 1 ms. |
| `Throttle.LatencyWaitIsShare` | src/dym_hook.c:176-206 | The wait from both sides, in the fields of the demand and for ticks in time and late: with the time since the last tick and 1 ms it is the share of the time to the deadline that one slice has among the cycles left, rounded down, if that leaves more than 1 ms; otherwise, and without cycles left, 0. |
| `Throttle.WaitEndsBeforeDeadline` | src/dym_hook.c:176-206 | With a bias of at most 0, no more cycles used than usual and a tick in time, the wait ends at least 1 ms before the deadline. |
| `Throttle.FirstTicksMeetDeadline` | src/dym_hook.c:176-206 | So do the first hist/slice + 1 ticks of a round that starts at zero used cycles. |
| `Throttle.LateTickOversleeps` | src/dym_hook.c:195-206 | A late tick with 2 to 10^9 cycles left asks for a wait of more than eight seconds. |
| `Handlers.FlickedRoundIsPaced` | src/dym_hook.c:176-206 | In a round started by robflex_set_as_latency_flick with no cycles used and no bias, every tick in time asks for exactly its share of the time to the flicked deadline, and as long as the slices are not more than the cycles expected the wait ends 1 ms before it. |
| `Handlers.TickHandlers.VSleep` | src/dym_hook.c:76-103 | The step-by-step handler leaves the clamped telescoped budget, asks for what is left of it but for no more than a slice, and updates the statistics. |
| `Handlers.TickHandlers.Yield` | src/dym_hook.c:141-174 | The step-by-step handler leaves the clamped budget, moved by average less slice on an idle system. |
| `Handlers.YieldKeepsBooks` | src/dym_hook.c:141-174 | The yielding handler pays for the whole time since the last tick as the sleeping one does; a positive budget on an idle system is credited with the average less a slice. |
| `Handlers.ThrottledExactly` | src/robflex_api.c:266-311 | The policies these two calls accept are exactly those whose ticks charge the time budget. |
| `Handlers.BooksStartAnew` | src/robflex_api.c:266-311 | After setting the time of a slice or clearing the budget, n ticks leave n slices of that time less the elapsed time, plus what the clamps changed, and take at least n slices when served; nothing else of the context has changed. |
| `Handlers.CallsAddCycles` | src/robflex_api.c:266-397 | To the used cycles add_runcycle adds its argument modulo 2^64, a shot takes all of them away, and no other call changes them. |
| `Handlers.TickHandlers.Latency` | src/dym_hook.c:176-211 | The step-by-step handler asks for the wait the lemmas above bound and adds one slice to the used cycles. |
| `Handlers.TickHandlers.HandleTick` | src/dym_hook.c:253-268 | PREDETERMINED yields, YIELDING sleeps, LATENCY_ORIENTED paces, the rest changes nothing, each with its new context and wait; the chain fields and the level are kept, as the pipeline lemmas assume of a tick. |
| `Handlers.TickHandlers.PacedRun` | src/dym_hook.c:76-103 | A run of the vsleep handler is the run the pacing lemmas are about; no wait exceeds a slice and n waits add up to at most n slices; if every tick waits as long as asked, n ticks take at least n-5 slices, and n from a budget that is not negative. |
| `Handlers.TickHandlers.ThrottledRun` | src/dym_hook.c:253-268 | Runs dispatched under YIELDING ask for those waits; under PREDETERMINED on a system that is not idle they leave the same budgets and ask for none. |
| `Handlers.TickHandlers.LatencyRun` | src/dym_hook.c:253-268 | Runs dispatched under LATENCY_ORIENTED use one slice a tick and ask for the wait of that many slices used. |
| `Handlers.TickHandlers.FreeRun` | src/dym_hook.c:253-268 | Under the other policies a run changes nothing and asks for no wait. |
| `Handlers.TickCountsCycles` | src/dym_hook.c:193 | Under every policy a tick adds its slice to the used cycles exactly in latency mode, modulo 2^64. |
| `Handlers.CyclesAreSlices` | src/dym_hook.c:193 | In a run of the handlers the used cycles of a context grow by the slices of the latency ticks that ran while the thread held it and by what the calls added or reset. |
| `Handlers.LatencyTicksRun` | src/dym_hook.c:176-211 | Any run of latency ticks is such a run. |
| `HpfGate.RunKeepsInv` | script/patches/xsched.patch:719-779 | Every state of every run, any number of clients and updates, keeps the gate invariant. |
| `HpfGate.RunsExactly` | script/patches/xsched.patch:719-779 | No step but its own lets a client run, and that exactly when it has come to the end of the table or its priority is at or above the minimum it loads. |
| `HpfGate.GateSafety` | script/patches/xsched.patch:719-779 | In every run from the empty table a client is let through by the slot of its device, at or above the minimum of that moment, or because no slot has its device, except slots that had no name yet when it went past them. |
| `HpfGate.ReleasedExactly` | script/patches/xsched.patch:756-779 | A sleeper is released exactly by the wake for its slot or a spurious return, and a client does not sleep exactly when the word has changed; both load the minimum again. |
| `HpfGate.AwakeRunsExactly` | script/patches/xsched.patch:772-774 | However long it is delayed, such a client then runs exactly when its priority is at or above the minimum at that moment. |
| `HpfGate.SkippedFromStart` | script/patches/xsched.patch:719-741 | The exception is real: by a schedule that is given a client of any device but 0 runs although the slot of its device gates above its priority. |
| `HpfGate.SleepersAwaitNextUpdate` | script/patches/xsched.patch:756-779 | Between updates every sleeper expects the current futex word and parked after the last completed update. |
| `HpfGate.NoOtherLostWakeup` | script/patches/xsched.patch:767-779 | Between updates, a sleeper whose priority has reached the published minimum had an update between its two loads, or the futex word has run through all 2^32 values. |
| `HpfGate.StaleExactly` | script/patches/xsched.patch:773-777 | A sleeper is out of date if and only if an update fell between its two loads (the word not having wrapped). |
| `HpfGate.LostWakeup` | script/patches/xsched.patch:773-777 | Such an update does leave a client asleep whose priority has reached the minimum, from every state with a client between its loads. |
| `HpfGate.LostWakeupFromStart` | script/patches/xsched.patch:719-779 | And from an empty table, for a client of any device, by a schedule that is given. |
| `HpfGate.FoundSlotStays` | script/patches/xsched.patch:719-741 | A slot that is not between its count and its name keeps its device for the rest of the run, device 0 included. |
| `HpfGate.FoundSlotStaysExactly` | script/patches/xsched.patch:719-741 | A client that finds its device in a slot waits on a slot of its device in every run from then on if and only if the server is not about to give that slot another id. |
| `HpfGate.DeviceZeroMisdirected` | script/patches/xsched.patch:736-737 | Otherwise it is a client of device 0, which takes a slot that is counted but not yet named. |
| `HpfGate.DeviceZeroMisdirectedFromStart` | script/patches/xsched.patch:719-741 | Which happens from an empty table, by a schedule that is given. |
| `HpfGate.UnpublishedSlotIsOpen` | script/patches/xsched.patch:738 | A slot without an update lets a priority run if and only if it is at least PRIORITY_MIN - 1. |
| `HpfGate.RunsBeforeFirstUpdate` | script/patches/xsched.patch:729-774 | From an empty table, by a schedule that is given, a client of any device and any such priority runs while the first update of its device is under way. |
| `HpfShm.Shm.constructor` | script/patches/xsched.patch:675-683 | The created table has no devices. |
| `HpfShm.Shm.FindSlot` | script/patches/xsched.patch:719-727 | The slot of the device, null exactly when it has none. |
| `HpfShm.Shm.AddDevice` | script/patches/xsched.patch:729-741 | Appends a slot below the limit of 32 and keeps ids unique. |
| `HpfShm.Shm.GetOrAddDevice` | script/patches/xsched.patch:743-754 | The index of the device; -1 exactly when it has no slot and none can be added; existing slots unchanged. |
| `HpfShm.Shm.SetDeviceMinPriority` | script/patches/xsched.patch:756-765 | Updates the slot of the device, or a new one, or nothing when all are taken; no other slot changes. |
| `HpfShm.Shm.Sched` | script/patches/xsched.patch:369-394 | Each scheduled device with a slot holds the maximum priority of its ready queues and counts one update; other slots are unchanged; new devices get slots in id order until they run out. |
| `HpfShm.SchedGates` | script/patches/xsched.patch:373-393 | A ready queue passes the gate exactly when it attains the highest ready priority of its device. |
| `HpfShm.UpdateIsPublish` | script/patches/xsched.patch:756-765 | The steps of an update of the gate, run to the end, are one such update of the slot table. |
| `Monitor.ReadSystemLoad` | src/server.c:114-123 | For all counters, with the unsigned wraparound: the load is a percentage if and only if the total did not change or the idle difference does not exceed the total difference. |
| `Monitor.LoadIsBusyShare` | src/server.c:114-123 | Of counters that go forward and fit it is the percentage of the elapsed time that was not idle. |
| `Monitor.IdleAndFullLoads` | src/server.c:114-123 | It is 0 when only idle and iowait moved, and 100 when neither did. |
| `Monitor.ForwardIsSane` | src/server.c:114-123 | Counters that do not go back meet that. |
| `Monitor.BackwardReading` | src/server.c:114-123 | One that does can report 1100 percent. |
| `Monitor.BackwardReadingJumps` | src/server.c:169-186 | Such a reading takes an idle system to high in one sample. |
| `Monitor.IdleToHighTakesTwelve` | src/server.c:67-75 | On any run of loads the degree goes from idle to high in no fewer than 12 samples. |
| `Monitor.TwelveSuffice` | src/server.c:67-75 | Twelve samples can be enough. |
| `Monitor.TwelveIdleSettle` | src/server.c:67-75 | Twelve samples of 0 make the degree of any system idle. |
| `Monitor.SixteenFullSettle` | src/server.c:67-75 | Sixteen samples of 100 make it high. |
| `Monitor.CpuMonitor` | src/server.c:169-186 | The monitoring loop publishes the reading, the smoothed load and the degree of every sample; when the readings are percentages the loads are, and the degrees obey that bound. |
| `Monitor.IdleMachineIsIdle` | src/server.c:169-186 | After twelve samples in a row in which only idle and iowait moved, the monitoring loop publishes the degree idle. |
| `Monitor.IdleWaker` | src/server.c:196-227 | 5000 ns per wake plus what is saved up never exceeds the CPU time; each wake has a stretch of its own of gaps below 3000 ns adding up to 5000, and none is held back. |

## Left out

- Monitor.ReadSystemLoad: single-precision rounding, replaced by exact reals, here and in the smoothing.
- Throttle.Average: the rounding of the double arithmetic at lines 101 and 171; the exact value is truncated instead, as is the mean at line 361 of `src/robflex_api.c`.
- Tick.ArrayThread.HandleTick: writes the charged context back into its slot where the C code holds a pointer; likewise HashThread.HandleTick.
- CriticalSection.Thread.ChainedFromLatency: overflow of the signed product at line 391 is undefined in C and taken to wrap here.
- Handlers.TickHandlers.VSleep: clock readings and budgets at which its signed sums would overflow (undefined in C) are excluded by the precondition; likewise Yield and Latency.
- Handlers.TickHandlers.Yield: an average tick cost of 2^61 ns or more, at which line 157 could overflow.
- HpfGate.RunKeepsInv: weak memory order; the loads and stores of all threads are interleaved sequentially.
- Sockets, JSON, `/proc/stat` parsing, configuration files, perf events, ioctl, sigaction and process start-up.
- Futex and nanosleep themselves: a wait is a request and a later clock reading, or an atomic compare-and-sleep with a wake that releases every sleeper.
- Signals nested inside a running tick, inside attach and detach, and in `robflex_switch_context_block`.
- The union of the policies' data: each policy has fields of its own, so a change of policy keeps the others.
- The CPI_SET_SIGNAL handler, which only stores a new slice.
- `handle_tick_predetermined`, which nothing calls.
- khash's string and Wang hash functions (the hash is an arbitrary function), its sets, its iteration macros, freeing of memory, and a failing shrink of an array.
- Null table, context and shared-memory arguments, which the code answers with an error.
- Commands without the fields their log line dereferences, and event names that are not strings.
- The rest of the xsched patch, whose surroundings are not in the repository.
