# A verified model of an NVM emulator

The repository is a set of Linux kernel modules that make ordinary DRAM behave like
non-volatile memory. A timer on a polling CPU reads how many memory requests a home
agent has served and makes an emulating CPU wait for the extra latency; memory
controllers are throttled to limit bandwidth; a page-table walk finds recently accessed
pages; and an overflow interrupt counts last-level-cache misses on every CPU. This
project models those five parts in Dafny and proves what they are for.

| files | part |
|---|---|
| `PageTable.dfy`, `PageWalk.dfy`, `RunningAverage.dfy` | the walk of `migrate.c` equals a flat scan; its timing average and drift |
| `CounterAccess.dfy`, `LatencySampler.dfy`, `LatencyEmulator.dfy` | latency injection: every register access is a step, requests arrive between any two |
| `OverflowCpu.dfy`, `CorePmu.dfy` | overflow sampling: the books of one CPU, and the commands while NMIs strike |
| `ImcDevice.dfy`, `ImcThrottle.dfy`, `ThrottleRuns.dfy` | throttling with rollback, and what any history of requests leaves behind |
| `BoxRegistry.dfy`, `Enumeration.dfy`, `UncoreModule.dfy` | box lists, what bring-up will try and where it first fails, bring-up and exit |
| `NodeMap.dfy`, `Hotplug.dfy` | bus-to-node table, CPU hotplug |
| `Kernel.dfy`, `Totals.dfy` | shared constants, word arithmetic and sums |

## How it is modelled

Code that updates state in place is a class whose methods follow the same branches and
the same order of writes; each method is tied to a function or a predicate that says
what it does, and the theorems are about those. Registers are integers of their own
width or records of their fields. Everything outside the modules is explicit: read
requests, cache misses and pending NMIs are actions that may happen between any two
steps; failing allocations, failing device operations and CPUs that refuse to stop or
start are parameters, and each theorem holds for all of them.

Assumptions about hardware and kernel. A box counter advances modulo 2^48 only while
its box is not frozen and its event is enabled; the reset bits of a box control clear
selector and counters and read back as zero. A core counter advances on user-mode
misses only, and an NMI is only ever caused by a wrap on its own CPU. `cpu_down` and
`cpu_up` change the online mask at once unless they fail, and `cpu_down` never takes the
last CPU. Page-table bounds are page aligned, `start < end`, and the table does not
change during a walk. `pgd_addr_end`, `pud_addr_end` and `pmd_addr_end` are the kernel's
macros, which are not part of this repository.

## Where the code falls short of its description

Each point names the member that says when the promise holds and when it does not, and
the member that applies the model to an input for which it fails.

- The average truncates at every sample: it lags the total of c samples by up to
  c(c-1)/2, a bound that is reached (`DriftIsTight`). As long as that number fits in
  64 bits itself, the bound holds if and only if no update wrapped (`DriftBoundIff`); two samples of 2^63 average to zero
  (`OverflowLeavesRange`).
- An NMI that is pending before its period is over is counted although no period of
  misses stands behind it; the books balance on every run exactly when the CPU is not
  armed with such an NMI (`PromiseKeptIff`). Commands `1` to `4` leave none if none was
  pending before and NMIs are prompt; if nothing happens during the command, they leave
  none exactly when none was pending before (`ProcWrite`, `RestartWithPendingNmi`).
- Command `0` stops a CPU for good exactly when it leaves no NMI pending on it: a late one
  finds the overflow bit still set and restarts the counter (`StopLastsIff`). Under
  the same two conditions as above it does stop every CPU for good (`ProcWrite`,
  `StopWithPendingNmi`).
- Walks over all nodes give up at the first node without a controller. After start-up
  full bandwidth is in force on a node exactly if every online node before it and the
  node itself can be set, or it had that limit already; so on a machine whose first two
  nodes are 0 and 1, what is shown is enforced exactly when node 0 has a controller or
  node 1 had the limit (`StartEmulateBandwidth`, `StartWithoutNodeZero`). One online node
  without a controller also leaves throttling off everywhere.
- The rollback of a failed node also disables controllers that were enabled before and
  that the walk had not reached. It leaves the node's enable bits as they were exactly
  when none of them was set (`EnableThrottle`, `RollbackTurnsOff`).
- A device whose list entry cannot be made keeps two references: a failing bring-up
  leaves every reference count as it was if and only if it is not a PCI or a memory
  controller's entry that failed (`Uncore.Init`, `LeakOnOneDevice`).
- Preparing two CPUs of one node can stop the emulating CPU, which restoring never starts
  again; the exact condition is in `RoundTripIff`, an input in
  `NeighboursLoseTheEmulatingCpu`. Where restoring works it also starts CPUs that were
  offline beforehand (`RestoresExactlyIff`, `RestoreStartsMore`).
- The test for an empty node compares with `>`, so it is missed whenever masks are as
  wide as the number of CPUs (`FirstOnlineCpuOfNode`, `EmptyNodeYieldsACpu`).
- `hswep_pcibus_to_nodeid` reports success exactly when every register could be read and
  there is a UBOX, or the uninitialised variable it returns otherwise holds zero
  (`PcibusToNodeid`, `NoUbox`). A UBOX maps its bus exactly when one of the eight fields
  holds its whole node-id register; if none does, the call still reports success
  (`MapsIff`, `UnmappedBus`).

## Model

| member | source | states |
|---|---|---|
| PageTable.AddrEndIsMin | migrate.c:127-127 | for every address and level the wrapping helper is the smaller of the next boundary and the end, including when the boundary is 2^64 itself |
| PageTable.AddrEndStep | migrate.c:126-133 | each turn moves strictly forward, stays page aligned, does not pass the end and stays under one entry, so `end - addr` is a measure |
| PageTable.SlotStep | migrate.c:131-131 | the incremented entry pointer equals the slot indexed by the new address, at every level and across every boundary short of the end |
| PageTable.EntryOfAddress | migrate.c:94-95 | for all table indices i, j, k, l: a walk from the root to the address built from them, nine bits a level over the page offset, ends at entry l of pte table k of pmd table j of pud table i, or at nothing if a level is empty |
| PageTable.PgdPointerInTableIff | migrate.c:164-170 | the top-level pointer stays in its table for the whole range if and only if the range keeps to one canonical half of the address space |
| PageTable.SharedEntries | migrate.c:125-131 | two addresses under one entry see the same table, so the tables found at the first address serve the whole sub-range |
| PageTable.NoneSubtree | migrate.c:128-129 | a range under an empty entry of any level contributes nothing to the flat scan |
| PageTable.ScanSplit | migrate.c:126-131 | the flat scan of a range is the scans of its two parts, joined at any page |
| PageTable.ScanIsReport | migrate.c:88-171 | the flat scan of a range is the one correct report: ascending pages, exactly the present and accessed ones with their frames |
| PageTable.ChainScanIsReport | migrate.c:206-209 | for every sorted chain of areas the joined scans are the correct report of their union, no page twice |
| PageTable.ReportUnique | migrate.c:88-171 | there is only one correct report of a chain, so any implementation meeting the definition reports the same sequence |
| PageWalk.Walker.ClearPteRange | migrate.c:88-117 | reports the flat scan of its range and returns exactly its end |
| PageWalk.Walker.ClearPmdRange | migrate.c:119-134 | reports the flat scan of its range and returns exactly its end, so overwriting `next` with the callee's result never moves the walk |
| PageWalk.Walker.ClearPudRange | migrate.c:136-151 | the same one level up |
| PageWalk.Walker.ClearPageRange | migrate.c:156-171 | the nested four-level walk appends exactly the flat scan of the area |
| PageWalk.Walker.ClearEveryVma | migrate.c:206-209 | the loop over areas appends their scans in order |
| PageWalk.Walker.GetEndTime | migrate.c:49-53 | the published average is that of all samples so far |
| PageWalk.Walker.TimerCallback | migrate.c:178-215 | one callback adds one timing sample and, to what was reported before, the one correct report of the process's areas |
| RunningAverage.StepExactIff | migrate.c:49-53 | an update is the exact truncated mean if and only if its total fits in 64 bits |
| RunningAverage.StepDrift | migrate.c:49-53 | an update that fits lands between the old average and the sample |
| RunningAverage.StepLoses | migrate.c:49-53 | an update that fits loses less than c of the total, one that wraps loses at least 2^64 |
| RunningAverage.DriftBoundIff | migrate.c:49-53 | over every sample sequence the average never exceeds the mean, and its shortfall is at most c(c-1)/2 if no update wrapped and at least 2^64 if one did, an if-and-only-if for as many samples as keep c(c-1)/2 below 2^64 |
| RunningAverage.SmallTotalNeverWraps | migrate.c:49-53 | a total of samples below 2^64 rules wrapping out |
| RunningAverage.AverageBounds | migrate.c:49-53 | without a wrap the average lies between the smallest and the largest sample |
| RunningAverage.DriftIsTight | migrate.c:49-53 | samples a, a+1, a+2, ... leave the average at a and reach the drift bound exactly |
| RunningAverage.OverflowLeavesRange | migrate.c:49-53 | a concrete pair of samples whose sum wraps and whose average is zero |
| CounterAccess.SplitRoundTrip | uncore_hswep.c:454-474 | for every width below 64 and every value, writing two dwords and reading them back gives the value modulo 2^bits, and both dwords fit |
| CounterAccess.WriteThenRead | uncore_hswep.c:454-474 | on any register map, for every value and every width below 64: a read after a write yields the value modulo 2^bits, and no register but the two dwords changes |
| CounterAccess.ConfigSpace.WriteCounter | uncore_hswep.c:454-463 | two dword writes leave the low 32 bits at the counter, the masked rest four bytes on, and every other register as it was |
| CounterAccess.ConfigSpace.ReadCounter | uncore_hswep.c:465-474 | two dword reads return what the two dwords hold together, always below 2^bits |
| CounterAccess.TornReadWithoutFreeze | uncore_hswep.c:465-474 | one event between the two reads of a running counter would nearly double the result, which is why it is frozen first |
| LatencySampler.SplitAccessAtThisWidth | uncore_pmu.h:214-217 | the sampler's 48-bit access is the general split access at that width |
| LatencySampler.RunKeepsInv | emulate_nvm.c:83-125 | the sampler's invariant holds after every interleaving of accesses and arrivals |
| LatencySampler.StartsFromZero | emulate_nvm.c:142-151 | from any register contents and any arrivals the box is released with a zero counter and the event selected |
| LatencySampler.NothingLostOrDoubled | emulate_nvm.c:90-119 | events counted equal samples charged plus what the counter holds, modulo 2^48 always, and exactly if and only if no period saw 2^48 events |
| LatencySampler.ArrivalByPhase | uncore_hswep.c:412-436 | from freeze to release an arrival changes nothing; outside it is counted in full |
| LatencySampler.ReadsAreWhole | uncore_hswep.c:465-474 | the value charged is the counter's, which does not move while it is read |
| LatencySampler.InjectedDelay | emulate_nvm.c:64-79 | no product overflows for a delta below 2^16, and total delay less waited microseconds lies in 0..999 per tick, for every read up to the last sample |
| LatencySampler.TicksKeepPace | emulate_nvm.c:83-125 | arrivals never delay the handler: steps taken determine the number of ticks |
| LatencyEmulator.HomeAgent.InitBox | uncore_hswep.c:399-410 | its two accesses are the first two steps of every run, with arrivals in between; afterwards the four overflow flags are clear |
| LatencyEmulator.HomeAgent.DisableBox | uncore_hswep.c:425-436 | read-modify-write that freezes the box; arrivals before the write still count |
| LatencyEmulator.HomeAgent.EnableBox | uncore_hswep.c:412-423 | read-modify-write that releases the box; arrivals before the write do not count |
| LatencyEmulator.HomeAgent.EnableEvent | uncore_hswep.c:438-444 | selects the event as one step of the run |
| LatencyEmulator.HomeAgent.ReadCounter | uncore_hswep.c:465-474 | returns the events of the period modulo 2^48 whatever arrives between its two reads |
| LatencyEmulator.HomeAgent.WriteCounterZero | uncore_hswep.c:454-463 | clears both dwords and no other register whatever arrives in between |
| LatencyEmulator.HomeAgent.StartEmulateLatency | emulate_nvm.c:142-151 | for every arrival pattern the run is the start sequence and ends counting from zero with the event selected |
| LatencyEmulator.HomeAgent.TimerHandler | emulate_nvm.c:83-125 | one tick publishes exactly what was counted before the freeze, waits its delay, and leaves only what came after the release |
| LatencyEmulator.HomeAgent.ChargeAndWait | emulate_nvm.c:90-105 | charges the sample once and waits the delay's whole microseconds |
| OverflowCpu.MissKeeps | core_pmu.c:289-311 | a miss at any moment undoes no stage of arming and moves no stopped counter |
| OverflowCpu.NmiKeeps | core_pmu.c:397-412 | an NMI at any moment undoes no stage of arming, and one that was pending leaves the CPU armed and no longer pending |
| OverflowCpu.CountsIff | core_pmu.c:306-310 | a miss moves the counter exactly while EN, USR and the global control are set |
| OverflowCpu.ArmedCounts | core_pmu.c:306-310 | an armed CPU has USR, INT, EN and the global control set, the code 0x412e for LLC_MISSES, and every next miss moves its counter |
| OverflowCpu.EveryMissIsCounted | core_pmu.c:289-311 | on every run of an armed CPU the misses in its books are all the misses of the run |
| OverflowCpu.RunKeepsBalance | core_pmu.c:397-412 | over every run of an armed CPU, whatever it had counted before: misses + those behind the first load + credit of a stale NMI = period times NMIs + misses since the last load + those dropped between wrap and NMI |
| OverflowCpu.PromiseKeptIff | core_pmu.c:397-412 | the books hold without any credit on every run if and only if the armed CPU had no NMI pending before the end of its period |
| OverflowCpu.ImmediateIsExact | core_pmu.c:397-412 | with immediate delivery NMI_TIMES grows by misses div N and the counter is the preload plus misses mod N, misses behind the first load included |
| OverflowCpu.NeverOvercounts | core_pmu.c:397-412 | however late NMIs are, N times the NMIs counted never exceeds the misses |
| OverflowCpu.StopLastsIff | core_pmu.c:256-262 | a stopped CPU stays stopped on every run if and only if no NMI is pending on it |
| CorePmu.Sampler.Interfere | core_pmu.c:397-412 | whatever misses and NMIs strike between two steps, no CPU loses a stage it had reached, and no wrap goes unnoticed |
| CorePmu.Sampler.WriteMsr | core_pmu.c:256-311 | a write lands on the registers as misses and NMIs have left them, and disturbs no other CPU |
| CorePmu.Sampler.ClearCounter | core_pmu.c:126-132 | every online CPU's published count holds no NMI from before the command |
| CorePmu.Sampler.ClearMsrsOn | core_pmu.c:256-262 | for every NMI pattern the four writes leave the CPU stopped or freshly restarted by its own NMI; stopped, if NMIs are prompt and none was pending; exactly cleared, if nothing happens |
| CorePmu.Sampler.ClearAllMsrs | core_pmu.c:335-341 | the same for every online CPU at once, all of them stopped if NMIs are prompt and none was pending; offline ones do not change |
| CorePmu.Sampler.EnableEventOn | core_pmu.c:289-311 | loads the preload and selects the event, and keeps both through NMIs in between |
| CorePmu.Sampler.EnableAllEvents | core_pmu.c:371-382 | every online CPU has the preload and the selector while later ones are still being visited |
| CorePmu.Sampler.EnableAllCounting | core_pmu.c:344-350 | every online CPU is armed after the last visit |
| CorePmu.Sampler.StartSampling | core_pmu.c:439-445 | from any registers and under any NMIs every online CPU ends armed with the current period, its selector the code 0x412e with USR, INT and EN, and no armed counter has run out without an NMI due; prompt NMIs leave none pending |
| CorePmu.Sampler.ProcWrite | core_proc.c:60-104 | for each input the reply, the new period (32, 64, 128 or 256), armed or stopped CPUs and restarted counts, and after '1' to '4' books that balance on every further run; with prompt NMIs and none pending before, '0' stops every online CPU for good and '1' to '4' leave books without any credit; undisturbed, each of that holds exactly when none was pending before; rejected input changes nothing |
| CorePmu.RestartWithPendingNmi | core_proc.c:78-82 | a CPU that command '1' leaves armed with an NMI pending too early, and a run on which its books fail |
| CorePmu.StopWithPendingNmi | core_proc.c:73-77 | a CPU that command '0' leaves stopped with an NMI pending, and a run that starts it again |
| ImcDevice.HswepSetThreshold | uncore_hswep.c:961-988 | each word keeps bit 15 and gets 0x00ff for 2, 0x007f for 4 and 0x0fff for everything else |
| ImcDevice.HswepEnableThrottle | uncore_hswep.c:994-1007 | each word is enabled and keeps its limit |
| ImcDevice.HswepDisableThrottle | uncore_hswep.c:1009-1021 | each word is disabled and keeps its limit |
| ImcThrottle.ImcLayer.SetThreshold | uncore_imc.c:150-166 | every controller of the node is set, or the walk stops right after the first one that refused and returns its error |
| ImcThrottle.ImcLayer.DisableThrottle | uncore_imc.c:175-186 | every controller of a valid node is disabled, the rest untouched |
| ImcThrottle.ImcLayer.EnableThrottle | uncore_imc.c:197-215 | all of the node's controllers are enabled if none refuses; otherwise the first refusal is returned, controllers up to it were turned on and off and the later ones off; enable bits survive a failure exactly when none was set |
| ImcThrottle.EnableOutcome | uncore_imc.c:197-215 | enabling a node succeeds if and only if the node is valid, has a controller and none refuses |
| ImcThrottle.RollbackRestoresIff | uncore_imc.c:175-215 | a rollback leaves the node's enable bits as they were if and only if every controller of the node was off before |
| ImcThrottle.RollbackTurnsOff | uncore_imc.c:197-215 | a node of two controllers whose second one was enabled and is off after a failed enable |
| ImcThrottle.ImcLayer.DisableThrottleAll | uncore_imc.c:257-263 | exactly the controllers on online nodes with valid ids are disabled |
| ImcThrottle.ImcLayer.SetThresholdAll | uncore_imc.c:224-234 | succeeds if and only if every online node is ready; otherwise the nodes before the first unready one are set, that one up to the controller that refused, later ones not at all |
| ImcThrottle.ImcLayer.EnableThrottleAll | uncore_imc.c:243-255 | all or nothing for any device list and any failures: on success every controller on an online node is on, otherwise none is, others untouched |
| ImcThrottle.RollbackComposes | uncore_imc.c:175-215 | a finished part, one node's own rollback and the final rollback add up to everything off |
| ImcThrottle.UntouchedNode | uncore_imc.c:243-255 | changing other nodes never changes whether a node has a controller or one that refuses |
| ThrottleRuns.WalkIsApply | uncore_imc.c:150-166 | on devices that cannot fail a walk is one node-wide change, with its return code |
| ThrottleRuns.Serve | uncore_imc.c:150-215 | each of the three operations has exactly the effect of one request on the whole list, and its return code |
| ThrottleRuns.RegistersRefine | uncore_hswep.c:961-1021 | after any history of requests each of the three words is the enable bit and limit of its node's abstract setting |
| ThrottleRuns.LastRequestsDecide | uncore_hswep.c:961-1021 | a node's setting is its last ratio and its last enable or disable, whatever else happened |
| ThrottleRuns.HistoryDecidesWords | uncore_hswep.c:961-1021 | after any such history each of a controller's three words is the last enable or disable joined with the code of the last ratio |
| ThrottleRuns.SetCommutes | uncore_hswep.c:961-1021 | setting a ratio commutes with enabling and disabling on any nodes |
| ThrottleRuns.NodeSet | uncore_imc.c:224-234 | setting every node puts the ratio in force on those up to the first without a controller; later ones keep their limits |
| ThrottleRuns.AgreementSurvives | uncore_proc.c:49-83 | switching throttling, or setting another node, leaves a ratio in force |
| ThrottleRuns.NodeLimited | uncore_imc.c:224-255 | on any list of online nodes, after setting all and toggling throttling, a node's limit is the ratio exactly if the walk got to the node or the limit was so before |
| ThrottleRuns.ReadyIsPast | uncore_imc.c:243-255 | enabling everything succeeds on these devices exactly when every node is valid and has a controller |
| ThrottleRuns.FirstTwo | uncore_imc.c:224-234 | where the first online nodes are 0 and 1, both have the ratio exactly if node 0 has a controller or node 1 had it before |
| ThrottleRuns.BandwidthKnob.StartEmulateBandwidth | emulate_nvm.c:192-201 | for every online list and every node: full bandwidth is in force exactly if the walk gets to the node or it was before; throttling ends on everywhere it reaches or off everywhere, and which; all other controllers keep their registers |
| ThrottleRuns.StartWithoutNodeZero | emulate_nvm.c:192-201 | a machine whose one controller, on node 1, keeps a quarter limit while the knob says full bandwidth |
| ThrottleRuns.BandwidthKnob.ProcWrite | uncore_proc.c:49-83 | an accepted command makes the knob and both nodes agree from any state, with limits 0x0fff, 0x00ff and 0x007f for commands 0, 2 and 4; a rejected one changes nothing |
| BoxRegistry.TypeIsPacked | uncore_pmu.h:36-38 | the type packed into a row's driver data with any index is the type the row is listed under |
| BoxRegistry.FoundHas | uncore_pmu.c:530-553 | a type's list has exactly the devices that some row names by vendor, device and type |
| BoxRegistry.FoundInOrder | uncore_pmu.c:530-553 | they come row by row, and the devices of one row in bus order |
| BoxRegistry.AppendKeepsOrder | uncore_pmu.c:449-480 | numbering a new box after the last one keeps indices 0..n-1 and num_boxes equal to n |
| BoxRegistry.GetBox | uncore_pmu.c:190-204 | succeeds if and only if the node id is at most 8 and the box at that position is on that node, and returns it |
| BoxRegistry.GetFirstBox | uncore_pmu.c:216-230 | succeeds if and only if the node has a box, and returns the lowest-numbered one |
| Enumeration.Hunt.FaultsIff | uncore_pmu.c:530-553 | an enumeration makes all of its entries if and only if every id that matches a device names a type and none of its allocations is refused |
| Enumeration.Hunt.FaultIsFirst | uncore_pmu.c:549-551 | the entry an enumeration stops at is determined by the id table, the devices and the refused allocations alone |
| Enumeration.Hunt.NotMade | uncore_pmu.c:549-551 | an entry that cannot be made in the course of the walk is that first fault, and its device is the one that leaks |
| Enumeration.Hunt.LeakIff | uncore_pmu.c:557-559 | references are left over if and only if an entry could not be made |
| UncoreModule.Uncore.PciGetDevice | uncore_pmu.c:533-547 | the enumeration cursor moves to the next match and its reference moves with it |
| UncoreModule.Uncore.PciNewBox | uncore_pmu.c:449-480 | EFAULT, ENOMEM or success, each exactly when; on success one box more, numbered next, owning one reference; on failure nothing changes |
| UncoreModule.NextMatch | uncore_pmu.c:533-538 | finds the first matching device from a position on, or none |
| UncoreModule.Uncore.NextDevice | uncore_pmu.c:530-553 | a box appended for a device keeps every list equal to the enumeration so far |
| UncoreModule.Uncore.ListOne | uncore_pmu.c:547-551 | lists the cursor's device, or stops at the first entry that cannot be made, leaving that device two references up |
| UncoreModule.Uncore.EnumerateOne | uncore_pmu.c:530-553 | one turn lists one device and moves the cursor and its reference to the next match |
| UncoreModule.Uncore.PciInit | uncore_pmu.c:504-560 | succeeds if and only if the model is known, the bus map was read and no entry faults; then each type lists exactly its devices in id and bus order, numbered from zero; otherwise nothing is listed and the first faulting device's leak is what remains |
| UncoreModule.Uncore.PciExit | uncore_pmu.c:483-501 | empties the lists and returns every reference and allocation they own; a second run does nothing |
| UncoreModule.Uncore.MsrNewBox | uncore_pmu.c:571-591 | appends one box exactly when its allocation succeeds, and otherwise changes nothing |
| UncoreModule.Uncore.CpuInit | uncore_pmu.c:613-651 | succeeds if and only if the model is known and each of its allocations succeeds; then type 3, the C-boxes, lists the smaller of its table entry and the number of cores, every other type its table entry, numbered from zero; otherwise none |
| UncoreModule.Uncore.CpuExit | uncore_pmu.c:594-610 | empties the lists and frees every box; a second run does nothing |
| UncoreModule.Uncore.ImcNewDevice | uncore_imc.c:62-84 | one entry more, owning one reference, exactly when its allocation succeeds; otherwise nothing changes |
| UncoreModule.Uncore.ImcInit | uncore_imc.c:86-136 | succeeds if and only if the model is known and no entry faults; then lists exactly the matching devices in id and bus order with their nodes; otherwise none, with the first faulting device's leak |
| UncoreModule.Uncore.ImcExit | uncore_imc.c:40-53 | empties the list and returns every reference and allocation; a second run does nothing |
| UncoreModule.Uncore.EmptyMeansReturned | uncore_pmu.c:690-701 | with empty lists every allocation is freed and every reference count is its start value plus what no list owns |
| UncoreModule.Uncore.SucceedsIff | uncore_pmu.c:653-702 | bring-up can succeed if and only if the model is known, the bus map was read, every matching PCI id names a type, and none of the allocations of all three stages is refused |
| UncoreModule.Uncore.Init | uncore_pmu.c:653-702 | exactly when it succeeds; success lists exactly what the machine has; any failure leaves every list empty and every allocation freed; references are left over if and only if a PCI or memory controller entry failed, and then two of the device named |
| UncoreModule.LeakOnOneDevice | uncore_pmu.c:504-560 | a one-device machine whose refused allocation takes the device's reference count from 1 to 3 |
| UncoreModule.Uncore.Exit | uncore_pmu.c:704-719 | from any settled state, however reached, every reference count and allocation is back where it started |
| NodeMap.PcibusToNodeid | uncore_hswep.c:695-729 | every bus holds the first node whose field equals the whole node-id register of its last readable UBOX, the result is that failure, other buses are untouched; success exactly when all could be read and there was one, or the uninitialised variable was zero |
| NodeMap.PackedNodeIsFound | uncore_hswep.c:717-723 | a register packed from 3-bit node numbers is decoded to the position of this socket's number |
| NodeMap.PackedEntry | uncore_hswep.c:717-723 | a UBOX on the socket that the packed register lists at a node enters that node |
| NodeMap.FieldsAre | uncore_hswep.c:718-718 | the eight fields are the register shifted by three bits each and masked to three |
| NodeMap.OneUboxPerBus | uncore_hswep.c:700-724 | with one UBOX per bus each bus is mapped by its own UBOX whatever the order |
| NodeMap.MapsIff | uncore_hswep.c:717-723 | a readable UBOX sets its bus's entry exactly when one of the eight fields holds the whole node-id register, and otherwise leaves it |
| NodeMap.WideNodeIdMapsNothing | uncore_hswep.c:717-723 | a special case: a node-id register above 7 leaves its bus unmapped |
| NodeMap.UnmappedBus | uncore_hswep.c:717-728 | node id 5 under a mapping that names only node 0: success is reported and the bus stays unmapped |
| NodeMap.NoUbox | uncore_hswep.c:697-728 | without a UBOX the result is what the uninitialised variable held |
| Hotplug.Platform.DownAllBut | emulate_nvm.c:246-250 | although it shrinks the mask it walks, the loop stops exactly the node's other CPUs that agree, and never the last of the machine |
| Hotplug.Platform.PreparePlatform | emulate_nvm.c:227-264 | refuses on the wrong CPU without effect, otherwise thins both nodes in turn |
| Hotplug.Platform.RestorePlatform | emulate_nvm.c:266-282 | although it grows the mask whose complement it walks, every present CPU but the emulating one is up afterwards |
| Hotplug.Machine.PreparedIsIsolatedIff | emulate_nvm.c:238-261 | preparing leaves exactly one CPU on each node if and only if the nodes differ or the CPUs are the same, and no neighbour refuses |
| Hotplug.Machine.OtherNodesKept | emulate_nvm.c:246-261 | CPUs on third nodes are never touched |
| Hotplug.Machine.RoundTripIff | emulate_nvm.c:246-281 | restore brings back every CPU that was online if and only if the emulating CPU was not exposed and no CPU that was stopped refuses to start, both known beforehand |
| Hotplug.Machine.RestoresExactlyIff | emulate_nvm.c:266-282 | and the exact former set if and only if, besides, every other CPU that was present but offline refuses to start |
| Hotplug.Machine.StopsIff | emulate_nvm.c:246-261 | which CPUs preparing stops, named before it runs |
| Hotplug.Machine.EmulatingCpuKeptIff | emulate_nvm.c:246-261 | the emulating CPU survives preparing if and only if it was not exposed |
| Hotplug.NeighboursLoseTheEmulatingCpu | emulate_nvm.c:246-281 | a two-node machine that ends without its emulating CPU |
| Hotplug.RestoreStartsMore | emulate_nvm.c:266-282 | a two-node machine that ends with a CPU that was offline at first |
| Hotplug.Platform.FirstOnlineCpuOfNode | uncore_pmu.c:83-95 | returns the node's lowest online CPU; for an empty node, -1 if and only if masks are wider than the number of CPUs |
| Hotplug.Platform.CallTarget | uncore_pmu.c:107-122 | a node with online CPUs yields its lowest one; an empty node yields an error or a CPU that does not exist, each exactly when |
| Hotplug.EmptyNodeYieldsACpu | uncore_pmu.c:83-95 | a machine with an empty node for which the CPU named does not exist |

## Left out

- /proc plumbing, printing, `copy_from_user` and module parameters: input and output only; the two command switches are modelled, with the copy's outcome as a parameter.
- Inline assembly, APIC set-up, NMI registration, hrtimers and IPIs: represented by the state changes they cause.
- `finish_emulate_latency`, `start_emulate_nvm` and `finish_emulate_nvm`: they only call modelled parts in order.
- Looking up the home agent box and binding the event before sampling starts (`emulate_nvm.c:127-140`): null checks over `GetBox`.
- `uncore_nhmep.c` and `misc/ioapic.c`: the first is not built, the second only prints.
- MSR event selection (`uncore_hswep.c:224-234`), whose two values are exchanged, and the self-checks at `uncore_hswep.c:923-954`: the emulator does not use them.
- Huge pages, changes to the table during a walk, and TLB effects.
- Clearing accessed bits: the call at `migrate.c:112` works on a local copy and its result is dropped, so no bit in the table changes and only the report is modelled; `collect_statistics` is appending to it.
- The exited-process branch of the timer callback (`migrate.c:189-191`): `TimerCallback` is the branch of a live task with its address space.
- PCI config accesses that fail, other than in `hswep_pcibus_to_nodeid`.
- Register addresses: registers are named fields, and masks are written as arithmetic on their fields.
- 64-bit wrap of PERCPU_NMI_TIMES, hrtimer_jiffies and the sample count: these are natural numbers.
- CorePmu.Sampler.ProcWrite: command `0` with an NMI pending promises only stopped or restarted, which is all that is true.
- CorePmu.Sampler.ClearCounter: the handler's increment of PERCPU_NMI_TIMES is taken as one step against the zero that another CPU stores into it; the code uses no atomic operation for either, so a zero could be lost in between.
- An NMI handler is one step: no user-mode miss can occur on its CPU while it runs, and no other CPU writes its registers.
- Order among equal devices in the kernel's list and the box timers' fields: devices are enumerated in bus order, and a box is its index, node and device.
- The list pointers themselves: kernel lists are sequences, so aliasing between entries is not modelled.
- Processor brand, frequency and the real length of a delay.
