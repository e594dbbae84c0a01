# Afterburner verification

A Dafny model of the parts of Afterburner, a virtualization toolkit on the L4 microkernel, whose correctness
is hardest to see from the code, with machine-checked proofs. `dafny verify dfyconfig.toml` checks all of it.

| file | models |
|---|---|
| `Amd64.dfy` | a decoder for the instructions involved (Intel SDM volume 2, sections 2.1.3 and 2.2.1), a register and memory machine, the C calling convention |
| `DeviceStore.dfy`, `CallFrame.dfy`, `RewriteMeaning.dfy`, `StoreEffect.dfy`, `PatchBuffer.dfy` | the wedge's rewriting of a store to device memory into a framed call, up to preservation of meaning, and the in-place emitters |
| `VmSearch.dfy`, `VmMemory.dfy`, `BootModules.dfy` | the resource monitor's search for host memory as a machine on words, the allocator and all its runs, the packing of boot modules |
| `RemapTable.dfy` | the pager's reference-counted device windows |
| `Calendar.dfy` | day numbers, Gregorian dates and weekdays |
| `Scheduler.dfy`, `ScheduleRuns.dfy`, `ScheduleThreads.dfy`, `VirqLoop.dfy`, `Lottery.dfy` | the virtual CPU scheduler: a step per message, properties of every run, the in-place loop, the energy-aware lottery |
| `CString.dfy`, `Print.dfy`, `ModuleOptions.dfy` | number parsing and printing, substring search, module options |
| `SymbolTree.dfy` | the profiler's symbol tree |
| `CpuLock.dfy` | the cross-processor lock |

Code that updates structures in place is modelled by classes whose methods are proved against specification
functions; what the code is for is proved about those functions, over all inputs or all runs. L4 system calls,
sigma0's answers, random numbers and thread identities are parameters or events.

Where the code does less than its description, the model follows the code:

- The rewriter preserves meaning only for the stores described by `RewriteMeaning.Supported`. A SIB index together
  with a stack base is among them.
- The search for host memory works on words. A candidate that wraps past 4GB can be taken although the memory is in use
  (`VmMemory.RunBreaksIsolation`) or make the search go on for ever (`VmSearch.RequestHangs`). `VmSearch.SearchRightIff` and
  `VmMemory.IsolationIff` say exactly when the search is right and the machines are isolated, by a computation that ends and
  can be made before the call; `VmSearch.Roomy` and `VmMemory.Headroom` are simpler conditions that are enough.
- A boot module whose virtual range wraps can be accepted on top of the binary; `BootModules.AcceptedMissesIff` says when.
- The unmap path of the remap table lowers its high-water mark before it drops the reference, so the mark never moves. The
  scan for a free window reads one entry past the table; `beyond` stands for what it finds there.
- `unregister`, migration and thread start do not occur in the scheduler's runs. A yield with an explicit destination does,
  and breaks the idle property exactly as `ScheduleRuns.Sound` says.
- A device page loses its reference count, and its window, with the 4096th reference (`RemapTable.LostCountShares`).
- The date conversion is right exactly in the range that `Calendar.WordDateIff` gives.
- The lottery is proportional only while the ticket sum fits a word (`Lottery.ProportionalIff`, `Lottery.TicketsOutgrowWord`). A power cap selects context 0 although the comment there says that no thread is runnable.
- `is_locked` of the lock is always true.
- A module that is refused late has already been copied, below the modules loaded before it.

## Model

| member | source | states |
|---|---|---|
| `RewriteMeaning.RewritePreservesMeaning` | afterburn-wedge/amd64/rewrite_stackless.cc:909-964 | The replacement of a device store disassembles to the intended instructions. For every CPU state and every callee that obeys the C calling convention it calls the write function once with rdi = source and rsi = effective address over the original registers, and restores rsp and the saved registers, if and only if the store is `Supported`: source not rsp, not RIP-relative, no REX.X, a stack base without REX.B whose displacement still fits, no rdi in the SIB when the source is rsi, target within call range |
| `RewriteMeaning.SupportedAgrees` | afterburn-wedge/amd64/rewrite_stackless.cc:909-964 | Half of the above: a supported store's replacement passes the guest's source and address for every register file, rsp included, despite the nine pushes |
| `RewriteMeaning.UnsupportedDiffers` | afterburn-wedge/amd64/rewrite_stackless.cc:909-964 | The other half: every unsupported store has a register file on which the passed source, address or call target differs |
| `RewriteMeaning.Outcome` | afterburn-wedge/amd64/rewrite_stackless.cc:913-963 | Running the replacement calls the target exactly once, with the shuffled arguments, memory off the pushed stack unchanged at entry, and all registers restored afterwards |
| `RewriteMeaning.NewBytesDecode` | afterburn-wedge/amd64/rewrite_stackless.cc:909-964 | An independent decoder after the Intel SDM reads the emitted bytes as exactly the intended pushes, shuffle, call and pops |
| `RewriteMeaning.SiteDecodes` | afterburn-wedge/amd64/rewrite_stackless.cc:827-835 | The optional REX byte, the opcode and ModR/M of the site decode to the store that is being replaced |
| `RewriteMeaning.ReachesTarget` | afterburn-wedge/amd64/rewrite_stackless.h:770-776 | The truncated 32-bit distance of the call reaches the write function if and only if the distance fits a signed 32-bit field |
| `StoreEffect.ReplacementActsLikeStore` | afterburn-wedge/amd64/rewrite_stackless.cc:909-964 | With any write function that keeps the calling convention and stores its first argument at its second, running the replacement of a supported store leaves the registers and the memory off the pushed words as executing the guest's own store would |
| `CallFrame.FrameOutcome` | afterburn-wedge/amd64/rewrite_stackless.cc:913-963 | Any body that keeps rsp and the saved slots, framed by the nine saves, the call and the nine restores, calls once and restores every saved register and rsp |
| `CallFrame.FrameRestores` | afterburn-wedge/amd64/rewrite_stackless.cc:954-963 | Popping in reverse order after a conforming callee gives back every register the frame saved |
| `CallFrame.SavedProtects` | afterburn-wedge/amd64/rewrite_stackless.cc:913-922 | The nine saved registers are enough: every register the callee may change is saved |
| `CallFrame.PushesSave` | afterburn-wedge/amd64/rewrite_stackless.h:691-708 | The i-th push leaves its register's value in the i-th slot below the old stack pointer |
| `DeviceStore.LeaEncodes` | afterburn-wedge/amd64/rewrite_stackless.h:527-597 | The re-emitted ModR/M, SIB and displacement decode to the original operand with its stack displacement raised by the pushed bytes and widened where mode 0 has no displacement |
| `DeviceStore.PushEncodes` | afterburn-wedge/amd64/rewrite_stackless.h:691-708 | The push bytes decode to a push of that register, extended registers included |
| `DeviceStore.PopEncodes` | afterburn-wedge/amd64/rewrite_stackless.h:711-728 | The pop bytes decode to a pop of that register |
| `DeviceStore.MovEncodes` | afterburn-wedge/amd64/rewrite_stackless.h:446-468 | The move bytes decode to a 64-bit register move, with the extended source when asked for |
| `DeviceStore.CallEncodes` | afterburn-wedge/amd64/rewrite_stackless.h:770-776 | The call bytes decode to a relative call by the distance modulo 2^32, sign extended |
| `PatchBuffer.Patcher.PushReg` | afterburn-wedge/amd64/rewrite_stackless.h:691-708 | Appends a push in place and raises the stack offset by a word; earlier bytes stay |
| `PatchBuffer.Patcher.PopReg` | afterburn-wedge/amd64/rewrite_stackless.h:711-728 | Appends a pop in place and lowers the stack offset by a word |
| `PatchBuffer.Patcher.MovRegToReg` | afterburn-wedge/amd64/rewrite_stackless.h:446-468 | Appends a register move in place |
| `PatchBuffer.Patcher.Call` | afterburn-wedge/amd64/rewrite_stackless.h:770-776 | Appends a call whose distance is taken from the address after it |
| `PatchBuffer.Patcher.AppendModrm` | afterburn-wedge/amd64/rewrite_stackless.h:527-597 | Copies SIB and displacement, corrects a stack displacement by the offset (64-bit adds over a 32-bit field included) and rewrites a displacement-free stack operand to an 8-bit one |
| `PatchBuffer.Patcher.LeaModrm` | afterburn-wedge/amd64/rewrite_stackless.h:646-658 | Appends a lea of the original operand |
| `PatchBuffer.Patcher.EmitReplacement` | afterburn-wedge/amd64/rewrite_stackless.cc:913-963 | The in-place emission of saves, shuffle, call and restores writes exactly the specified bytes, leaves every byte behind them as it was, though 64-bit displacement stores reach ahead, and ends with a zero stack offset |
| `PatchBuffer.Patcher.ApplyDeviceStore` | afterburn-wedge/amd64/rewrite_stackless.cc:815-964 | Overwriting the buffer of a store in place leaves exactly the specified replacement between an untouched prefix and an untouched rest, and succeeds if and only if the replacement ends inside the patch area |
| `VmSearch.TestIsOverlap` | l4ka-resourcemon/main.cc:99-125 | The three-clause descriptor test is an overlap test but for blocks that start on a descriptor's last byte |
| `VmSearch.WordTestIff` | l4ka-resourcemon/vm.cc:98-112 | The machine test in word arithmetic is an overlap test if and only if the candidate does not wrap, misses the machine, or wraps past its base |
| `VmSearch.WrappedKipIff` | l4ka-resourcemon/main.cc:99-125 | A wrapped candidate conflicts with exactly the reserved descriptors that start at or below it and end at or above its wrapped end, though they may lie wholly below it |
| `VmSearch.SkipVm` | l4ka-resourcemon/vm.cc:102-117 | Skipping past a machine in the way skips no free place |
| `VmSearch.SkipDesc` | l4ka-resourcemon/vm.cc:119-131 | Skipping past a descriptor in the way skips no free place, and gives up only when none is left |
| `VmSearch.EndsInTimeIff` | l4ka-resourcemon/vm.cc:95-134 | For any memory in use and any size the search, in word arithmetic, is over after 2048 turns or never ends, so that following it that far tells whether and how it ends |
| `VmSearch.SearchRightIff` | l4ka-resourcemon/vm.cc:95-137 | The search ends with the lowest free 4MB-aligned block below the highest physical address, or refuses because there is none, if and only if following it for 2048 turns finds it over without having taken a wrapped candidate whose end looks low enough |
| `VmSearch.EndRightIff` | l4ka-resourcemon/vm.cc:119-137 | A search that has ended is right if and only if it did not accept a wrapped candidate |
| `VmSearch.RoomyRight` | l4ka-resourcemon/vm.cc:95-137 | The search ends with the right answer whenever some place is free, and whenever no candidate behind a machine or descriptor wraps |
| `VmSearch.CaughtNeverEnds` | l4ka-resourcemon/vm.cc:119-131 | A search moved behind a reserved descriptor that also lies above the candidate's wrapped end, the first in the way there, never ends |
| `VmSearch.RequestHangs` | l4ka-resourcemon/vm.cc:95-134 | With the page at 0xFEC00000 reserved and the memory below it in use, a request for 256MB never returns |
| `VmMemory.KipConflict` | l4ka-resourcemon/main.cc:99-125 | Reports a conflict if and only if the test of some reserved descriptor does, for every start and size, with the address after the first such descriptor |
| `VmMemory.VmAllocator.VmConflict` | l4ka-resourcemon/vm.cc:101-116 | The first machine, by number, whose word test reports a conflict, or none |
| `VmMemory.SkipDescriptors` | l4ka-resourcemon/vm.cc:119-131 | The inner loop follows the search machine to the candidate that is clear, moved, or given up |
| `VmMemory.VmAllocator.FindBlock` | l4ka-resourcemon/vm.cc:95-134 | Whenever the search ends, the in-place loops end with its outcome |
| `VmMemory.VmAllocator.InitMm` | l4ka-resourcemon/vm.cc:89-142 | For every size and state in which the call returns: the machine owns the accepted block, or nothing changes and the call fails |
| `VmMemory.VmAllocator.AllocateVm` | l4ka-resourcemon/vm.cc:48-60 | The first machine not in use is taken, none if all are in use |
| `VmMemory.VmAllocator.DeallocateVm` | l4ka-resourcemon/vm.h:411-414 | Only the in-use mark is cleared; the block stays |
| `VmMemory.RoundsToZeroIff` | l4ka-resourcemon/vm.cc:92 | A size rounds up to zero if and only if it is zero or does not fit whole superpages of the address space |
| `VmMemory.IsolationIff` | l4ka-resourcemon/vm.cc:89-142 | Once the monitor has its memory, no two machines have a host address in common in any state of a run of allocate, init_mm and deallocate, if and only if no request overruns when it is made: 2048 turns of its search, followed before the call, do not take an acceptable wrapped candidate |
| `VmMemory.RoomyRunIsolated` | l4ka-resourcemon/vm.cc:89-142 | A run whose requests each find a free place, or no place behind a machine or descriptor that wraps, when they are made keeps the machines isolated in every state |
| `VmMemory.SmallRunIsolated` | l4ka-resourcemon/vm.cc:89-142 | If the largest request fits behind the highest physical address and behind every reserved descriptor, known before the run, every state of the run is isolated and the search for any further request of that size ends |
| `VmMemory.RunKeepsApart` | l4ka-resourcemon/vm.cc:89-142 | As long as no accepted candidate wraps, the machines own pairwise disjoint host blocks inside the address space |
| `VmMemory.RangesStayInside` | l4ka-resourcemon/vm.h:231-240 | In such a run every address between two translated ones stays in the owner's block |
| `VmMemory.RunBreaksIsolation` | l4ka-resourcemon/vm.cc:89-142 | Four requests after which the last machine shares host memory with the third and with the monitor itself |
| `BootModules.ConflictIsOverlap` | l4ka-resourcemon/basics.h:38-57 | The region and fpage tests are overlap tests on non-empty ranges |
| `BootModules.ModulesDisjoint` | l4ka-resourcemon/module_manager.cc:306-320 | Modules of one machine are page-aligned, inside the machine and pairwise disjoint |
| `BootModules.Guest.InstallModule` | l4ka-resourcemon/vm.cc:1000-1062 | A module is accepted if and only if it fits below the ceiling, translates, passes the word tests against binary, KIP and UTCB, a table entry is free and its command line fits; memory changes exactly by the copy of a module that reaches the copy, entered or not |
| `BootModules.Guest.LoadOne` | l4ka-resourcemon/module_manager.cc:308-319 | One turn succeeds if and only if the module is accepted below the others and can be entered; it keeps all earlier modules loaded, also when the module is refused after its copy, and the ceiling the caller computes is the offset the callee used |
| `BootModules.Guest.LoadModules` | l4ka-resourcemon/module_manager.cc:306-320 | The loop succeeds if and only if it reaches the next machine's definition, and else stops at a module that cannot be taken; either way every module before that is in memory, stacked below one another |
| `BootModules.CopyBelowKeeps` | l4ka-resourcemon/vm.cc:1042 | A copy below the ceiling leaves the bytes of all modules above it intact |
| `BootModules.CopyKeeps` | l4ka-resourcemon/vm.cc:1042-1056 | An entered copy adds its own module to them |
| `BootModules.RegionTestIff` | l4ka-resourcemon/basics.h:48-57 | With the end truncated to a word, the region test is right if and only if the range stays below the end of the address space, the area holds its start, or the area lies between wrapped end and start |
| `BootModules.FpageTestIff` | l4ka-resourcemon/basics.h:38-46 | The same for the test against an fpage, with its own exception |
| `BootModules.AcceptedMissesIff` | l4ka-resourcemon/vm.cc:1018-1034 | An accepted module shares no virtual address with binary, KIP or UTCB area if and only if its range does not wrap or the area lies between its wrapped end and its start |
| `BootModules.WrappedModuleOverlaps` | l4ka-resourcemon/vm.cc:1018-1024 | A module that wraps and is accepted on top of the binary |
| `RemapTable.CountsExactIffWithinLimit` | l4ka-resourcemon/pager.cc:356-463 | Over every run, each page's count equals successful requests minus full unmaps throughout if and only if no page ever has 4096 outstanding references |
| `RemapTable.ApplySound` | l4ka-resourcemon/pager.cc:356-463 | Every event keeps live pages in distinct windows of the table with counts that fit their field |
| `RemapTable.Table.Find` | l4ka-resourcemon/pager.cc:361-372 | The search up to the high-water mark finds the page's slot if and only if the page has references |
| `RemapTable.Table.FindFree` | l4ka-resourcemon/pager.cc:374-391 | The scan finds the lowest unused window, or none when all are used, whatever lies past the table |
| `RemapTable.Table.RequestDevice` | l4ka-resourcemon/pager.cc:356-463 | One request: the table represents the specified event, and the returned address is in the page's window at the page offset; a refused mapping falls back to guest memory |
| `RemapTable.Table.GetDevice` | l4ka-resourcemon/pager.cc:476-545 | The second entry point performs the same event and returns zero when it fails |
| `RemapTable.Table.UnmapPage` | l4ka-resourcemon/pager.cc:604-666 | A full unmap drops one reference and frees the slot at zero; the high-water mark still bounds the live slots and never moves down |
| `RemapTable.SharedWindowIffSamePage` | l4ka-resourcemon/pager.cc:356-463 | While counts fit, two requests that are still outstanding share a window if and only if they name the same page |
| `RemapTable.CountLost` | l4ka-resourcemon/pager.cc:356-463 | Requests for one page are counted up to 4095; the 4096th leaves the table without the page, with all 4096 outstanding |
| `RemapTable.LostCountShares` | l4ka-resourcemon/pager.cc:356-463 | A request for another page then gets the same window, though no request has been undone |
| `RemapTable.WindowKept` | l4ka-resourcemon/pager.cc:356-463 | While counts fit, a page keeps its window through any events as long as requests for it are outstanding |
| `Calendar.JulianDayToGregorian` | afterburn-wedge/common/aftertime.cc:56-71 | The step-by-step computation on 32-bit words, for every word: the date it gives is that of the day number if and only if the number is at least 1721060 (year 0) and four times the shifted number fits a word; from year 1 on it is then the valid date with that reference day count |
| `Calendar.WordDateIff` | afterburn-wedge/common/aftertime.cc:56-71 | Otherwise each lost quarter of a word adds 2^30 to the day of the month of the rest, and early years wrap; that this always differs from the date is the other direction |
| `Calendar.FirstWrappedDay` | afterburn-wedge/common/aftertime.cc:56-71 | The first day number past the range comes out as day 1073741825 |
| `Calendar.ToGregorianCounts` | afterburn-wedge/common/aftertime.cc:56-71 | For every day number from 1 January of year 1 the date is valid and its reference day count is that number |
| `Calendar.ToGregorianInverts` | afterburn-wedge/common/aftertime.cc:56-71 | Every valid date is the result for its own day count, so the map is a bijection |
| `Calendar.NextDayNumberIsNextDate` | afterburn-wedge/common/aftertime.cc:56-71 | The next day number is always the calendar successor, through month ends and leap days |
| `Calendar.DayNumberInjective` | afterburn-wedge/common/aftertime.cc:56-71 | Different valid dates have different day counts |
| `Calendar.WeekdayAgrees` | afterburn-wedge/common/aftertime.cc:87-94 | The weekday formula of the converted date equals (day number + 1) mod 7 for every day number in range |
| `ScheduleRuns.StepSafeIff` | l4ka-resourcemon/schedule.cc:648-1291 | From a good state, a message leaves the loop idle beside a runnable context if and only if it is unsound: a yield to a destination that cannot run while another can, or an activation of the activator itself while another can run |
| `ScheduleRuns.RunsKeepInv` | l4ka-resourcemon/schedule.cc:648-1291 | In every run of sound messages the current context is the one at current_idx below num_vms, it is runnable exactly when a thread was dispatched, and the idle branch is taken only when no registered context is runnable |
| `ScheduleRuns.AssertionsHold` | l4ka-resourcemon/schedule.cc:650-891 | What the loop asserts about the sender's or the preempted context's state holds in every such run |
| `ScheduleRuns.YieldCanIdle` | l4ka-resourcemon/schedule.cc:893-927 | A yield to an unregistered destination that idles the processor although another context can run |
| `ScheduleRuns.InitialGood` | l4ka-resourcemon/schedule.cc:477-505 | The boot state satisfies the invariant |
| `ScheduleRuns.ScanStops` | l4ka-resourcemon/schedule.cc:1187-1196 | The scan stops at the cyclically first runnable context after the scheduled one, skipping only contexts that cannot run, or after one full turn |
| `ScheduleRuns.BoundedWaiting` | l4ka-resourcemon/schedule.cc:1187-1196 | In any run, a context that stays runnable is selected within as many reschedules as it is places ahead, hence within num_vms |
| `ScheduleRuns.TimerCadence` | l4ka-resourcemon/schedule.cc:1054-1076 | Over any run, elapsed timer messages equal deliveries times period plus the ticks since the last delivery, which stay below the period; a period of zero acts as one |
| `ScheduleRuns.DeliveriesAfterDelivery` | l4ka-resourcemon/schedule.cc:1054-1076 | Right after a delivery, k timer messages bring k div period more |
| `ScheduleRuns.StepTimes` | l4ka-resourcemon/schedule.cc:979-1076 | Only a timer message moves the clock, and it delivers to a guest exactly when its period is over |
| `ScheduleRuns.YieldEnds` | l4ka-resourcemon/schedule.cc:1054-1076 | A guest that yielded is runnable again within one period of timer messages |
| `ScheduleThreads.PreemptedThreadResumes` | l4ka-resourcemon/schedule.cc:725-741 | In any run, the thread an interrupt preempts is the one that runs when its context is next dispatched, whatever ran in between, unless an event calls for the context's monitor first |
| `ScheduleThreads.EventsReachMonitor` | l4ka-resourcemon/schedule.cc:1252-1268 | In any run, a pending event of a context ceases to be pending only after the context's monitor was dispatched |
| `ScheduleThreads.StepThreads` | l4ka-resourcemon/schedule.cc:648-1291 | A message changes the recorded thread only of a context it concerns, and the loop dispatches a context's recorded thread or its monitor |
| `VirqLoop.Virq.TidToVmIdx` | l4ka-resourcemon/schedule.h:241-263 | The first registered context with that monitor thread, or the table size if there is none |
| `VirqLoop.Virq.SetVmState` | l4ka-resourcemon/schedule.h:167-180 | The context's state moves to last_state and is replaced; no other context changes |
| `VirqLoop.Virq.HandleBlocked` | l4ka-resourcemon/schedule.cc:650-703 | Blocks the current context and hands over to a runnable partner or asks for a reschedule |
| `VirqLoop.Virq.HandlePreemption` | l4ka-resourcemon/schedule.cc:704-811 | Records the preempted thread and classifies the cause as timer, interrupt, notification or own work |
| `VirqLoop.Virq.HandleActivation` | l4ka-resourcemon/schedule.cc:813-891 | Activatee runnable and current, activator blocked, preempter runnable, in the original's order |
| `VirqLoop.Virq.HandleYield` | l4ka-resourcemon/schedule.cc:893-927 | Current context yields, to a destination or to a reschedule |
| `VirqLoop.Virq.HandleTimer` | l4ka-resourcemon/schedule.cc:979-1076 | One tick: every guest whose period is over gets its delivery, and only those change |
| `VirqLoop.Virq.HandleHwirq` | l4ka-resourcemon/schedule.cc:1079-1106 | The handler gets its event, and becomes current if it is here and not blocked |
| `VirqLoop.Virq.SelectNext` | l4ka-resourcemon/schedule.cc:1187-1197 | The in-place scan is the specified round robin |
| `VirqLoop.Virq.Resume` | l4ka-resourcemon/schedule.cc:1201-1289 | The context at current_idx becomes current; its last thread, its monitor when an event is pending, or nothing is dispatched |
| `VirqLoop.Virq.Handle` | l4ka-resourcemon/schedule.cc:625-1291 | One turn of the loop is one step of the specified machine |
| `VirqLoop.Virq.constructor` | l4ka-resourcemon/schedule.cc:477-505 | Boot registers the root task as running and sigma0 as blocked and reaches the initial state of every run |
| `VirqLoop.Virq.RegisterSystemTask` | l4ka-resourcemon/schedule.h:199-238 | A new context behind the registered ones if and only if there is room, and no other changes |
| `Lottery.ProportionalIff` | l4ka-resourcemon/schedule.cc:1115-1178 | Every context wins for exactly as many of the draws as it has tickets if and only if the ticket sum fits a word |
| `Lottery.SecondNeverWins` | l4ka-resourcemon/schedule.cc:1115-1178 | When the tickets of two contexts together outgrow a word, the first wins every draw and the second none |
| `Lottery.TicketsOutgrowWord` | l4ka-resourcemon/schedule.cc:1115-1178 | Two runnable contexts with 33554432 tickets each under the active-power policy: the second can never win |
| `Lottery.OwnerExists` | l4ka-resourcemon/schedule.cc:1160-1178 | Every draw below the ticket sum selects exactly one context, and one that can run |
| `Lottery.SmallSumWins` | l4ka-resourcemon/schedule.cc:1160-1178 | While the sum fits a word, the word-sized draw is won by each context exactly for its tickets |
| `Lottery.EveryRunnableCanWin` | l4ka-resourcemon/schedule.cc:1121-1137 | Under both power policies, while the sum fits a word, every runnable context has a winning draw |
| `Lottery.SumZeroIff` | l4ka-resourcemon/schedule.cc:1121-1184 | Under both power policies the ticket sum is zero if and only if nothing can run |
| `Lottery.WeightedPositive` | l4ka-resourcemon/schedule.cc:1125-1129 | A weighted ticket never wraps to zero, whatever ticket and power are |
| `Lottery.Energy.AssignTickets` | l4ka-resourcemon/schedule.cc:1115-1140 | Recomputes the tickets of runnable contexts in place, leaves the others alone, and sums what is at stake as a word |
| `Lottery.Energy.Draw` | l4ka-resourcemon/schedule.cc:1166-1178 | The in-place draw selects the runnable context at which the running word sum first exceeds it, or none when the sums wrap past it |
| `Lottery.Energy.Select` | l4ka-resourcemon/schedule.cc:1115-1199 | Context 0 if the cap refuses or the word sum is zero, otherwise the context the draw picks, otherwise the last one |
| `CString.CutoffTest` | l4ka-resourcemon/string.cc:159-176 | The cutoff and cutlim comparison fires if and only if the next digit takes the value past ULONG_MAX |
| `CString.ParseDigits` | l4ka-resourcemon/string.cc:161-180 | Consumes exactly the maximal digit run; the accumulator is its value while that fits, and marked as overflown exactly when it does not |
| `CString.Strtoul` | l4ka-resourcemon/string.cc:127-186 | Blanks, sign, base prefix and digits as specified: saturated if and only if the value exceeds ULONG_MAX, otherwise the value, negated modulo 2^32 after a minus sign; stops after the run |
| `Print.Console.Putc` | l4ka-resourcemon/print.cc:58-70 | Appends one character to the text so far, whether or not the buffer is printed first |
| `Print.FindDivisor` | l4ka-resourcemon/print.cc:270-271 | The divisor is the power of ten of the first digit, without 64-bit overflow, and the count is the number of digits |
| `Print.Console.PrintDec` | l4ka-resourcemon/print.cc:262-283 | Appends the decimal numeral, right-adjusted in the field |
| `Print.HexWidth` | l4ka-resourcemon/print.cc:133-138 | The least number of hexadecimal digits that holds the value, at least one |
| `Print.Console.PrintHex` | l4ka-resourcemon/print.cc:123-158 | Appends the padded hexadecimal numeral of at least the given precision |
| `Print.DigitsValue` | l4ka-resourcemon/print.cc:276-280 | The digits of a number have that number as their value |
| `Print.DecimalRoundTrip` | l4ka-resourcemon/string.cc:127-186 | Parsing printed decimals in base 10 or base 0 gives back the value and stops after the last digit, for every value and field width |
| `Print.HexRoundTrip` | l4ka-resourcemon/string.cc:127-186 | Parsing printed hexadecimals in base 16 gives back the value, whatever the width, precision and padding, and stops after the last digit |
| `ModuleOptions.Strlen` | l4ka-resourcemon/string.cc:54-61 | The distance to the terminator |
| `ModuleOptions.Strncmp` | l4ka-resourcemon/string.cc:188-200 | The difference at the first place where the prefixes differ, zero if none |
| `ModuleOptions.Strstr` | l4ka-resourcemon/string.cc:101-118 | The leftmost occurrence, or null if and only if there is none |
| `ModuleOptions.CmdlineOptions` | l4ka-resourcemon/module_manager.cc:338-350 | The first character after the module name and the blanks behind it |
| `ModuleOptions.GetModuleMemsize` | l4ka-resourcemon/module_manager.cc:396-424 | The value of the leftmost mem= option that parses to nonzero, zero if and only if there is none |
| `ModuleOptions.MemApart` | l4ka-resourcemon/module_manager.cc:420 | Occurrences of mem= do not overlap, so resuming behind one skips none |
| `ModuleOptions.ParseSizeOption` | l4ka-resourcemon/module_manager.cc:368-394 | The number after the option's name with its K, M or G factor modulo 2^32, zero if anything but a blank or the end follows |
| `SymbolTree.LookupAgreesIff` | wedge-apps/burn-prof.cc:73-119 | Lookup finds a symbol if and only if a scan does, for every insertion order and address, exactly when each covered address is covered by a symbol with the nearest start |
| `SymbolTree.DisjointStartsSeparable` | wedge-apps/burn-prof.cc:73-119 | That condition holds when no symbol starts strictly inside another, duplicate starts and empty symbols included |
| `SymbolTree.InseparableMisses` | wedge-apps/burn-prof.cc:73-119 | Otherwise some insertion order misses a covered address |
| `SymbolTree.FoundIsSymbol` | wedge-apps/burn-prof.cc:106-119 | What lookup returns is always an added symbol that contains the address |
| `SymbolTree.FindNearest` | wedge-apps/burn-prof.cc:106-119 | A matching symbol with the nearest start is never missed in an ordered tree |
| `SymbolTree.InsertOrdered` | wedge-apps/burn-prof.cc:73-104 | Insertion keeps smaller starts to the left, equal and larger ones to the right |
| `SymbolTree.MatchIsRange` | wedge-apps/burn-prof.cc:58-62 | The truncated match test is the range test if and only if the range ends inside the address space or is empty |
| `SymbolTree.Hang` | wedge-apps/burn-prof.cc:85-104 | The descent links the new node at its place and changes no other link |
| `SymbolTree.SymTable.AddSym` | wedge-apps/burn-prof.cc:73-104 | The linked nodes represent the tree with the symbol inserted |
| `SymbolTree.SymTable.Lookup` | wedge-apps/burn-prof.cc:106-119 | The iterative descent computes the tree lookup |
| `CpuLock.MutualExclusion` | l4ka-resourcemon/sync.h:210-287 | For any number of threads and any interleaving, at most one thread is inside; the word is then that thread's and not the free word, and it is free when nobody is inside |
| `CpuLock.ExclusionIff` | l4ka-resourcemon/sync.h:158-182 | Two threads exclude each other in every run if and only if neither packs to the free word |
| `CpuLock.LooksFreeBreaks` | l4ka-resourcemon/sync.h:158-182 | The run that lets both in otherwise |
| `CpuLock.HeldWordDecodes` | l4ka-resourcemon/sync.h:127-139 | While a thread is inside, the word decodes to exactly that thread and processor |
| `CpuLock.RoundTripIff` | l4ka-resourcemon/sync.h:102-151 | Packing loses nothing if and only if version and processor fit 7 bits and the thread number 18 |
| `CpuLock.FreeIff` | l4ka-resourcemon/sync.h:142-151 | Only thread number 0 with version 0 on processor 127 packs to the free word, all modulo the field widths |
| `CpuLock.FreedLockEndsSpinIff` | l4ka-resourcemon/sync.h:252-268 | A waiting thread notices a freed lock if and only if it does not wait for processor 127 |
| `CpuLock.Lock.IsLocked` | l4ka-resourcemon/sync.h:205-208 | Always true: a 7-bit field is compared with a full word |
| `CpuLock.Lock.Trylock` | l4ka-resourcemon/sync.h:159-175 | Exchanges the free word for the thread's own exactly when the lock is free and reports the previous owner either way |
| `CpuLock.Lock.LockTurn` | l4ka-resourcemon/sync.h:233-272 | One turn of the lock loop on the real word is the attempt step of the interleaving model |
| `CpuLock.Lock.SpinTurn` | l4ka-resourcemon/sync.h:252-269 | One look of a waiting thread is its step of the model |
| `CpuLock.Lock.Unlock` | l4ka-resourcemon/sync.h:280-287 | Releasing is the leaving step of the model |
| `CpuLock.Lock.Release` | l4ka-resourcemon/sync.h:177-182 | Leaves the free word |

## Left out

- Other rewriter opcodes, flags, and the other rewriting passes: most are marked unimplemented or keep 32-bit sizes.
- Byte-wise overlap of stack slots: the machine's memory is addressed by aligned 64-bit words.
- VmMemory.VmAllocator.FindBlock: requires that the search ends, since otherwise the original never returns; `VmSearch.EndsInTimeIff` says when that is.
- VmMemory.VmAllocator.InitMm: requires that the call returns, as above; the shadowing of special memory and the clearing of the block are not modelled.
- BootModules.Guest.InstallModule: the client's shared page is present, and whether the substituted command line fits is a parameter.
- RemapTable.Table.RequestDevice: sigma0's answer and the translation of the fake page are parameters; access rights are not modelled.
- Page-fault handling of the pager outside the remap table.
- gregorian_to_julian_day, whose unsigned month arithmetic wraps for every month, and unix_to_gregorian: a reference day count is the inverse instead.
- VirqLoop.Virq.Handle: translation of local thread ids, stored preemption messages, schedulers of threads, start and migration messages, and tick wrap-around at 2^64 are not modelled.
- VirqLoop.Virq.TidToVmIdx: the translation of local thread ids to global ones is not modelled.
- VirqLoop.Virq.RegisterSystemTask: the failure of the kernel's scheduling call is not modelled.
- VirqLoop.Virq.HandleTimer: energy accounting and the guest's pending-interrupt bits are not modelled.
- Lottery.Energy.Select: the two random numbers are parameters; a power of 2^32 - 1, which makes the original divide by zero, is given a cap of zero.
- Registration of guests, unregistration and migration of contexts during a run, and asynchronous starts of threads.
- CpuLock.Lock.Trylock: the compare-and-exchange is one atomic step; memory ordering and time donation are not modelled.
- Print.Console.PrintHex: the precision is at most 8, since the original shifts a 32-bit word by the number of bits printed.
- Energy log parsing, performance counters, ACPI, console input, profiling dumps, debug output, IDL stubs.
