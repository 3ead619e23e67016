# Verification of the host side of the emulated console

This project models the code that keeps state for the guest - the kernel dispatcher, the guest
heap, the profile table and the GPU's command processor - with the texture swizzle, the disc
image parser, and the launcher, installer and recompiler tools around them, and proves what
that code promises. `dafny verify dfyconfig.toml` checks everything.

| file | what it holds |
|---|---|
| `Words.dfy`, `Bits.dfy` | machine words, keys of sorted maps, bitwise operations, facts about remainders |
| `GuestHeap.dfy` | the allocator as a function of its state, its canonical form, and the allocator in place |
| `GuestProfile.dfy` | the lock-free profile table as interleaved atomic steps |
| `Dispatcher.dfy` | events, semaphores, waits and suspended threads as a state machine |
| `Wakeups.dfy` | when a thread can oversleep, and how many waits a signal ends |
| `Counts.dfy` | what semaphores and suspended threads count |
| `Events.dfy` | what each call does to events and waits |
| `DispatcherService.dfy` | its service calls on maps that are updated in place |
| `FetchBanks.dfy` | the fetch constant classifier behind the GPU's registers |
| `GuestMemory.dfy` | big-endian guest memory and the GPU's endian modes |
| `Pm4.dfy` | the two packet decoders, written out apart |
| `Packets.dfy` | where the operands of packets end up |
| `PacketMeaning.dfy` | what a packet does, from its header on, in both decoders |
| `PacketOutcomes.dfy` | each opcode's effect in numbers, and streams packet by packet |
| `RingStream.dfy` | where the decoders agree, and where they part |
| `Unseen.dfy`, `CommandMemory.dfy` | what packets do not read, and streams that leave their commands alone |
| `Doorbells.dfy` | how streams are cut into doorbells |
| `Laps.dfy` | streams longer than the ring |
| `CommandProcessor.dfy` | the decoders on fields and arrays that are updated in place |
| `Tiling.dfy`, `LogoTexture.dfy` | the texture swizzle and the installer's logo reader |
| `Xdvdfs.dfy`, `XboxMedia.dfy` | directory trees of disc images, paths and open files |
| `CommandLine.dfy`, `Settings.dfy` | the launcher's command line and the settings file |
| `Boundaries.dfy` | merging and splitting of function boundaries |

Results that a reader of the code might not expect:

- A heap request for no bytes, which only RtlReAllocateHeap passes on, breaks the heap's form
  and can hand out an address twice; the form is kept if and only if the size is not 0.
- RtlReAllocateHeap releases the old block also when it found no new one.
- A waiter that drew a ticket before its event turned manual-reset can sleep through a signal, if
  and only if another ticket was queued with it.
- A vertex constant that starts exactly where an interrupted texture constant would go on is
  written among the texture descriptors.
- GPU endian mode 3 is the same permutation of bytes as mode 2.
- A backward branch between pieces is repaired by the merge tool only where forward branches
  happen to bridge it, against the tool's comment.
- White space that Qt strips and the launcher does not can cost a settings line; for every file
  the condition is exact, also where a later line hides what happens to an earlier one.
- A zero header is padding in a buffer and a register write in the ring; a shader inside its
  packet is loaded from a buffer only.
- The ring's read pointer, written back between two doorbells, can reach a register.
- A second drive letter in a path survives normalising and makes the result not normal.

Inputs from outside are parameters: the rasteriser is a function from the GPU's state to new
memory and an opaque screen, the microcode hash a function of the microcode's bytes, files and images are byte
sequences, and lines that the tools match with regular expressions are already classified.

## Model

| member | source | states |
|---|---|---|
| HeapModel.GuestHeapAllocationSize | XerengeRuntime/src/guest_heap_bounds.h:5-12 | The 64-bit check is exact: a size comes back if and only if the rounded request fits between cursor and limit, and it is the least multiple of 16 that is not below the request. |
| HeapModel.AllocateOutcome | XerengeRuntime/src/main.cpp:4644-4680 | On every canonical heap and request of at least one byte: it fails exactly when no free block fits and the cursor has no room, and then changes nothing; otherwise it takes the first fitting block or the cursor, and the heap stays canonical. |
| HeapModel.PhysicalOutcome | XerengeRuntime/src/main.cpp:4553-4563 | A physical request, in numbers: the cursor goes to the next multiple of 0x1000 first and what it skips is a gap, whatever becomes of the request; it fails exactly when no free block fits and that page has no room below 0x80000000; a free block that fits is first fit, at any address, and otherwise the block is the page. |
| HeapModel.FirstAddresses | XerengeRuntime/src/main.cpp:4553-4563 | 16 bytes and then a page on the empty heap get 0x60000000 and 0x60001000. |
| HeapModel.AllocationInside | XerengeRuntime/src/main.cpp:4644-4680 | Every block handed out lies between the heap's base and its limit, also for size 0. |
| HeapModel.ZeroSizeBreaksForm | XerengeRuntime/src/main.cpp:4644-4680 | A request for no bytes always succeeds and always breaks the tiling. |
| HeapModel.AllocateKeepsFormIff | XerengeRuntime/src/main.cpp:4644-4680 | Allocation keeps the canonical form if and only if the size is not 0. |
| HeapModel.ZeroSizeSharesAddress | XerengeRuntime/src/main.cpp:4644-4680 | A run in which a request for no bytes and the request after it get the same address, and the second leaves no record of its size. |
| HeapModel.TilesCover | XerengeRuntime/src/main.cpp:4656-4664 | Live blocks, free blocks and alignment gaps cover every byte below the cursor exactly once. |
| HeapModel.Predecessor | XerengeRuntime/src/main.cpp:4685-4723 | Every block but the first starts where another one ends. |
| HeapModel.FreeBytes | XerengeRuntime/src/main.cpp:4685-4723 | A byte is free if and only if it is below the cursor and neither live nor in a gap. |
| HeapModel.CanonicalFormUnique | XerengeRuntime/src/main.cpp:4685-4723 | Live blocks and gaps determine cursor and free map: the free map is the maximal free runs. |
| HeapModel.PageAlignCanonical | XerengeRuntime/src/main.cpp:4553-4563 | Rounding the cursor to a page keeps the form and the live and free maps; what it skips is a gap for good. |
| HeapModel.RetractCanonical | XerengeRuntime/src/main.cpp:4694-4702 | Giving free blocks at the top back to the cursor restores the canonical form. |
| HeapModel.CoalesceCanonical | XerengeRuntime/src/main.cpp:4706-4722 | Two-sided coalescing restores the canonical form. |
| HeapModel.ReleaseCanonical | XerengeRuntime/src/main.cpp:4685-4723 | Releasing any address keeps the canonical form and removes exactly that block from the live ones. |
| HeapModel.AllocateReleaseRestores | XerengeRuntime/src/main.cpp:4644-4723 | Allocating and releasing again restores the exact cursor and free map. |
| HeapModel.ZeroSizeReleased | XerengeRuntime/src/main.cpp:4644-4723 | Releasing the block of a request for no bytes repairs the heap it broke. |
| HeapModel.ReleasesCommute | XerengeRuntime/src/main.cpp:4685-4723 | Any two releases commute. |
| HeapModel.ReleaseAll | XerengeRuntime/src/main.cpp:4685-4723 | Releasing everything in any two orders gives the same heap, and the empty one if no page alignment left a gap. |
| HeapModel.ReallocateKeepsFormIff | XerengeRuntime/src/main.cpp:3392-3407 | RtlReAllocateHeap keeps the form if and only if the size is not 0 or the new block is the released one. |
| HeapModel.ReallocateKeepsOthers | XerengeRuntime/src/main.cpp:3392-3407 | For every size, 0 included, every other live block survives a reallocation and is apart from the new block. |
| HeapModel.ReallocateApart | XerengeRuntime/src/main.cpp:3392-3407 | For every size old and new block do not overlap, so copying between them is well defined. |
| HeapModel.ReallocateOutcome | XerengeRuntime/src/main.cpp:3392-3407 | A reallocation fails exactly when no free block fits and the cursor has no room, with the old block still in place; otherwise the new block is first fit or the cursor; the old block is gone either way and nothing else that is live changes. |
| HeapModel.CallKeepsFormIff | XerengeRuntime/src/main.cpp:4644-4723 | Every allocation, physical allocation, release and reallocation keeps the canonical form if and only if it asks for at least one byte, or is a reallocation to no bytes that gives its own new block straight back. |
| HeapModel.RunCanonicalIff | XerengeRuntime/src/main.cpp:4644-4723 | Every run of these calls keeps the heap canonical after each call if and only if every call of it is of that kind. |
| HeapModel.HistoryIndependence | XerengeRuntime/src/main.cpp:4644-4723 | Two runs of such calls, reallocations among them, that end with the same live blocks and gaps end with the same heap. |
| GuestHeapService.GuestHeap.FindBlock | XerengeRuntime/src/main.cpp:4656-4660 | The loop over the free map finds the first block in address order that fits, or there is none. |
| GuestHeapService.GuestHeap.Reserve | XerengeRuntime/src/main.cpp:4644-4680 | The in-place bookkeeping refines HeapModel.Allocate. |
| GuestHeapService.GuestHeap.Allocate | XerengeRuntime/src/main.cpp:4644-4680 | Allocation clears exactly the bytes of the block it hands out, if asked to, and no others. |
| GuestHeapService.GuestHeap.AllocatePhysical | XerengeRuntime/src/main.cpp:4553-4563 | A physical allocation aligns first, clears nothing. |
| GuestHeapService.GuestHeap.RetractCursor | XerengeRuntime/src/main.cpp:4694-4702 | The loop at the top of the heap refines HeapModel.Retract. |
| GuestHeapService.GuestHeap.Release | XerengeRuntime/src/main.cpp:4685-4723 | The in-place release refines HeapModel.Release and keeps the form. |
| GuestHeapService.GuestHeap.Reallocate | XerengeRuntime/src/main.cpp:3392-3407 | The first min(old, new) bytes are those of the old block, the rest of the new block is zero, and no byte outside it changes; the old block is released whether or not a new one was found. |
| GuestProfile.OneSlot | XerengeRuntime/src/main.cpp:460-483 | In every reachable state an address owns at most one slot. |
| GuestProfile.EmptyMeansUnowned | XerengeRuntime/src/main.cpp:460-483 | An empty slot that a probe reaches proves that the address owns no slot anywhere. |
| GuestProfile.AllOrNone | XerengeRuntime/src/main.cpp:460-483 | For each address either all completed calls were counted or none was. |
| GuestProfile.FireKeepsInv | XerengeRuntime/src/main.cpp:460-483 | Each atomic step - load, late load, compare-exchange, reload, add, or a read by total - keeps the table's invariant, whichever thread takes it. |
| GuestProfile.RunKeepsInv | XerengeRuntime/src/main.cpp:460-483 | Every interleaving of any number of threads keeps it. |
| GuestProfile.FireConserves | XerengeRuntime/src/main.cpp:460-483 | Each step keeps the balance: calls started are counted, dropped or still under way. |
| GuestProfile.RunConserves | XerengeRuntime/src/main.cpp:460-483 | Every interleaving keeps the balance. |
| GuestProfile.AnyInterleaving | XerengeRuntime/src/main.cpp:460-483 | From the empty table, for every interleaving, with loads that may see earlier values: finished calls are all counted or all dropped, each is accounted for, and no total exceeds the number counted at that moment; where loads see the latest values each total is exact. |
| GuestProfile.WaitFree | XerengeRuntime/src/main.cpp:460-483 | Under every interleaving, late loads included, a call of record is over after at most 25 own steps that see the latest values, and a call of total after 9: no other thread can hold it up. |
| GuestProfile.RecordRuns | XerengeRuntime/src/main.cpp:460-483 | A thread inside record that alone takes steps is idle after at most 25 of them; its call is counted, once, if one of the eight slots is empty or its own, and dropped exactly when all of them belong to others. |
| GuestProfile.TotalAlone | XerengeRuntime/src/main.cpp:566-579 | A thread inside total that alone takes steps is idle after at most 9 of them, having seen the number of counted calls of its address. |
| GuestProfile.SlotsOfInstructions | XerengeRuntime/src/main.cpp:460-483 | The eight slots of an address are consecutive, from a quarter of it on, modulo the size of the table; the slots of neighbouring instructions begin next to each other. |
| GuestProfile.OwnedForever | XerengeRuntime/src/main.cpp:460-483 | Over every interleaving a taken slot stays its address's only place in the table, and its count never falls. |
| GuestProfile.Total | XerengeRuntime/src/main.cpp:566-579 | The scan returns the number of counted calls of the address. |
| Dispatcher.FireKeepsInv | XerengeRuntime/src/main.cpp:2371-2591 | Every service call and every recheck or timeout keeps the invariant: ticket queues increase, each queued ticket has its waiter, and no waiter whose wait is satisfied sleeps. |
| Dispatcher.SatisfyKeepsInv | XerengeRuntime/src/main.cpp:2518-2545 | Consuming a signal and leaving the queue keeps it, whoever was first. |
| Dispatcher.RunKeepsInv | XerengeRuntime/src/main.cpp:2371-2591 | Every run keeps it. |
| Dispatcher.EveryRun | XerengeRuntime/src/main.cpp:2371-2609 | Every run from the start of the machine satisfies it. |
| Dispatcher.NoLostWakeup | XerengeRuntime/src/main.cpp:2385-2418 | If an auto-reset event is signalled and its queue is not empty, the first in line is awake. |
| Dispatcher.NoLostCount | XerengeRuntime/src/main.cpp:2405-2418 | Nobody sleeps on a semaphore with a count, or without a ticket on a signalled event. |
| Dispatcher.FrontTakesSignal | XerengeRuntime/src/main.cpp:2518-2545 | When the first in line looks, it takes the signal, leaves, and is served next. |
| Dispatcher.OthersStandBack | XerengeRuntime/src/main.cpp:2405-2418 | Anyone else in line goes back to sleep and changes nothing else. |
| Dispatcher.ServedInOrder | XerengeRuntime/src/main.cpp:2385-2418 | Over a whole run tickets are served in the order they were drawn, before all that still wait. |
| Dispatcher.OneReleasePerSignal | XerengeRuntime/src/main.cpp:2518-2545 | What the record of an event takes and clears never exceeds its rises; Wakeups.ReleasesWithinRises ties it to the waits that end. |
| Dispatcher.TurnedManualLosesWakeup | XerengeRuntime/src/main.cpp:2076-2088 | A run in which an event adopts its manual-reset mode after two tickets were drawn, and one waiter then sleeps on a signalled event for good: why the invariant excepts exactly those waiters. |
| Wakeups.TurnsExact | XerengeRuntime/src/main.cpp:2076-2088 | Which calls make a manual-reset event of one that was not, by their arguments: exactly those after which it is one and before which it was not. |
| Wakeups.EveryCalmRun | XerengeRuntime/src/main.cpp:2371-2609 | In every run from the start in which no event turns manual-reset above two tickets or more, no thread sleeps whose wait is satisfied, in any mode and with any ticket. |
| Wakeups.LosesIff | XerengeRuntime/src/main.cpp:2405-2418 | From a state in which nobody oversleeps, some such run reaches one in which somebody does if and only if a manual-reset event has two tickets queued. |
| Wakeups.TurnLosesIff | XerengeRuntime/src/main.cpp:2076-2088 | A call that turns an event manual-reset, by its header, by creating it anew or by the end of a thread, can leave a ready thread asleep if and only if at least two tickets are queued for the event at that moment. |
| Wakeups.SatisfyReleases | XerengeRuntime/src/main.cpp:2518-2545 | A wait that ends by the signal of an auto-reset event takes the event from signalled to unsignalled. |
| Wakeups.RunTold | XerengeRuntime/src/main.cpp:2518-2545 | Over every run the record kept of an event counts the single-object waits that its signal ended and the times it became signalled. |
| Wakeups.ReleasesWithinRises | XerengeRuntime/src/main.cpp:2518-2545 | In every run the single-object waits that an event's signal ended, the times it was cleared otherwise, and the signal still standing add up to the times it became signalled. |
| Counts.FireMoves | XerengeRuntime/src/main.cpp:2316-2329 | Every call moves the count of a semaphore by what it gives, a release max(adjustment, 1) but no more than the limit leaves room for, less one if it ends a wait on it. |
| Counts.AcquiresEnds | XerengeRuntime/src/main.cpp:2405-2418 | A thread's look at a semaphore ends its wait if and only if there is a count. |
| Counts.LimitFollows | XerengeRuntime/src/main.cpp:2316-2329 | A limit is at least 1 and stays from creation until the handle is closed. |
| Counts.CountsBalance | XerengeRuntime/src/main.cpp:2518-2545 | Over every run, the waits that a semaphore ended and its count now are its count before and what the calls gave. |
| Counts.RunStaysNatural | XerengeRuntime/src/main.cpp:2592-2609 | Over every run no count falls below 0, if every semaphore was created with a natural one. |
| Counts.EveryCount | XerengeRuntime/src/main.cpp:2316-2609 | From the start: what a semaphore was given at creation and by releases, it has or has let waits through with. |
| Counts.AtMostCount | XerengeRuntime/src/main.cpp:2518-2545 | Until the next release a semaphore ends at most as many waits as its count. |
| Counts.GateMoves | XerengeRuntime/src/main.cpp:3962-3975 | Suspending adds one to a thread's count, resuming takes one off unless it is 0, and no other call but a new thread and a resume of all moves it. |
| Counts.GateStarts | XerengeRuntime/src/main.cpp:2341-2361 | A new thread's count is one if it is created suspended and 0 if not; a resume of all makes every count 0. |
| Counts.SuspensionsHold | XerengeRuntime/src/main.cpp:2341-2361 | Over every run a thread that was suspended more often than it was resumed stays held back. |
| Counts.StartsWhenOpen | XerengeRuntime/src/main.cpp:4576-4585 | A new thread goes on at its look if and only if its count is 0. |
| Events.FireFollows | XerengeRuntime/src/main.cpp:2371-2591 | What each call does to each event, with nothing named but its flag, its kind and its queue: which calls set, reset, make or forget it, which headers settle its kind, and which looks take its signal - those of a thread that is first in line, or of any thread if it is manual-reset, which then keeps it. |
| Events.TakesFollows | XerengeRuntime/src/main.cpp:4149-4219 | A wait for several events takes the signal of the first that is signalled in handle order, and of none unless all are if it waits for all. |
| Events.WaitsFollow | XerengeRuntime/src/main.cpp:2385-2418 | After each call, which threads wait and which of them are awake: a look ends the wait or puts the thread to sleep, a timeout ends it, and every call that may have set a signal wakes all. |
| DispatcherService.KernelDispatcher.AdoptInlineEventResetMode | XerengeRuntime/src/main.cpp:2076-2088 | Adopting a reset mode in place refines Dispatcher.Adopt. |
| DispatcherService.KernelDispatcher.IsReady | XerengeRuntime/src/main.cpp:2405-2418 | The readiness test looks at the front of the queue, or at the semaphore's count. |
| DispatcherService.KernelDispatcher.EraseTicket | XerengeRuntime/src/main.cpp:2389-2396 | The search erases exactly the first occurrence of the ticket. |
| DispatcherService.KernelDispatcher.QueueUp | XerengeRuntime/src/main.cpp:2398-2404 | A known auto-reset event hands out a new ticket at the back of its queue; other objects hand out none. |
| DispatcherService.KernelDispatcher.Finish | XerengeRuntime/src/main.cpp:2518-2545 | A satisfied wait consumes the signal or count, and its ticket leaves the queue. |
| DispatcherService.KernelDispatcher.BeginWait | XerengeRuntime/src/main.cpp:2371-2460 | A wait in place is the step of the machine, and keeps its invariant. |
| DispatcherService.KernelDispatcher.Expire | XerengeRuntime/src/main.cpp:2483-2591 | A wait times out if and only if it is not ready at its last look; either way the invariant holds. |
| DispatcherService.KernelDispatcher.SetOrReset | XerengeRuntime/src/main.cpp:2557-2578 | Setting and resetting return the previous state and are the steps of the machine. |
| DispatcherService.KernelDispatcher.ClearEvent | XerengeRuntime/src/main.cpp:2579-2591 | So is clearing. |
| DispatcherService.KernelDispatcher.CreateEvent | XerengeRuntime/src/main.cpp:2282-2315 | So is creating an event. |
| DispatcherService.KernelDispatcher.CreateSemaphore | XerengeRuntime/src/main.cpp:2316-2329 | So is creating a semaphore, whose limit is at least 1. |
| DispatcherService.KernelDispatcher.ReleaseSemaphore | XerengeRuntime/src/main.cpp:2592-2609 | Releasing adds at least one count up to the limit, returns the previous count and wakes all. |
| DispatcherService.KernelDispatcher.WaitMultiple | XerengeRuntime/src/main.cpp:4149-4219 | The loop over the handles takes the first signal in handle order, past any queue, returns its position, and times out if and only if no signal stands or, for a wait for all, one is missing; the invariant is kept. |
| DispatcherService.KernelDispatcher.CloseHandle | XerengeRuntime/src/main.cpp:2968-2978 | Closing forgets the object and keeps the invariant. |
| DispatcherService.KernelDispatcher.SuspendThread | XerengeRuntime/src/main.cpp:3962-3975 | Suspending counts up and returns the previous count. |
| DispatcherService.KernelDispatcher.ResumeThread | XerengeRuntime/src/main.cpp:2341-2361 | Resuming counts down to 0, returns the previous count and wakes all that wait to start. |
| DispatcherService.KernelDispatcher.RecheckStart | XerengeRuntime/src/main.cpp:4576-4585 | A new thread starts if and only if nothing holds it back, and then its gate is gone. |
| DispatcherService.KernelDispatcher.ExitThread | XerengeRuntime/src/main.cpp:4628-4637 | A finished thread's handle is signalled for good and everyone is woken. |
| FetchBanks.Write | XerengeRuntime/src/xenos_gpu.cpp:1367-1417 | Every write keeps the banks' sizes and the pending fields in range. |
| FetchBanks.WriteKeepsPending | XerengeRuntime/src/xenos_gpu.cpp:1367-1417 | A pending texture constant always expects a register inside the window, at the position its remaining words say. |
| FetchBanks.AccessFollows | XerengeRuntime/src/xenos_gpu.cpp:1367-1417 | One word of a well-formed upload is routed to its own bank and moves the classifier to the next word. |
| FetchBanks.UploadsFollow | XerengeRuntime/src/xenos_gpu.cpp:1367-1417 | Any run of complete uploads from a settled state fills each bank as if it were written alone. |
| FetchBanks.BanksIndependent | XerengeRuntime/src/xenos_gpu.cpp:1367-1417 | The same from every state the classifier can be in, unless the next upload starts exactly where an interrupted texture constant would continue. |
| FetchBanks.TexturesNeverCollide | XerengeRuntime/src/xenos_gpu.cpp:1371-1398 | A texture upload never starts there. |
| FetchBanks.VertexRouted | XerengeRuntime/src/xenos_gpu.cpp:1371-1413 | Where a vertex upload does start there, both words land among the texture descriptors; otherwise both reach the vertex bank. |
| FetchBanks.VertexRoutedIff | XerengeRuntime/src/xenos_gpu.cpp:1371-1413 | A vertex upload is routed as intended if and only if it does not collide, or both banks held its words already. |
| FetchBanks.WriteRoutes | XerengeRuntime/src/xenos_gpu.cpp:1367-1417 | Every register write changes one word of the one bank it is sent to. |
| FetchBanks.RunRoutedIff | XerengeRuntime/src/xenos_gpu.cpp:1367-1417 | From every state, every word of a run of complete uploads is sent to its own bank if and only if the run does not begin, behind plain writes, where an interrupted texture constant would go on. |
| FetchBanks.CollisionReachable | XerengeRuntime/src/xenos_gpu.cpp:1371-1398 | Two writes from the clear state reach such a collision: the vertex constant of pair 1 lands among the texture descriptors. |
| FetchBanks.VertexUploadsKeepRegisters | XerengeRuntime/src/xenos_gpu.cpp:1400-1413 | Vertex uploads that are written alone leave every texture descriptor as it was. |
| FetchBanks.RegisterFile.WriteGpuRegister | XerengeRuntime/src/xenos_gpu.cpp:1367-1417 | The write on the arrays and pending fields refines FetchBanks.Write. |
| GuestMemory.SwapTwice | XerengeRuntime/src/xenos_gpu.cpp:1106-1123 | Every endian mode undoes itself on every word. |
| GuestMemory.EndianModesCoincide | XerengeRuntime/src/xenos_gpu.cpp:1113-1119 | Mode 3 swaps half words and then bytes, which is mode 2. |
| GuestMemory.LoadAfterStore | XerengeRuntime/src/xenos_gpu.cpp:1093-1104 | A stored word reads back. |
| GuestMemory.LoadApartFromStore | XerengeRuntime/src/xenos_gpu.cpp:1093-1104 | Stores leave every word that does not overlap alone. |
| GuestMemory.BigEndian | XerengeRuntime/src/xenos_gpu.cpp:1093-1104 | The byte at a word's address is its most significant one. |
| GuestMemory.EndianBytes | XerengeRuntime/src/xenos_gpu.cpp:1106-1123 | Mode 0 leaves the bytes of a word, mode 1 swaps them in pairs, modes 2 and 3 reverse them. |
| Pm4.EventSeen | XerengeRuntime/src/xenos_gpu.cpp:1128-1171 | A wait reads the value that an event wrote - at the event's address unless its two host cells shadow it, and in the mirror page for every event of the mirrored page. |
| Pm4.RememberStrides | XerengeRuntime/src/xenos_gpu.cpp:1458-1481 | On any microcode the active fetch constant stays one whose two words exist. |
| Pm4.SetRegister | XerengeRuntime/src/xenos_gpu.cpp:1367-1417 | A register write keeps every range of the GPU state and the memory. |
| Pm4.WriteEvent | XerengeRuntime/src/xenos_gpu.cpp:1152-1171 | An event keeps every range. |
| Pm4.BufferPacket | XerengeRuntime/src/xenos_gpu.cpp:3173-3572 | Any packet, also a truncated one, keeps every register, bank, stride and counter index in range. |
| Pm4.BufferRun | XerengeRuntime/src/xenos_gpu.cpp:3163-3576 | The loop ends on every memory and keeps all ranges. |
| Pm4.ProcessBuffer | XerengeRuntime/src/xenos_gpu.cpp:3157-3577 | Decoding ends on every guest memory, with buffers that call themselves, by depth and then remaining dwords, keeps all ranges, and does nothing beyond depth 8 or 2^22 dwords. |
| Pm4.RingPacket | XerengeRuntime/src/xenos_gpu.cpp:3643-3897 | Any packet of the ring keeps all ranges. |
| Pm4.RingRun | XerengeRuntime/src/xenos_gpu.cpp:3641-3904 | So does draining the ring. |
| Packets.WritesFill | XerengeRuntime/src/xenos_gpu.cpp:3177-3186 | A run of register writes outside the fetch window puts each operand into its own register and changes nothing else. |
| Packets.CopiesFill | XerengeRuntime/src/xenos_gpu.cpp:3242-3245 | So does a run that is loaded from guest memory. |
| Packets.SetConstantFills | XerengeRuntime/src/xenos_gpu.cpp:3194-3219 | A complete constant packet fills exactly the registers its first operand names with the operands after it. |
| Packets.PacketWritesRun | XerengeRuntime/src/xenos_gpu.cpp:3177-3186 | A packet that carries a run of uploads does to the banks what the run does. |
| Packets.UploadPacketRouted | XerengeRuntime/src/xenos_gpu.cpp:3194-3219 | A packet of complete uploads leaves each bank as if it were written alone, in the same cases as BanksIndependent. |
| Packets.ModifiesBits | XerengeRuntime/src/xenos_gpu.cpp:3255-3265 | Each bit of a modified register is set if and only if the register and the mask had it, or the second operand has it. |
| Packets.DrawSeesOperands | XerengeRuntime/src/xenos_gpu.cpp:3473-3489 | The rasteriser sees the initiator of a complete indexed draw, and its index buffer if the draw reads one, and nothing else has changed. |
| PacketMeaning.Type3Means | XerengeRuntime/src/xenos_gpu.cpp:3187-3572 | From its header word on, what any packet of type 3 does by either decoder, also one that is cut off, is what its opcode says of its list of dwords, with every address, register and bound as a number; nothing of the decoders' own is named. |
| PacketMeaning.Type0Means | XerengeRuntime/src/xenos_gpu.cpp:3174-3186 | A packet of type 0 writes its operands to consecutive registers from bits 0 to 14 of its header, or all to the one if bit 15 is set. |
| PacketMeaning.StoresMean | XerengeRuntime/src/xenos_gpu.cpp:3267-3280 | A memory write stores as many words as its header says, one after the other. |
| PacketMeaning.OwnShaderMeans | XerengeRuntime/src/xenos_gpu.cpp:3328-3400 | A shader in a packet of a buffer begins at its fourth dword and is used if the packet is long enough for it. |
| PacketOutcomes.SetsRegisters | XerengeRuntime/src/xenos_gpu.cpp:3192-3219 | 0x55 and 0x56 fill the registers from the low 16 bits of their first operand on, and nothing else. |
| PacketOutcomes.SetsConstants | XerengeRuntime/src/xenos_gpu.cpp:3199-3219 | 0x2D fills registers from 0x4000, 0x4800, 0x4900, 0x4908 or 0x2000 on, by the bank in bits 16 to 23 of its first operand and the 11 low bits, and does nothing for other banks. |
| PacketOutcomes.SetsFetchConstants | XerengeRuntime/src/xenos_gpu.cpp:3199-3219 | A packet for bank 1 whose words are complete fetch constants leaves each bank as if it were written alone, in the same cases as BanksIndependent. |
| PacketOutcomes.LoadsConstants | XerengeRuntime/src/xenos_gpu.cpp:3220-3245 | 0x2F fills the same registers with words of guest memory from 0x60000000 plus the low 29 bits of its address on; its check for registers beyond 0x7FFF never fails. |
| PacketOutcomes.ModifiesRegister | XerengeRuntime/src/xenos_gpu.cpp:3247-3265 | 0x21 keeps, of one register below 0x2000, the bits of its mask and adds those of its second operand; bits 31 and 30 say which of the two are registers themselves. |
| PacketOutcomes.RunsToRegisters | XerengeRuntime/src/xenos_gpu.cpp:3174-3186 | A packet of type 0 without bit 15 fills consecutive registers. |
| PacketOutcomes.RunsToRegister | XerengeRuntime/src/xenos_gpu.cpp:3174-3186 | With bit 15 its last operand ends up in the one register. |
| PacketOutcomes.StoresWords | XerengeRuntime/src/xenos_gpu.cpp:3267-3280 | After 0x3D each of its words is read back, in the endian mode of the address, from 0x60000000 plus the low 29 bits of consecutive addresses, and no word elsewhere has changed, if the packet's own dwords lie elsewhere. |
| PacketOutcomes.StoresNothing | XerengeRuntime/src/xenos_gpu.cpp:3267-3268 | A memory write without words, or cut off before its first, stores nothing. |
| PacketOutcomes.WaitReads | XerengeRuntime/src/xenos_gpu.cpp:1128-1143 | A wait on memory reads the host's cells for the words at 0x189F5000 and 0x189F5004 and memory for all others, in the endian mode of its address. |
| PacketOutcomes.StridesScanned | XerengeRuntime/src/xenos_gpu.cpp:1458-1481 | After microcode is scanned, each fetch constant has the stride of the last vertex fetch that names it, by bits 20 to 26 of its first word and 0 to 7 of its third, and the active one is that of the last full fetch. |
| PacketOutcomes.LoadsShader | XerengeRuntime/src/xenos_gpu.cpp:1483-1559 | 0x27 uses up to 0x4000 dwords of microcode from the start: a vertex shader by its hash and its size, with the strides of its first 1024 dwords, a pixel shader by hash and size, by the low bits of the address. |
| PacketOutcomes.UsesOwnShader | XerengeRuntime/src/xenos_gpu.cpp:3328-3400 | 0x2B does the same with the shader that follows in the packet, in a buffer; the ring only counts the packet. |
| PacketOutcomes.RaisesInterrupt | XerengeRuntime/src/xenos_gpu.cpp:3409-3415 | 0x46 raises the interrupt and does nothing else. |
| PacketOutcomes.CountsSwap | XerengeRuntime/src/xenos_gpu.cpp:3561-3569 | 0x64 counts a swap, and a frame if at least four operands are there. |
| PacketOutcomes.WritesEvent | XerengeRuntime/src/xenos_gpu.cpp:3416-3426 | 0x58 and 0x59 store their value, or the frame count if bit 31 of the initiator is set, at 0x60000000 plus the low 29 bits of the aligned address, in 0x189F4000 to 0x189F4FFF in the next page and, for two words, in the host's cells as well, and raise the interrupt. |
| PacketOutcomes.DrawsAuto | XerengeRuntime/src/xenos_gpu.cpp:3464-3472 | 0x36 draws with register 0x21FC set to its operand and all else as it was. |
| PacketOutcomes.DrawsIndexed | XerengeRuntime/src/xenos_gpu.cpp:3473-3493 | 0x22 draws with 0x21FC set to its second operand and, if bits 6 and 7 of that are clear, 0x21FD and 0x21FE set to the next two. |
| PacketOutcomes.CallsBuffer | XerengeRuntime/src/xenos_gpu.cpp:3451-3463 | 0x3F decodes the buffer at 0x60000000 plus the low 29 bits of its first operand, with the low 20 bits of its second as count, one level deeper. |
| PacketOutcomes.CountsOthers | XerengeRuntime/src/xenos_gpu.cpp:3187-3191 | All other packets of type 3 are counted, each under its own opcode, and do nothing else. |
| PacketOutcomes.BufferMeans | XerengeRuntime/src/xenos_gpu.cpp:3157-3577 | For every list of complete packets, with zeros between them or not, that memory holds one after the other when their turn comes, decoding the buffer is doing what each packet means, in order; every packet but a zero is counted. |
| PacketOutcomes.RingPlays | XerengeRuntime/src/xenos_gpu.cpp:3634-3904 | The same for the ring, which then has reached its target. |
| PacketOutcomes.DoorbellPlays | XerengeRuntime/src/xenos_gpu.cpp:3605-3909 | A store to 0x7FC80714 does what the unread packets mean, in order, and writes the reached pointer back if that is asked for. |
| PacketOutcomes.QuietPlays | XerengeRuntime/src/xenos_gpu.cpp:3634-3904 | For packets that leave memory alone it is enough that memory holds them at the start. |
| RingStream.WritesAgree | XerengeRuntime/src/xenos_gpu.cpp:3657-3658 | The register loops of both decoders do the same where their operands agree. |
| RingStream.StoreLoopsAgree | XerengeRuntime/src/xenos_gpu.cpp:3729-3738 | So do the memory loops, as long as the operands agree when they are reached. |
| RingStream.PacketAgrees | XerengeRuntime/src/xenos_gpu.cpp:3643-3897 | One packet that both decoders know has the same effect from the ring and from a buffer. |
| RingStream.DistanceAfter | XerengeRuntime/src/xenos_gpu.cpp:3635-3636 | What is left to read stays (target - read pointer) mod ring size after every packet. |
| RingStream.RingIsBuffer | XerengeRuntime/src/xenos_gpu.cpp:3634-3904 | For every stream of complete packets that read alike when reached, without zero headers or opcode 0x2B, the ring decoder ends in the state the buffer decoder ends in, with the read pointer at the target. |
| RingStream.QuietKeepsMemory | XerengeRuntime/src/xenos_gpu.cpp:3660-3897 | Packets other than memory writes, events, draws and calls leave memory alone. |
| RingStream.QuietTwins | XerengeRuntime/src/xenos_gpu.cpp:3634-3904 | For such streams it is enough that ring and buffer hold the same dwords before the first packet. |
| RingStream.PacketIgnoresRest | XerengeRuntime/src/xenos_gpu.cpp:3643-3897 | A complete packet does not depend on how much follows it. |
| RingStream.StreamSplits | XerengeRuntime/src/xenos_gpu.cpp:3634-3904 | Reading a stream in two runs cut at a packet boundary is reading it in one. |
| RingStream.BufferSplits | XerengeRuntime/src/xenos_gpu.cpp:3163-3576 | A buffer decoded over packets that the ring reads alike, and then over what follows, is decoded as a whole. |
| RingStream.ZeroHeaderParts | XerengeRuntime/src/xenos_gpu.cpp:3163-3171 | Where they part: behind any packets that read alike, a zero header at the end of a stream leaves the two decoders with different counts of packets or of type 0 packets, whatever dword follows it. |
| RingStream.OwnShaderParts | XerengeRuntime/src/xenos_gpu.cpp:3318-3400 | Where they part: behind any packets that read alike, a complete packet with a shader of its own leaves both decoders in states that agree but for shaders and remembered strides, and that differ if and only if the packet brings a shader that is not in use yet. |
| Unseen.StoreWord | XerengeRuntime/src/xenos_gpu.cpp:3905-3909 | Writing the read pointer back changes its own word only, and makes memories the same that differ in that word only. |
| Unseen.BufferRunRelated | XerengeRuntime/src/xenos_gpu.cpp:3163-3576 | States that differ in one region of memory alone stay so under every buffer none of whose packets, nor those of the buffers it calls, reads the region, whatever they write. |
| Unseen.RingRunRelated | XerengeRuntime/src/xenos_gpu.cpp:3634-3904 | The same for the ring, and both runs stop in the same place: loaded constants, microcode, memory writes, events, calls and draws included. |
| CommandMemory.BufferRunKept | XerengeRuntime/src/xenos_gpu.cpp:3163-3576 | If memory holds, at the start, only packets in a region of command memory that write outside it, through all buffers that call each other, decoding leaves the region as it was. |
| CommandMemory.RingRunKept | XerengeRuntime/src/xenos_gpu.cpp:3634-3904 | The same for the ring; and every packet is complete when its turn comes. |
| CommandMemory.KeptTwins | XerengeRuntime/src/xenos_gpu.cpp:3634-3904 | For all such streams, with memory writes, events, draws and calls, it is enough for the agreement of the decoders that ring and buffer hold the same dwords before the first packet. |
| CommandMemory.RingIsUnseen | XerengeRuntime/src/xenos_gpu.cpp:3634-3904 | If no packet that memory holds at the start reads a region, none reads it when its turn comes. |
| Doorbells.RingSizeDivides | XerengeRuntime/src/xenos_gpu.cpp:1348-1355 | Every ring size divides 2^32 and is at most 2^30. |
| Doorbells.AvailableExact | XerengeRuntime/src/xenos_gpu.cpp:3634-3636 | The 32-bit computation of the available dwords is exact, also when the ring was shrunk below the read pointer. |
| Doorbells.InitializeRingBuffer | XerengeRuntime/src/xenos_gpu.cpp:1344-1356 | Setting up a ring keeps the processor's ranges. |
| Doorbells.SetupOutcome | XerengeRuntime/src/xenos_gpu.cpp:1344-1356 | Setup of a ring with logarithm k leaves one of 8 * 2^k bytes for k below 30 and none otherwise, at the given base, empty, and changes nothing else. |
| Doorbells.WriteOutcome | XerengeRuntime/src/xenos_gpu.cpp:3579-3619 | A 4-byte store to 0x7FC80700 sets the base, to 0x7FC80704 the same sizes by its low six bits, to 0x7FC8070C the place of the read pointer in the 0x60000000 alias, to 0x7FC80714 the write pointer, and then processes the ring; every other register only keeps its word. |
| Doorbells.WriteElsewhere | XerengeRuntime/src/xenos_gpu.cpp:3579-3590 | Any other store is counted and has no effect. |
| Doorbells.AvailableInRing | XerengeRuntime/src/xenos_gpu.cpp:3634-3636 | On a ring with logarithm k any number of dwords from 0 to 2^(k + 1) - 1 can be waiting, and no more. |
| Doorbells.RunKeepsPointer | XerengeRuntime/src/xenos_gpu.cpp:3641-3904 | The read pointer stays in range. |
| Doorbells.ProcessRing | XerengeRuntime/src/xenos_gpu.cpp:3622-3910 | Processing the ring keeps the processor's ranges. |
| Doorbells.Write | XerengeRuntime/src/xenos_gpu.cpp:3579-3619 | So does every register write, whatever its address, value and width. |
| Doorbells.DoorbellRuns | XerengeRuntime/src/xenos_gpu.cpp:3605-3619 | What a doorbell changes, completely. |
| Doorbells.DoorbellIsBuffer | XerengeRuntime/src/xenos_gpu.cpp:3605-3909 | A doorbell over complete packets does what decoding a buffer of the same packets does, but for the read pointer written back, and leaves nothing unread. |
| Doorbells.TwoDoorbells | XerengeRuntime/src/xenos_gpu.cpp:3605-3909 | Two doorbells end as the second alone would, if the first stops at a packet boundary and the packets after it do not read the written-back word; they may write it. |
| Doorbells.EndAsOneIff | XerengeRuntime/src/xenos_gpu.cpp:3605-3909 | At any packet boundary two doorbells end as one if and only if the rest of the stream does not show what was written back at the cut. |
| Doorbells.LoadShowsCut | XerengeRuntime/src/xenos_gpu.cpp:3690-3712 | Without that condition it fails: a packet behind the cut that loads the written-back word into a register shows the cut, unless the word held the cut's pointer already. |
| Doorbells.BatchingIsInvisible | XerengeRuntime/src/xenos_gpu.cpp:3605-3909 | Any number of doorbells at packet boundaries end as the last alone would: each packet is applied exactly once. |
| Doorbells.CutsAreBoundaries | XerengeRuntime/src/xenos_gpu.cpp:3605-3909 | What memory holds before the first doorbell decides that every doorbell stops at a packet boundary and that nothing shows the cuts. |
| Doorbells.BatchingOfStream | XerengeRuntime/src/xenos_gpu.cpp:3605-3909 | Batching is invisible for every stream that, as memory has it before the first doorbell, writes outside its own commands and does not read the written-back word; constants, shaders, memory writes, events, calls and draws included. |
| Doorbells.DoorbellOfStream | XerengeRuntime/src/xenos_gpu.cpp:3605-3909 | A doorbell over such packets, of which a buffer in kept memory holds a copy, does what decoding the buffer does. |
| Laps.LapsAreBuffer | XerengeRuntime/src/xenos_gpu.cpp:3605-3909 | Over any number of laps, with the guest refilling the ring before each doorbell, the rounds leave all state but the region the guest writes in as one buffer with all their packets would. |
| Laps.LapsAreProcessBuffer | XerengeRuntime/src/xenos_gpu.cpp:3157-3577 | The same for the whole buffer from its start. |
| CommandProcessorService.GpuState.SetRegister | XerengeRuntime/src/xenos_gpu.cpp:1367-1417 | Register writes on the arrays refine Pm4.SetRegister. |
| CommandProcessorService.GpuState.RememberStrides | XerengeRuntime/src/xenos_gpu.cpp:1458-1481 | The loop over microcode refines Pm4.RememberStrides. |
| CommandProcessorService.GpuState.LoadPointerShader | XerengeRuntime/src/xenos_gpu.cpp:1483-1559 | Loading a shader from memory refines Pm4.LoadPointerShader. |
| CommandProcessorService.GpuState.WriteEvent | XerengeRuntime/src/xenos_gpu.cpp:1152-1171 | Event writes refine Pm4.WriteEvent. |
| CommandProcessorService.GpuState.BufferState | XerengeRuntime/src/xenos_gpu.cpp:3194-3424 | The packets of a buffer that neither draw nor call refine their functions. |
| CommandProcessorService.GpuState.BufferPacket | XerengeRuntime/src/xenos_gpu.cpp:3173-3572 | Every packet of a buffer refines Pm4.BufferPacket. |
| CommandProcessorService.GpuState.ProcessBuffer | XerengeRuntime/src/xenos_gpu.cpp:3157-3577 | The recursive loop refines Pm4.ProcessBuffer and ends. |
| CommandProcessorService.GpuState.RingState | XerengeRuntime/src/xenos_gpu.cpp:3665-3789 | The packets of the ring that neither draw nor call refine their functions. |
| CommandProcessorService.GpuState.RingPacket | XerengeRuntime/src/xenos_gpu.cpp:3643-3897 | Every packet of the ring refines Pm4.RingPacket. |
| CommandProcessorService.CommandProcessor.Drain | XerengeRuntime/src/xenos_gpu.cpp:3641-3904 | The loop over the ring refines Pm4.RingRun. |
| CommandProcessorService.CommandProcessor.ProcessRing | XerengeRuntime/src/xenos_gpu.cpp:3622-3910 | Processing the ring refines Doorbells.ProcessRing. |
| CommandProcessorService.CommandProcessor.InitializeRingBuffer | XerengeRuntime/src/xenos_gpu.cpp:1344-1356 | Ring setup refines Doorbells.InitializeRingBuffer. |
| CommandProcessorService.CommandProcessor.Write | XerengeRuntime/src/xenos_gpu.cpp:3579-3619 | Register writes refine Doorbells.Write, and a write of the write pointer leaves the GPU object as decoding a buffer with the same packets would, for every such buffer. |
| Bits.XorBits | XerengeRuntime/src/xenos_gpu.cpp:2541-2552 | The exclusive or in the swizzle, as the model computes it, is the one on the bits. |
| Tiling.FormulasAgree | rexglue/installer/game_icon.cpp:89-95 | The installer's formula equals the runtime's at four bytes a pixel for every 32-bit x, y and pitch, wrap-around included. |
| Tiling.RuntimeByDigits | XerengeRuntime/src/xenos_gpu.cpp:2541-2552 | The runtime's offset, digit by digit, for every 32-bit input. |
| Tiling.InstallerByDigits | rexglue/installer/game_icon.cpp:89-95 | The installer's offset, digit by digit, for every 32-bit input. |
| Tiling.PixelBits | XerengeRuntime/src/xenos_gpu.cpp:2541-2552 | Where each bit of a pixel's coordinates goes, for both formulas and every 32-bit input. |
| Tiling.EightByteBits | XerengeRuntime/src/xenos_gpu.cpp:2541-2552 | The same for blocks of 8 bytes in textures of whole tiles. |
| Tiling.SixteenByteBits | XerengeRuntime/src/xenos_gpu.cpp:2541-2552 | The same for blocks of 16 bytes. |
| Tiling.NothingWraps | XerengeRuntime/src/xenos_gpu.cpp:2541-2552 | Within a texture of whole tiles that fits the address space no step wraps. |
| Tiling.OffsetDigits | XerengeRuntime/src/xenos_gpu.cpp:2541-2552 | Offsets of blocks lie inside the texture and are block-aligned. |
| Tiling.UntileTile | XerengeRuntime/src/xenos_gpu.cpp:2541-2552 | Untiling undoes tiling for every block of 4, 8 or 16 bytes: no two blocks share an offset. |
| Tiling.TileUntile | XerengeRuntime/src/xenos_gpu.cpp:2541-2552 | Tiling undoes untiling: every block-aligned offset of the texture holds a block. |
| LogoTexture.LayoutOf | rexglue/installer/game_icon.cpp:112-130 | Only layouts with a width of 512 to 4096, a quarter as high, and a pitch of whole tiles are accepted. |
| LogoTexture.LayoutFields | rexglue/installer/game_icon.cpp:112-128 | A constant put together from its fields is read field by field: accepted if and only if it is a 2D texture of 32-bit pixels in endian mode 2, four times as wide as high, 512 to 4096 wide, with a pitch that is no less. |
| LogoTexture.LogoFields | rexglue/installer/game_icon.cpp:103-136 | From the big-endian words at 44, 48 and 68 behind the header on: the texture is read if and only if its layout is accepted and its bytes, whole tiles if it is tiled, lie in its own part and in the file. |
| LogoTexture.PixelBytes | rexglue/installer/game_icon.cpp:137-143 | A pixel's four bytes are alpha, red, green and blue, at the place that the bits of its coordinates say. |
| LogoTexture.PixelInside | rexglue/installer/game_icon.cpp:131-141 | Every pixel that is read, tiled or linear, lies inside the needed bytes. |
| LogoTexture.PixelsApart | rexglue/installer/game_icon.cpp:131-141 | No two pixels of the image come from the same bytes. |
| LogoTexture.FillRow | rexglue/installer/game_icon.cpp:131-141 | One row of the image is filled pixel by pixel, each from its own place, and no other row changes. |
| LogoTexture.ReadLogoTexture | rexglue/installer/game_icon.cpp:99-145 | The nested loops fill every pixel of the image from its own place, exactly for the textures that qualify. |
| CommandLine.Quote | rexglue/installer/launcher.cpp:123-140 | The loop produces the quoted form that the lemmas below are about. |
| CommandLine.EscapedReadsBack | rexglue/installer/launcher.cpp:127-140 | By Microsoft's argument rules the quoted form reads back, for every mix of backslashes, quotes and blanks. |
| CommandLine.QuotedReadsBack | rexglue/installer/launcher.cpp:123-140 | A quoted argument is read back whole, and reading stops where it ends. |
| CommandLine.ArgumentsReadBack | rexglue/installer/launcher.cpp:329-332 | Parsing the joined quoted arguments gives back every argument list, followed by what the rest of the line holds. |
| CommandLine.OwnArguments | rexglue/installer/launcher.cpp:143-156 | The two loops skip the program's name and the blanks behind it. |
| CommandLine.OwnArgumentsKeepAll | rexglue/installer/launcher.cpp:143-156 | On every command line the rest that is kept parses to exactly the arguments after the program. |
| CommandLine.TailKept | rexglue/installer/launcher.cpp:143-156 | After a quoted name without quotes only the blanks in front of the tail are dropped. |
| CommandLine.BuildLine | rexglue/installer/launcher.cpp:329-335 | The loop builds the line the game is started with. |
| CommandLine.ProgramReadsBack | rexglue/installer/launcher.cpp:123-140 | What the rules for the program's own name, which know no escapes, make of a quoted name. |
| CommandLine.LaunchReadsBackIff | rexglue/installer/launcher.cpp:329-335 | The game receives the launcher's arguments and then those it was given itself, if and only if the program's path has no quote and, when it needs quoting, no backslash at its end. |
| CommandLine.LaunchForwards | rexglue/installer/launcher.cpp:327-335 | From one command line to the next, every argument arrives. |
| Xdvdfs.DirentAt | XerengeRuntime/src/xbox_media.cpp:178-197 | An entry that is accepted lies, with its name, inside its table. |
| Xdvdfs.DirentBytes | XerengeRuntime/src/xbox_media.cpp:178-197 | What the 14 bytes of an entry and its name say, byte by byte; it is refused if its name reaches beyond the table or the image. |
| Xdvdfs.NoDirent | XerengeRuntime/src/xbox_media.cpp:178-187 | There is no entry without its 14 bytes at a multiple of four. |
| Xdvdfs.TablePlaces | XerengeRuntime/src/xbox_media.cpp:172-176 | A directory's table starts at 2048 times its sector, and links count in fours. |
| Xdvdfs.SingleEntry | XerengeRuntime/src/xbox_media.cpp:203-216 | An entry without links is added under its normal path, unless that is empty or ends in a slash. |
| Xdvdfs.FoldedLetters | XerengeRuntime/src/xbox_media.cpp:155-162 | Of a path the ASCII capitals become small letters and backslashes slashes, and nothing else changes. |
| Xdvdfs.EncodedReadsBack | XerengeRuntime/src/xbox_media.cpp:178-197 | An encoded entry reads back field by field, at any place of any table. |
| Xdvdfs.DirentLocal | XerengeRuntime/src/xbox_media.cpp:178-197 | An entry depends on the bytes of its own table only, on every image. |
| Xdvdfs.TreeParses | XerengeRuntime/src/xbox_media.cpp:172-216 | Every image that holds a finite directory tree is parsed, into exactly what the tree lists, later entries over earlier ones. |
| Xdvdfs.ParsedIsHeld | XerengeRuntime/src/xbox_media.cpp:172-216 | Whenever parsing succeeds the image holds a finite tree. |
| Xdvdfs.ParsesIff | XerengeRuntime/src/xbox_media.cpp:172-216 | Parsing succeeds, with enough stack, if and only if the image holds a finite tree. |
| Xdvdfs.HeldOnce | XerengeRuntime/src/xbox_media.cpp:172-216 | An image holds at most one tree at a place. |
| Xdvdfs.ListingDistinct | XerengeRuntime/src/xbox_media.cpp:205-207 | Distinct, slash-free names in each directory give distinct paths. |
| Xdvdfs.EntriesExact | XerengeRuntime/src/xbox_media.cpp:172-216 | With such names the entries are exactly the flattened tree: nothing overwritten, nothing added. |
| Xdvdfs.ParentsKept | XerengeRuntime/src/xbox_media.cpp:205-211 | Parsing a subtree keeps every entry's parent among the entries. |
| Xdvdfs.ParsedParents | XerengeRuntime/src/xbox_media.cpp:172-216 | If no name keeps a slash, every entry's parent path is an entry. |
| Xdvdfs.WrittenIsHeld | XerengeRuntime/src/xbox_media.cpp:172-216 | An image in which the encoded entries of a finite folder stand at their nodes, linked by their words, with directories in tables of their own, holds the folder's tree. |
| Xdvdfs.WrittenParses | XerengeRuntime/src/xbox_media.cpp:172-216 | The round trip: parsing the bytes of any finite folder of named entries gives exactly what the folder lists. |
| Xdvdfs.WrittenExact | XerengeRuntime/src/xbox_media.cpp:172-216 | With distinct, slash-free names it gives exactly the flattened map, in which every entry's parent path is an entry. |
| Xdvdfs.EncodedIsWritten | XerengeRuntime/src/xbox_media.cpp:172-216 | Every folder that is laid out without overlaps has an image in which it is written: the encoder makes it. |
| Xdvdfs.EncodedParsesExact | XerengeRuntime/src/xbox_media.cpp:172-216 | Parsing what the encoder made of such a folder gives exactly its flattened map with every parent. |
| Xdvdfs.NestedExists | XerengeRuntime/src/xbox_media.cpp:172-216 | A folder with a directory in it that is laid out so, and its two paths. |
| XboxMedia.XboxMedia.Normalize | XerengeRuntime/src/xbox_media.cpp:155-170 | The loops compute the normal form. |
| XboxMedia.NormalizedTwiceIff | XerengeRuntime/src/xbox_media.cpp:155-170 | Normalising again changes nothing if and only if the path does not have, behind slashes, a drive and, behind further slashes, another drive. |
| XboxMedia.TwoDrivesShrink | XerengeRuntime/src/xbox_media.cpp:155-170 | A path on which it fails: each normalising takes one drive off. |
| XboxMedia.SpellingsMeet | XerengeRuntime/src/xbox_media.cpp:155-170 | Case, kind of slash, leading slash and drive letter lead to the same path. |
| XboxMedia.XboxMedia.ParseNode | XerengeRuntime/src/xbox_media.cpp:178-216 | The recursion over the entries field refines Xdvdfs.ParseNode. |
| XboxMedia.XboxMedia.OpenFile | XerengeRuntime/src/xbox_media.cpp:229-272 | A handle comes back exactly for paths of files, is not 0, and starts at position 0. |
| XboxMedia.XboxMedia.ReadFile | XerengeRuntime/src/xbox_media.cpp:274-304 | A read refines XboxMedia.Read on the one file and leaves the others alone. |
| XboxMedia.XboxMedia.SeekFile | XerengeRuntime/src/xbox_media.cpp:306-322 | A seek refines XboxMedia.Seek on the one file and fails only before the start. |
| XboxMedia.XboxMedia.CloseFile | XerengeRuntime/src/xbox_media.cpp:345-349 | Closing forgets one handle and leaves the others. |
| XboxMedia.ReadIsSlice | XerengeRuntime/src/xbox_media.cpp:280-303 | A read returns the bytes from the position to the nearer of its size and the end. |
| XboxMedia.ContentPlaces | XerengeRuntime/src/xbox_media.cpp:274-303 | A file's bytes start at 2048 times its sector. |
| XboxMedia.ReadsConcatenate | XerengeRuntime/src/xbox_media.cpp:274-304 | However a file is cut into reads, together they are its next bytes. |
| XboxMedia.SeekThenRead | XerengeRuntime/src/xbox_media.cpp:274-322 | From any origin, seeking and reading the rest gives the file from there on. |
| Settings.ReadConfig | rexglue/installer/launcher.cpp:68-89 | The loop fills the list and the map from every line. |
| Settings.SettingLine | rexglue/installer/launcher.cpp:73-88 | A key and a value with any blanks, tabs and carriage returns around them are read as they are, whatever the value holds. |
| Settings.PassedOver | rexglue/installer/launcher.cpp:73-84 | Blank lines, comments, lines without an equals sign and lines without a key are passed over. |
| Settings.SettingsReadBack | rexglue/installer/launcher.cpp:68-89 | Any list of settings that is written line by line is read back in its order. |
| Settings.WriteSettings | rexglue/installer/installer_window.cpp:1294-1313 | The loops over new and old lines produce the merged text. |
| Settings.CleanIsAlike | rexglue/installer/installer_window.cpp:273-277 | A line without white space that only Qt knows is seen alike: both programs find the same key, and trimming changes nothing for the launcher. |
| Settings.CommentIsAlike | rexglue/installer/installer_window.cpp:273-277 | So is every comment line, whatever white space it holds. |
| Settings.KeptValues | rexglue/installer/installer_window.cpp:1303-1310 | Reading the kept lines over the new values is reading all old lines under them. |
| Settings.SettingsUpdated | rexglue/installer/installer_window.cpp:1282-1316 | If both programs see the lines alike, afterwards the launcher reads the new value for every key written and the old last value for every other key. |
| Settings.FaithfulIff | rexglue/installer/installer_window.cpp:1282-1316 | For every old file, keys set twice included, the update is faithful for all settings if and only if both programs find the same key in each trimmed line that has one, and trimming the lines changes no value that the launcher reads. |
| Settings.SeparateAlikeIff | rexglue/installer/installer_window.cpp:1303-1310 | Where no two lines set the same key that is seeing every line alike. |
| Settings.WritingAgain | rexglue/installer/installer_window.cpp:1282-1316 | Writing the same settings again produces the identical file, whatever the old file held. |
| Settings.OrdinaryIsAlike | rexglue/installer/installer_window.cpp:273-277 | Which characters they are, by code: a line without them is seen alike. |
| Settings.StrangeSpaceLosesLine | rexglue/installer/installer_window.cpp:1303-1310 | A family of files for which SettingsUpdated fails without its condition: any one of these characters after a key makes the installer drop a line the launcher reads as another key. |
| Boundaries.CollectBrokenRanges | tools/merge_error_functions.py:37-59 | The scan's loop refines the fold over its lines. |
| Boundaries.NeededFits | tools/merge_error_functions.py:49-58 | Each range reaches exactly as far as the farthest piece its branches go to. |
| Boundaries.EndIsNearest | tools/merge_error_functions.py:53-57 | A piece ends at the nearest start above the branch target, or behind the target's instruction if there is none. |
| Boundaries.ScanNeeded | tools/merge_error_functions.py:49-58 | No range is empty, and each holds its forward branches. |
| Boundaries.Merge | tools/merge_error_functions.py:62-72 | The loop that overwrites the last interval refines the merge of sorted ranges. |
| Boundaries.StepKeepsParts | tools/merge_error_functions.py:64-71 | One more range keeps the intervals the connected parts of the ranges so far. |
| Boundaries.MergedParts | tools/merge_error_functions.py:62-72 | The intervals are sorted, disjoint, hold each range whole, start where ranges start, and cannot be cut without cutting a range. |
| Boundaries.MergedUnion | tools/merge_error_functions.py:62-72 | They cover exactly the addresses of the needed ranges. |
| Boundaries.TogetherIff | tools/merge_error_functions.py:62-72 | Two addresses end up in one function if and only if the lower one lies in a needed range and some range reaches over every point up to the higher one. |
| Boundaries.BranchesTogether | tools/merge_error_functions.py:37-72 | Every forward branch and its target end up in one interval. |
| Boundaries.BackwardBranchAddsNothing | tools/merge_error_functions.py:49-52 | A backward branch adds nothing to the needed ranges, wherever in the scan it is met, although the comment there counts on another piece to repair it. |
| Boundaries.BackwardBranchTogetherIff | tools/merge_error_functions.py:37-72 | For every scan a backward branch ends up in one function with its target if and only if the ranges of the forward branches bridge every point between them. |
| Boundaries.BackwardBranchIgnored | tools/merge_error_functions.py:49-52 | A backward branch on its own is not repaired at all. |
| Boundaries.SplitBoundaries | tools/recover_indirect_entry_points.py:89-99 | The nested loops refine the split and count the functions divided. |
| Boundaries.BranchWords | tools/recover_indirect_entry_points.py:41-58 | An unlinked branch ends a routine and a linked one does not. |
| Boundaries.RegisterBranchWords | tools/recover_indirect_entry_points.py:41-58 | A branch to the link or count register does so if and only if it is not linked and its options make it unconditional. |
| Boundaries.OtherWords | tools/recover_indirect_entry_points.py:41-58 | Of all other words only 0 and 0x60000000 do. |
| Boundaries.EntryPointWord | tools/recover_indirect_entry_points.py:36-46 | What counts is the big-endian word before the address, in an image that is loaded at 0x82000000. |
| Boundaries.OneExact | tools/recover_indirect_entry_points.py:89-99 | Splitting one function keeps its bytes and starts a piece at each target inside it. |
| Boundaries.SplitExact | tools/recover_indirect_entry_points.py:89-99 | Splitting keeps the sum of sizes and every covered address, and adds exactly the targets strictly inside functions as starts. |
| Boundaries.ReportsSplit | tools/recover_indirect_entry_points.py:80-99 | A report becomes a new start if and only if the image confirms it and it lies inside a function. |

## Left out

- Dispatcher.EveryRun: a step is one hold of the mutex, and the threads that sleep on a condition variable are a map that notifications wake; timer objects, whose wait unlocks before its ticket is removed, and the graphics event, which is signalled outside the mutex, are not part of it; event and semaphore handles are assumed disjoint, and new handles not yet waited on.
- DispatcherService.KernelDispatcher.WaitMultiple: one look under the mutex; the pause of two milliseconds before the second look is not modelled, and adopting the headers is a call of its own.
- Dispatcher.NoLostWakeup: real time is not modelled; a timeout is a step that may happen at any moment, and tickets and semaphore counts do not overflow.
- GuestProfile.AnyInterleaving: any relaxed load may see any earlier value, which allows more than the language does for a thread's own writes; wrap-around of 64-bit counts and the address 0, which marks an empty slot, are not modelled.
- FetchBanks.BanksIndependent: leaves out the one collision that VertexRoutedIff describes, in which the claim is false.
- RingStream.RingIsBuffer: asks that a packet reads alike from ring and buffer when its turn comes, because packets can overwrite commands; CommandMemory.KeptTwins discharges it from the start of the stream for all packets that write elsewhere, and QuietTwins for those that write nothing.
- PacketOutcomes.BufferMeans: asks that memory holds each packet when its turn comes, for the same reason; QuietPlays discharges it for packets that leave memory alone. A cut-off packet at the end is decoded as PacketMeaning.Type3Means says, but is not part of the stream.
- PacketOutcomes.StoresWords: asks that the packet's own dwords lie apart from what it stores; PacketMeaning.StoresMean asks only that each is still there when it is read.
- PacketOutcomes.SetsRegisters: is about registers outside the fetch window 0x4800 to 0x48BF; inside it SetsFetchConstants speaks of complete fetch constants, and FetchBanks.WriteRoutes of any single write.
- CommandMemory.KeptTwins: a stream that draws needs the rasteriser to draw outside command memory in every state, as nothing is known of it.
- RingStream.ZeroHeaderParts: is about a zero header at the end; packets after it may overwrite the difference.
- Doorbells.TwoDoorbells: asks that packets after the cut do not read the word the read pointer is written back to, and LoadShowsCut is why; BatchingOfStream derives it from memory. All its batches lie within one lap of the ring, in which the guest writes nothing; Laps.LapsAreBuffer is about more.
- Laps.LapsAreBuffer: what is left of the buffer must not read where the guest writes, round by round.
- Pm4.ProcessBuffer: 64-bit counters do not wrap; WAIT_REG_MEM, which only traces, has no effect; shader modules and the shader cache are not part of this model.
- Tiling.UntileTile: pitch and rows are multiples of 32, as the swizzle itself assumes; pitches of compressed textures, which the runtime rounds to 8, are not covered, nor are blocks of 1 or 2 bytes.
- CommandLine.ArgumentsReadBack: text is a sequence of characters; conversion between encodings is not modelled.
- Xdvdfs.TreeParses: the parser has no guard against cycles, so recursion is bounded by a fuel that stands for the stack; ParsesIff says for which images enough fuel exists.
- XboxMedia.SeekThenRead: positions are unbounded, and media that are host directories are not modelled.
- Settings.SettingsUpdated: asks that both programs see each line alike, which is more than FaithfulIff's exact condition for every file. Decoding of UTF-8 is not modelled, and the new settings end with a line feed, as the installer's always do.
- Boundaries.BranchesTogether: covers forward branches; BackwardBranchTogetherIff says when backward ones are repaired as well.
- Opening of disc images at the known partition offsets, extraction to the host and the probe for an empty name.
- Vulkan, windowing, audio, video decoding, Qt widgets and process creation: foreign libraries without visible semantics.
- The rasteriser's own state, movie frames and colour conversion, which enter only as an opaque function.
- Address-specific overrides of guest functions, shader-cache search, audio queues, notification queues and keybinding files: no general property, or easy ones beside those proved.
- Texture address computation for linear textures beyond its bounds, and the choice of textures by content.
