# Contiguous memory, DMA, simulator and event queues of the bifrost module

This project models four stateful parts of the driver package and proves what they keep over every run.

**The contiguous-memory allocator** (`cmemk/cmemk.c`). The heap is a singly linked free list whose headers lie
inside the free memory they describe. `HeapMem.dfy` is the list itself, header cell by header cell; `HeapBlocks.dfy`
says what a list of free blocks means: the set of bytes it covers. First fit is shown to be least address, and the list
to be determined by the bytes it covers, from which order independence and the round trips follow. Above it, the
driver keeps pools carved from the top of a block, busy lists, and the files registered for each busy buffer.
`CmemSetup.dfy` and `CmemInit.dfy` carve the pools and the heap. `CmemState.dfy` gives each system call as an operation
on a value; `CmemInvariant.dfy`, `CmemSafety.dfy`, `CmemRuns.dfy`, `CmemOwnership.dfy`, `CmemLaws.dfy` and
`CmemRoundTrips.dfy` prove things about those operations and about runs of them; `CmemDriver.dfy` is the driver that updates its lists in place,
each method tied to the operation of the same purpose.

**The DMA scheduler** (`bifrost/bifrost_dma.c`). `DmaMachine.dfy` is the scheduler as a transition system over channels
that are idle, occupied, or between the two halves of the completion handler. `DmaCtl.dfy` is the controller with its
bitmap, slots and list; each method is one step between lock boundaries. `SpeedStats.dfy` is the running average.

**The I2C user-space simulator** (`animal-i2c/i2c_usim.c`). `UsimMachine.dfy` is the rendezvous of senders and receiver
with interruption and close; `I2cUsim.dfy` is the driver whose methods are its steps.

**The event queues of open handles** (`bifrost/bifrost_cdev.c`). `EventQueues.dfy` is the queues and the fan-out;
`DmaEvents.dfy` puts controller and queues together and follows a DMA request from its handle to the event it causes.

`Bits.dfy` holds the C operators on words of natural numbers, `Common.dfy` what the modules share.
`dafny verify dfyconfig.toml` checks everything.

## What the proofs rest on

- A word (`size_t`, `unsigned long`) has 32 bits and a page 4096 bytes, as on the ARM boards the module is built for.
- ALLOCHEAP is modelled for every size and every alignment, zero included. `CmemRuns.RunKeepsInvIff` says exactly which
  runs keep the invariant: those whose heap requests are good ones in the state they are made in. A request is good in
  every state when size and alignment are not zero and rounding and addition do not wrap around. That the alignment is a
  power of two (`cmemk/cmemk.c:355-361`) is needed for one thing only, that the address found is the least aligned one.
- The two memory blocks are mapped at different addresses and occupy different physical memory, as reserving and mapping
  them guarantees. A block is smaller than 2 GB.
- Calls that hold the driver's mutex, and closing a file, are single steps.
- The receiver of the simulator follows the loop at `animal-i2c/i2c_usim.c:14-27`: it puts a ticket it got, once.
  `UsimMachine.PutSafeIffOwed` shows that this is exactly what PUT needs, since it does not check the state of the event.
- Tickets of the simulator do not wrap around among live events, so an event is identified by its ticket.
- DMA requests carry a serial number of the model's own, because their memory and their tickets are reused.
- The time of a DMA transfer is not a multiple of 2^32 ns other than zero, by which the source would divide by zero.
- System calls name blocks by non-negative numbers.

## Where the code does less than it says, or is asked for more

- A heap request for no bytes succeeds, and the next one may get the same address; so does a request of more than
  `WORD - PAGE_SIZE` bytes, whose rounded size wraps around to zero (`CmemRuns.EmptyRequestHidesBuffer`). Giving an empty
  buffer back at the start of a free block turns the free list into a cycle (`HeapMem.EmptyFreeLoops`), and the two calls
  `HeapMem.EmptyAllocThenFree` do so on any heap with free memory. A sum of size and alignment offset that wraps around
  corrupts the list as well (`HeapBlocks.WrapBreaksTiling`). With an alignment of zero no address is ever returned, but a
  request that is at least as large as the address of a free block, and not past its end, still corrupts the list
  (`HeapBlocks.ZeroAlignNeverServes`).
- A block with `MAX_POOLS` pools and memory left puts its heap behind its row of the pool table: the first block's heap
  gets the entry of the second block's first pool, the second block's an entry behind the table
  (`CmemInit.EntriesApartIff`).
- A pool whose buffer size rounds to zero is accepted; its buffers all lie at one address (`CmemSetup.EmptyBuffersCollide`).
  Setup is sound if and only if there is no such pool (`CmemSetup.TilingIsValid`).
- A close of the simulator is said to complete every event in progress (`animal-i2c/i2c_usim.c:84-88`). It completes those
  still on the queue. An event whose sender was interrupted while the receiver worked on it is on no queue, and the
  receiver's reference to it is never dropped: `UsimMachine.LeakRun` is such a run, and `UsimMachine.LeakedIffGivenUp`
  says exactly which runs leak.
- A completion event is matched to its submitter by the address of the handle. When that handle was closed and another
  one was opened at its address, the other one receives the event (`DmaEvents.StaleCompletion`). A completion a handle
  wanted is its own if and only if the request is younger than the handle (`DmaEvents.Bifrost.WantedIsOwnIff`).
- The speed averages are declared in kB/s (`bifrost/bifrost.h:99-102`) but kept in bytes per second, so the product in
  the average outgrows a 32-bit word soon (`SpeedStats.OverflowBreaksBound`). The average is right if and only if no product
  does (`SpeedStats.AccountedIffNoWrap`, `SpeedStats.CloseIffNoWrap`).

## Model

| member | source | states |
|---|---|---|
| Bits.MaskIsRemainder | cmemk/cmemk.c:366-403 | masking with a power of two less one is the remainder, for every word |
| HeapBlocks.RoundUpIsLeastMultiple | cmemk/cmemk.c:363-368 | sizes are rounded to the least multiple of the heap alignment that holds them |
| HeapBlocks.AdjustSizeZero | cmemk/cmemk.c:363-368 | the rounded size is zero exactly for a size of zero and for the topmost sizes, which wrap around |
| HeapBlocks.AdjustAlignIsMax | cmemk/cmemk.c:370-379 | the mask test makes the alignment the larger of the requested and the heap's own |
| HeapBlocks.OffsetIsLeast | cmemk/cmemk.c:399-406 | the skipped offset leads to the first aligned address of a block, none lies before it |
| HeapBlocks.BytesDetermineList | cmemk/cmemk.c:330-343 | two well-formed free lists covering the same bytes are the same list |
| HeapBlocks.RunInOneBlock | cmemk/cmemk.c:413-414 | any run of free bytes lies inside one block, because free blocks never touch |
| HeapBlocks.AllocAddrIsLeastCandidate | cmemk/cmemk.c:394-488 | first fit returns the least aligned address with enough free bytes behind it, and NULL only when there is none |
| HeapBlocks.AllocListTakesRange | cmemk/cmemk.c:427-478 | for any alignment, all four ways to split a block keep the list sorted, paged, non-touching, and take exactly the returned range out |
| HeapBlocks.FreeListAddsRange | cmemk/cmemk.c:530-556 | all four ways to join keep the list well formed and add exactly the freed range |
| HeapBlocks.ZeroAlignNeverServes | cmemk/cmemk.c:375-421 | with an alignment of zero the result is NULL; a block passes the test iff the size lies between its address and its end, and the sum has then wrapped |
| HeapBlocks.AllocKeepsTiled | cmemk/cmemk.c:346-503 | the returned block is new and apart from every live block; the free list covers the heap minus the live blocks |
| HeapBlocks.WrapBreaksTiling | cmemk/cmemk.c:399-478 | when size plus offset wraps around, the list is not the heap less its live blocks any more |
| HeapBlocks.FreeKeepsTiled | cmemk/cmemk.c:507-564 | a live block is not free, and freeing it leaves the heap minus the remaining live blocks |
| HeapBlocks.LiveDeterminesFreeList | cmemk/cmemk.c:507-564 | the free list is a function of the set of live blocks |
| HeapBlocks.AllocFreeRoundTrip | cmemk/cmemk.c:427-556 | freeing what was just allocated gives back the identical list, front fragment and tail included |
| HeapBlocks.FreeOrderIrrelevant | cmemk/cmemk.c:507-564 | freeing live blocks in any two orders gives the same list |
| HeapBlocks.FreeEverythingRestoresHeap | cmemk/cmemk.c:507-564 | freeing all live blocks in any order restores the single block of initialisation |
| HeapMem.LiveWritesAreHarmless | cmemk/cmemk.c:293-296 | whatever is written into live buffers, the chain of headers still spells the same list |
| HeapMem.Heap.constructor | cmemk/cmemk.c:2271-2296 | setup links one block of the whole heap, or an empty list when nothing is left |
| HeapMem.Heap.FindFit | cmemk/cmemk.c:391-414 | the walk stops at the first block that fits, with its predecessor and offset |
| HeapMem.Heap.Alloc | cmemk/cmemk.c:346-503 | for any size and alignment: returns the least candidate or NULL; a dry run changes nothing and returns the same; only free bytes are written; good requests keep the list sound |
| HeapMem.Heap.Free | cmemk/cmemk.c:507-564 | what any free writes; for a range of the heap that is not free the chain of headers is the list with the range added |
| HeapMem.EmptyFreeLoops | cmemk/cmemk.c:530-545 | freeing no bytes at the start of a free block makes its header point to itself: no walk along the list ends |
| HeapMem.EmptyAllocThenFree | cmemk/cmemk.c:346-564 | on any heap with free memory, allocating a rounded size of zero and freeing it leaves a chain that never ends |
| CmemSetup.PageAlignIsAdjustSize | cmemk/cmemk.c:1017-1017 | pool sizes are page-aligned to the same value as heap allocations, wrap-around included |
| CmemSetup.SoundIffNotEmpty | cmemk/cmemk.c:1012-1022 | exactly sizes from zero down to less than a page below round to zero; more negative ones are too large to fit |
| CmemSetup.EmptyBuffersCollide | cmemk/cmemk.c:1031-1068 | buffers of no size are all carved at one address |
| CmemSetup.TilingIsValid | cmemk/cmemk.c:2237-2283 | pools carved one below the other and the heap tile the block, soundly if and only if no buffer is empty |
| CmemSetup.BlockSetup.AllocPoolBuffer | cmemk/cmemk.c:628-651 | a buffer is carved from the top of what is left, or nothing happens |
| CmemSetup.BlockSetup.AllocPool | cmemk/cmemk.c:1012-1075 | a pool is set up exactly when all its buffers fit, and then each carved buffer is on its free list once |
| CmemSetup.BlockSetup.InitBlock | cmemk/cmemk.c:2169-2297 | for any pool table: a block is set up exactly when its pools fit; pools and heap then tile it unless a pool has empty buffers |
| CmemSetup.BlockCovered | cmemk/cmemk.c:2244-2285 | every byte of a block belongs to one of its pools or to its heap |
| CmemSetup.PoolCovered | cmemk/cmemk.c:1031-1068 | every byte of a pool belongs to one of its buffers |
| CmemInit.Initialise | cmemk/cmemk.c:2044-2303 | initialisation succeeds exactly when every block can be reserved, mapped and filled, else reports the first failure; the driver then starts soundly, each pool with its own entry, iff no pool has empty buffers and every heap's entry has room |
| CmemInit.FirstFailureIsFirst | cmemk/cmemk.c:2080-2234 | the failure reported is that of the first block that cannot be set up |
| CmemInit.EntriesApartIff | cmemk/cmemk.c:2237-2269 | pools and heaps have entries of their own in the pool table iff no row is full with a heap to follow, except where nothing lies behind it |
| CmemInvariant.RegionsApart | cmemk/cmemk.c:628-651 | no two pools or heaps of the machine share a physical byte |
| CmemInvariant.TranslationInjective | cmemk/cmemk.c:574-583 | kernel addresses of different bytes have different physical addresses |
| CmemInvariant.HeapAllocate | cmemk/cmemk.c:1211-1242 | a heap allocation keeps the heap pool consistent with the free list |
| CmemInvariant.HeapUnregister | cmemk/cmemk.c:1399-1430 | dropping registrations, and freeing with the last, keeps the heap pool consistent |
| CmemInvariant.NormalUnregister | cmemk/cmemk.c:1399-1434 | the same for a pool: every carved buffer stays on exactly one of the two lists |
| CmemSafety.BuffersApart | cmemk/cmemk.c:1185-1469 | busy buffers and free pool buffers never overlap |
| CmemSafety.BufferApartFromFreeHeap | cmemk/cmemk.c:1185-1469 | none of them overlaps a free heap block |
| CmemSafety.BusyAddressUnique | cmemk/cmemk.c:696-734 | two entries of the busy lists never have the same physical address |
| CmemSafety.FindBusySound | cmemk/cmemk.c:696-734 | the search returns a busy entry with the address, and fails only when there is none |
| CmemSafety.FindBusyIsTheOne | cmemk/cmemk.c:696-734 | the search finds exactly the entry meant, wherever it is |
| CmemRuns.RegisteredAt | cmemk/cmemk.h:126-138 | every busy buffer has a registration, and registrations only name open files |
| CmemRuns.StepKeepsInv | cmemk/cmemk.c:1185-1975 | open, ALLOC, ALLOCHEAP, FREE, REGUSER and close each keep the invariant, but for bad heap requests, which never do |
| CmemRuns.RunKeepsInvIff | cmemk/cmemk.c:1185-1975 | the invariant holds at every point of a run if and only if every heap request before is good where it is made |
| CmemRuns.RunKeepsInv | cmemk/cmemk.c:1185-1975 | the invariant holds after every run whose heap requests meet the heap's demands |
| CmemRuns.RunKeepsBuffersApart | cmemk/cmemk.c:1185-1975 | after every such run buffers do not overlap |
| CmemRuns.AllocHeapSafeIff | cmemk/cmemk.c:346-478 | a heap request of any size and alignment keeps the invariant if and only if it finds no block, or its rounded size is neither zero nor wrapped and size plus offset does not wrap |
| CmemRuns.EmptyRequestHidesBuffer | cmemk/cmemk.c:355-361 | after a request of rounded size zero the next one gets the same address; the search finds the empty buffer, and the other's owner cannot free it |
| CmemOwnership.FreeRemovesOneRegistration | cmemk/cmemk.c:1364-1440 | FREE removes one registration of the caller and no other; exactly with the last one the buffer goes first on its free list or back into its heap, all else untouched |
| CmemLaws.StopsBeingBusyIff | cmemk/cmemk.c:1185-1975 | over all operations, a busy buffer stops being busy if and only if its only registration is freed or the file with all its registrations closes |
| CmemLaws.CloseFreesIff | cmemk/cmemk.c:1860-1975 | a close frees exactly the buffers registered for no other file |
| CmemOwnership.FreeByStrangerChangesNothing | cmemk/cmemk.c:1390-1397 | FREE by a file that is not registered, or of nothing, changes nothing |
| CmemOwnership.CloseIsFrees | cmemk/cmemk.c:1860-1975 | closing a file is one FREE per registration it has, in list order, on the last close too |
| CmemOwnership.LastBlocksSame | cmemk/cmemk.c:1880-1918 | the last-close override never drops a registration the closing file does not own |
| CmemOwnership.NothingOpenNothingBusy | cmemk/cmemk.c:1880-1970 | with no file open nothing is busy, every pool is complete and every heap is one block |
| CmemLaws.RegistrationLaw | cmemk/cmemk.c:1185-1975 | over all operations, addresses and files: an allocation gives the caller the only registration of what it hands out, REGUSER adds one, FREE takes one away, a close all of them, nothing else changes |
| CmemLaws.StartsBeingBusyIff | cmemk/cmemk.c:1211-1313 | over all operations, an idle address becomes busy if and only if the operation is an allocation that hands it out |
| CmemLaws.AllocTakesFirst | cmemk/cmemk.c:1289-1313 | the first free buffer leaves the free list and heads the busy list, registered for the caller alone; all else is untouched |
| CmemLaws.AllocHeapTakesRange | cmemk/cmemk.c:1211-1242 | the new buffer is last on the busy list, registered for the caller alone; exactly its bytes leave the heap; all else is untouched |
| CmemLaws.NothingHanded | cmemk/cmemk.c:1212-1297 | an allocation that fails changes nothing |
| CmemLaws.RegUserAdds | cmemk/cmemk.c:1775-1791 | REGUSER adds one registration of the caller to the busy buffer and changes nothing else |
| CmemLaws.OpenFilesLaw | cmemk/cmemk.c:1851-1873 | an open adds its file, a close removes it, nothing else does; the count follows |
| CmemRoundTrips.AllocThenFree | cmemk/cmemk.c:1289-1440 | ALLOC and FREE of the buffer leave every list as it was |
| CmemRoundTrips.AllocHeapThenFree | cmemk/cmemk.c:1211-1430 | ALLOCHEAP and FREE restore the driver's state exactly |
| CmemRoundTrips.RegisterThenFree | cmemk/cmemk.c:1364-1791 | REGUSER and FREE by the same file give back the same registrations in the same order |
| CmemDriver.Driver.Open | cmemk/cmemk.c:1851-1858 | the file joins the open files and the reference count follows |
| CmemDriver.Driver.FindBusyEntry | cmemk/cmemk.c:696-734 | the three nested loops return the first match in block, pool and list order |
| CmemDriver.Driver.GetPhys | cmemk/cmemk.c:574-583 | a kernel address of a block is translated by that block's offset; others are not translated here |
| CmemDriver.Driver.AllocBuffer | cmemk/cmemk.c:1259-1323 | result, error and new state of ALLOC |
| CmemDriver.Driver.AllocHeapBuffer | cmemk/cmemk.c:1185-1253 | result, error and new state of ALLOCHEAP |
| CmemDriver.Driver.FreeBuffer | cmemk/cmemk.c:1330-1469 | FREE succeeds exactly for a registered file, and reports the size and pool of the buffer |
| CmemDriver.Driver.Register | cmemk/cmemk.c:1764-1803 | REGUSER succeeds exactly for a busy address |
| CmemDriver.Driver.GetPool | cmemk/cmemk.c:1530-1601 | the lowest-indexed best fit, or -2 exactly when the heap may and would serve the request; nothing changes |
| CmemDriver.Driver.Release | cmemk/cmemk.c:1860-1975 | the nested walks over all busy lists amount to closing the file |
| DmaMachine.SubmitKeepsInv | bifrost/bifrost_dma.c:171-191 | a submission takes the least idle channel or waits, and keeps the invariant |
| DmaMachine.TakeKeepsInv | bifrost/bifrost_dma.c:234-239 | taking a request out of its slot before the lock keeps the invariant |
| DmaMachine.FinishKeepsInv | bifrost/bifrost_dma.c:254-264 | the locked half of the completion handler keeps the invariant |
| DmaMachine.RunKeepsInv | bifrost/bifrost_dma.c:171-270 | in every interleaving a channel is in one place, a request in one place, and waiting means no channel is idle |
| DmaMachine.DispatchIsFifo | bifrost/bifrost_dma.c:171-264 | at every point of a run the requests given to channels are a prefix of those submitted |
| DmaMachine.SubmittedSplit | bifrost/bifrost_dma.c:171-264 | every submitted request is in exactly one place: completed, in progress, being retired or waiting |
| DmaMachine.OutstandingCounts | bifrost/bifrost_dma.c:222-270 | each submission adds one outstanding request, each finished interrupt removes one |
| DmaMachine.DrainedIsInitial | bifrost/bifrost_dma.c:254-264 | with nothing outstanding every channel in service is idle and every request completed once |
| DmaMachine.StageLaw | bifrost/bifrost_dma.c:171-264 | the life of a request over every step: it waits or runs, retires, completes; each step moves exactly the requests it should |
| DmaCtl.ClearRemoves | bifrost/bifrost_dma.c:92-92 | clearing a bit removes one channel from the set and no other |
| DmaCtl.SetAdds | bifrost/bifrost_dma.c:97-100 | setting a bit adds one |
| DmaCtl.FfsIsLeast | bifrost/bifrost_dma.c:88-90 | the first set bit is the least idle channel |
| DmaCtl.SameChannelsSameBitmap | bifrost/bifrost_dma.c:84-100 | the bitmap is determined by the set of idle channels |
| DmaCtl.DmaController.constructor | bifrost/bifrost_pci.c:316-332 | channels reported busy stay out of service, the others start idle, interrupt numbers are consecutive |
| DmaCtl.DmaController.LookupChan | bifrost/bifrost_dma.c:102-111 | exactly the device's interrupt numbers belong to a channel, each to its own |
| DmaCtl.DmaController.FindFirstIdle | bifrost/bifrost_dma.c:84-94 | the least idle channel leaves the bitmap |
| DmaCtl.DmaController.StartXfer | bifrost/bifrost_dma.c:171-191 | bitmap, slot and list follow the scheduler's submission step |
| DmaCtl.DmaController.DoneTake | bifrost/bifrost_dma.c:229-239 | an interrupt is spurious exactly when no request is in progress on its channel |
| DmaCtl.DmaController.DoneFinish | bifrost/bifrost_dma.c:254-264 | the first waiting request takes the channel, else the channel becomes idle |
| DmaCtl.DmaController.DrainedBitmap | bifrost/bifrost_dma.c:254-264 | after draining the idle bitmap is the initial one |
| DmaCtl.TicketsDiffer | bifrost/bifrost_dma.c:72-81 | a ticket is the low 31 bits of the counter, so 2^31 consecutive ones differ |
| SpeedStats.SpeedIsExact | bifrost/bifrost_dma.c:200-203 | the product never leaves 64 bits; the speed is the rounded-down quotient iff the time is not cut to 32 bits or the cut does not matter |
| SpeedStats.AverageBounds | bifrost/bifrost_dma.c:206-217 | the average lies within n - 1 below the mean of n samples while no product wraps around |
| SpeedStats.CloseIffNoWrap | bifrost/bifrost_dma.c:206-217 | the average is that close after every sample if and only if no product wraps, for fewer samples than the root of the word |
| SpeedStats.AccountedIffNoWrap | bifrost/bifrost_dma.c:206-217 | for any number of samples: average and remainders make up the sum if and only if no product wraps |
| SpeedStats.OverflowBreaksBound | bifrost/bifrost_dma.c:210-210 | three samples whose product wraps and breaks the bound |
| SpeedStats.DirectionStats.AddStats | bifrost/bifrost_dma.c:193-220 | counters and average of one direction after one more transfer; the product of this update decides whether the average stays close to the mean |
| UsimMachine.RunKeepsInv | animal-i2c/i2c_usim.c:137-264 | in every interleaving references, states, replies and order stay consistent |
| UsimMachine.RunIsMonotone | animal-i2c/i2c_usim.c:63-92 | states only advance, a stored reply is never replaced, a freed event is never touched again |
| UsimMachine.HandedInPostingOrder | animal-i2c/i2c_usim.c:171-189 | events are handed out in the order they were posted |
| UsimMachine.GetsInPostingOrder | animal-i2c/i2c_usim.c:171-189 | of two GETs in a run the earlier one gets the event posted earlier |
| UsimMachine.EventLaw | animal-i2c/i2c_usim.c:137-264 | what every step makes of an event: state, status, length, data and count; an event is freed exactly by its last holder |
| UsimMachine.WakeDecides | animal-i2c/i2c_usim.c:151-151 | a sender counts as interrupted if and only if its event was not done when it woke |
| UsimMachine.SenderResult | animal-i2c/i2c_usim.c:147-158 | every sender returns its event's error, else success if the event was done when it woke, else that it was interrupted; and the event's data |
| UsimMachine.SenderSeesItsReply | animal-i2c/i2c_usim.c:147-158 | a sender that was not interrupted returns the status, and on success the data, put for its own ticket |
| UsimMachine.ClosedLeavesNoneInProgress | animal-i2c/i2c_usim.c:240-264 | with the device closed no queued event is in progress |
| UsimMachine.CountIsHolders | animal-i2c/i2c_usim.c:160-169 | the reference count is the number of parties holding the event, and no queued or held event is freed |
| UsimMachine.ReleasedUnlessStranded | animal-i2c/i2c_usim.c:147-216 | when both sides are finished the event is released, always so if the sender was not interrupted |
| UsimMachine.StrandedExactlyWhen | animal-i2c/i2c_usim.c:191-264 | a reference is lost exactly when PUT or close no longer finds an owed event on the queue |
| UsimMachine.LeakedIffGivenUp | animal-i2c/i2c_usim.c:147-264 | over any run, a finished event is still allocated, for ever, if and only if PUT or close gave it up while owed and off the queue |
| UsimMachine.LeakRun | animal-i2c/i2c_usim.c:147-216 | a run that leaks an event: the sender is interrupted while the receiver works on it |
| UsimMachine.PutSafeIffOwed | animal-i2c/i2c_usim.c:319-338 | PUT of a queued event leaves it allocated if and only if the receiver had got it and owed its reply |
| I2cUsim.Simulator.PostEvent | animal-i2c/i2c_usim.c:122-145 | a new event with the next ticket and one reference joins the queue |
| I2cUsim.Simulator.Wait | animal-i2c/i2c_usim.c:151-151 | the wait returns 0 if and only if the event is done at that moment |
| I2cUsim.Simulator.TakeResult | animal-i2c/i2c_usim.c:157-169 | status or interruption is returned and the sender's reference dropped |
| I2cUsim.Simulator.FinishBlockRead | animal-i2c/i2c_usim.c:496-511 | what an SMBus block read returns, given status and data of its event |
| I2cUsim.Simulator.FinishI2cRead | animal-i2c/i2c_usim.c:580-586 | what a plain read returns |
| I2cUsim.Simulator.OpenDevice | animal-i2c/i2c_usim.c:231-238 | at most one receiver has the device open |
| I2cUsim.Simulator.Poll | animal-i2c/i2c_usim.c:266-285 | readable exactly when some event is ready |
| I2cUsim.Simulator.GetFirstReady | animal-i2c/i2c_usim.c:171-189 | the first ready event is marked and referenced, or there is none |
| I2cUsim.Simulator.FinishGet | animal-i2c/i2c_usim.c:301-318 | a GET that cannot copy the event out completes it with an error |
| I2cUsim.Simulator.LookupTicket | animal-i2c/i2c_usim.c:191-208 | any ticket is found exactly when its event is on the list; an owed one is settled |
| I2cUsim.Simulator.CompleteEvent | animal-i2c/i2c_usim.c:210-344 | for an event the receiver owes: the reply made of what the user passed in is stored and the event marked done |
| I2cUsim.Simulator.PutUnowed | animal-i2c/i2c_usim.c:319-338 | PUT of a listed ticket the receiver does not owe frees the event while it is still on the list |
| I2cUsim.Simulator.DropEvent | animal-i2c/i2c_usim.c:215-215 | the receiver's reference is dropped, freeing the event if it was the last |
| I2cUsim.Simulator.CloseDevice | animal-i2c/i2c_usim.c:240-264 | the loop over the list completes exactly the queued events in progress |
| I2cUsim.BlockReadRoundTrip | animal-i2c/i2c_usim.c:328-508 | in any run a block read that finds its event done when it wakes returns exactly the 1 to 32 bytes put for it, and fails otherwise |
| I2cUsim.I2cReadRoundTrip | animal-i2c/i2c_usim.c:328-584 | likewise, a plain read returns the first bytes put for its event, padded with what was posted |
| I2cUsim.WriteRoundTrip | animal-i2c/i2c_usim.c:324-605 | in any run a write succeeds if and only if its event was done when it woke and its reply was put |
| I2cUsim.ServedRun | animal-i2c/i2c_usim.c:147-344 | any reply of up to 512 bytes can be served: a run in which the reader succeeds with these bytes and the event is freed |
| EventQueues.RunKeepsInv | bifrost/bifrost_cdev.c:201-249 | the queue invariant holds in every run of offers, reads and mask changes |
| EventQueues.ReaderSeesAcceptedInOrder | bifrost/bifrost_cdev.c:201-249 | events read, then events waiting, are the accepted events in order; at most 20 wait |
| EventQueues.ReadsInOrder | bifrost/bifrost_cdev.c:201-216 | in every run the k-th successful read returns the k-th accepted event, and the rest is pending |
| EventQueues.OfferLaw | bifrost/bifrost_cdev.c:218-294 | an event is accepted iff it is wanted, could be copied and fewer than 20 accepted ones are unread; it then is pending last |
| EventQueues.MasksLaw | bifrost/bifrost_cdev.c:234-249 | the masks in force are those last set |
| EventQueues.Handle.EnqueueEvent | bifrost/bifrost_cdev.c:218-232 | an event is refused exactly when 20 are pending |
| EventQueues.Handle.DequeueEvent | bifrost/bifrost_cdev.c:201-216 | the oldest pending event is returned and the count follows the list |
| EventQueues.FilterMeans | bifrost/bifrost_cdev.c:234-249 | a handle wants an interrupt iff bit 0 is enabled and a source is forwarded, a completion iff bit 3 is enabled and the cookie is its address, any other kind iff the event mask has a bit of it |
| EventQueues.Handle.Poll | bifrost/bifrost_cdev.c:187-199 | readable exactly when an accepted event has not been read |
| EventQueues.Device.Open | bifrost/bifrost_cdev.c:107-142 | a new handle joins the list first, with an empty queue and nothing enabled |
| EventQueues.Device.Release | bifrost/bifrost_cdev.c:151-178 | the handle leaves the list, the others stay as they were |
| EventQueues.Device.CreateEvent | bifrost/bifrost_cdev.c:273-300 | every open handle is offered the event, and has been offered all events since it was opened, in order |
| DmaEvents.Bifrost.Submit | bifrost/bifrost_cdev.c:406-446 | a request carries the handle as cookie and the next ticket, and goes to the scheduler |
| DmaEvents.Bifrost.Interrupt | bifrost/bifrost_pci.c:387-407 | the event of the request in progress is offered to every open handle, or the interrupt is spurious |
| DmaEvents.Bifrost.Notify | bifrost/bifrost_pci.c:397-404 | the event of any completed request, whatever interleaves, is offered once |
| DmaEvents.Bifrost.SubmitterIsOffered | bifrost/bifrost_pci.c:397-404 | an open handle is offered a completion with the ticket, under its own address, of each of its requests whose event was created |
| DmaEvents.Bifrost.CompletionsDiffer | bifrost/bifrost_pci.c:397-404 | two requests of one handle less than 2^31 submissions apart complete with different ids |
| DmaEvents.Bifrost.WantedIsOwnIff | bifrost/bifrost_cdev.c:243-246 | a completion an open handle wanted is of a request with its address, its own iff younger than the handle, iff the submitter is open |
| DmaEvents.StaleCompletion | bifrost/bifrost_cdev.c:243-246 | a transfer in flight when its handle closes completes to the handle opened at the same address |
| DmaEvents.StaleRun | bifrost/bifrost_cdev.c:243-246 | from a freshly started device with one channel such a run exists |

## Left out

- Cache maintenance, `mmap`, user page tables and the `/proc` listing of the allocator: hardware or kernel behaviour and formatting.
- Parsing of module parameters: the model starts from parsed block bounds and pool tables.
- Translation of user addresses in FREE: the physical address is the input.
- Failing `kmalloc` of bookkeeping nodes, faults of user copies after a state change, and signals that interrupt `release` part-way.
- A new open in the middle of a last close.
- The flags of a buffer, which only choose the page protection of `mmap`.
- `CmemInit.Initialise`: for a table without room for a heap's entry it promises only that entries are not apart; what sharing an entry then does to the two pools is not modelled.
- `CmemDriver.Driver.FreeBuffer`: it starts from a sound state, so it says nothing about a FREE after a heap request that broke the heap; `HeapMem.EmptyFreeLoops` says what such a FREE writes.
- `CmemDriver.Driver.GetPool`: for a block number below two that is not configured the model returns the error of a failed search, as empty tables do in the source.
- User-buffer transfers, PCI probing, register access, the membus and message-signalled-interrupt tables.
- Timestamps and wake-ups: a blocked sender is a step that is not enabled yet.
- The work queue between an interrupt and the creation of its event: events are ordered by their creation.
- Lists that the source links through the entries themselves are sequences here; the entries of pool lists, registrations and DMA requests are values, so aliasing between lists is not modelled beyond what the invariants state. The heap's own list is modelled cell by cell.
