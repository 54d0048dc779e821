# Verified model of the flash driver, allocators, queues, rings and drawing primitives

The project models five parts of the firmware library and proves what they are for.

* **Flash driver.** `At45Chip` is an AT45 chip: memory, page buffer 1, chip select, the command it is carrying out, a
  counter of status reads until it is ready again, and a flag that any breach of its protocol sets for good (an unknown
  or ill-timed command, data to a busy or unselected chip, a select without a deselect; `Breaches` and `FaultStays`).
  `At45Device` is the device driver above it with its `next` state machine and the tables of the identification,
  `Segments` the arithmetic that cuts a block request into page segments, `DataflashState` the invariant of a block
  request, and `Dataflash` the block driver: its workers, the submission of buffer lists at any time, the completion of
  SPI operations, and the main loop. `Request` is a whole request on an idle device, with buffers attached before or
  submitted at any time, and `RunRequest` its run under every order of submissions and completions.
* **Allocators.** `Physmem` hands out addresses from both ends of a pool, `MemPool` threads a free list through the
  objects of a byte array (a pointer takes four bytes, least significant first), and `MemBag` allocates from several
  such pools, which may draw from different physical pools, and finds a block's pool by its address. `BagRuns` is any
  run of allocations, releases and stores, with a model that says what each of them does. `BagCases` holds concrete
  bags on which the allocator does not do what its documentation says. `Util` is the rounding they use.
* **Lists and queues.** `Slist` is the circular list with a sentinel, on real nodes, with borrowing and giving back.
  `Workqueue` puts tasks in queues, uses the `next` pointer as the "is queued" flag, and builds the nested work queue
  on top; its `Serve` shows that every sequence of calls on real queues does what `Services` says, a model of the main
  queue and the resource, which in turn runs the arbiter of `Arbiters`, which serves tasks in order.
* **Ring and stream.** `Ring` has the free-running indices of an arbitrary word size and the exclusive-or test, and
  `Stream` the character stream, once as an object and once as a state machine in which a producer and a consumer
  interleave one access at a time, each with its own snapshot of the other's index.
* **Integer algorithms.** `Lines` is the Bresenham line, `Circles` the midpoint circle with its 16-bit error term,
  `Pixmaps` the clipped fill, the clipped pixmap copy with its fast path and the tiling of a bitmap (the RAM case of
  `gfx_put_bitmap` is the pixmap copy with the bitmap's own pixels, so `PutPixmap` stands for both), and `Memgame` the
  random generator, the rejection sampling that relies on its period, and the dealing of the pieces.

`Bits` holds powers of two, bitwise operations on natural numbers, and the laws of division that the rest needs.
Structures that the C code updates in place are classes; a `View()` of the flash driver's classes is a value, so that
the steps of the driver are proved as lemmas about values. Interrupt-disabled sections are single steps.

Where the code and its comments, or the code and what one would expect, part ways, the model follows the code:

* `nested_workqueue_add_task` is documented to do nothing for a task that is queued already. It leaves the arbiter as
  it was exactly if somebody holds the resource (`NestedQueue.Add`); otherwise the queued task becomes the holder, as it
  does in `QueuedTaskBecomesHolder`.
* `membag_free` is documented to ignore invalid addresses; it ignores an address exactly if it is neither in a bag nor
  the end of one (`IgnoredIff`), whether it is a block (`SlotIff`) or has been handed out or not. Any other address goes
  on a free list, and one more free block is counted (`MemBag.Free`); `FreeingForeign` gets one block too many that way
  with every address from a bag's start to its end.
* `membag_free` is documented to return a block to the correct bag. For bags that do not overlap it does exactly if no bag
  ends where a later one begins (`FindsOwnersIff`), which the descending addresses of one physical pool guarantee; then
  it holds over every run (`BagRuns.Serve`). With two adjacent physical pools a block goes to the wrong bag
  (`BlockGoesToTheWrongBag`).
* `membag_alloc` is documented to take a block from the smallest suitable bag. It takes the first suitable one, which is
  a smallest one in every state exactly if the block sizes ascend (`TakesSmallestIff`); otherwise a larger block may be
  taken while a smaller one is free (`LargerBlockIsTaken`).
* `physmem_alloc` grants a request that is larger than the pool's end address when the subtraction wraps, and at the
  bottom one whose addition wraps (`TopInsideIffNoWrap`, `BottomInsideIffNoWrap`; `OversizedRequestIsGranted` and
  `OversizedRequestIsGrantedLow` make such requests).
* The flash driver accepts 256- and 512-byte pages, but its address arithmetic is right exactly for 1024-byte pages
  (`PageAddressing`), and with 256-byte pages a request never gets nearer to its end (`PageProgress`). Of the devices
  the identification accepts, exactly those with the highest density code have such pages (`DevicePages`).
* A `buf_list_done` callback that does not detach the list it is handed, like the empty one in
  `source/util/fs/tsfs.c:67-71`, still gets every buffer back with the right bytes, but on the next page it is handed
  the last list of the page before once more, and the list left at the end of a request is handed over by the next
  request. What an earlier request left comes first; beyond that a request hands nothing over twice exactly if the
  callback detaches its lists or the request lies in a single segment, and it leaves nothing behind exactly if the
  callback detaches (`Request`). `ReadTwoBlocks` reads two single blocks without detaching: the second request hands the
  first one's buffer over once more.
* A circle is drawn right exactly up to radius 8345 (`DrawCircle`): for larger radii the 16-bit error term overflows,
  and one column is drawn a pixel too low. With a wide enough term every radius is drawn right (`ArcIsOctant`).
* A line is drawn right exactly if both dimensions are below 32767 (`DrawLine`). The loop does not end for a dimension
  that is stored as 32767, which are those of 32767 and 32769 (`StoredIs`).
* A rectangle that reaches beyond 16 bits is sent to a window with its limits the wrong way round or not drawn at all
  (`DrawFilledRect`, `PutPixmap`), and tiles that end beyond 16 bits are not the last ones (`TilesEndIff`): the loop may
  go on for ever (`EndlessTiles`).

## Model

| member | source | states |
|---|---|---|
| Dataflash.Driver.Request | source/drivers/block/dataflash.c:281-545 | from its preparation on an idle device, with some buffers attached before and the others submitted at any time, a request ends with exactly what its arguments ask for and the device idle again; the client is handed what an earlier request left, and beyond that nothing twice if and only if it detaches its lists or the request is a single segment; it leaves nothing if and only if it detaches, and otherwise the end of what it was handed |
| Dataflash.Driver.ReadBlock | source/util/fs/tsfs.c:88-111 | a buffer is attached, its block is read into it and the list stays on the device; the client is handed exactly what the request before left there, and its own buffer once |
| Dataflash.Driver.ReadTwoBlocks | source/util/fs/tsfs.c:67-110 | two reads of one block each by a client that detaches nothing: both blocks are right, and the second request hands over the first buffer again |
| Dataflash.Driver.RunRequest | source/drivers/block/dataflash.c:281-528 | a whole request ends, whatever the order of submissions and completions; a write leaves the flash with exactly its range replaced by the buffers in order, a read fills the buffers in order from exactly that range; counters and lba are right at the end, and the chip saw no breach of its protocol |
| Dataflash.Driver.Submit | source/drivers/block/dataflash.c:504-511 | a prepared request, with buffers attached or not, starts with the invariant of every run |
| Dataflash.Driver.SubmitBufList | source/drivers/block/dataflash.c:514-528 | the list goes to the end of the request's list, and a sleeping request is queued, one that is not sleeping is not queued again |
| Dataflash.Driver.SubmitNext | source/drivers/block/dataflash.c:514-528 | a submission at any point of a run keeps the invariant; a sleeping request is then queued |
| Dataflash.Driver.BufListDone | source/drivers/block/dataflash.c:286-287 | the client is handed all transferred buffers, detaches them or leaves them where they are, and may submit more lists meanwhile |
| Dataflash.Driver.ReturnBuffers | source/drivers/block/dataflash.c:317-330 | the buffers that crossed the bus, or those a client left behind on the page before, are handed back, and the device's list is empty after that |
| Dataflash.Driver.StartRequest | source/drivers/block/dataflash.c:483-501 | the first worker leaves the request queued, in transfer or asleep, closer to its end |
| Dataflash.Driver.ReadSetup | source/drivers/block/dataflash.c:373-385 | a fresh select and a read command for exactly the segment's address; the invariant holds again |
| Dataflash.Driver.WriteSetup | source/drivers/block/dataflash.c:462-481 | a segment that is a whole page goes straight to buffer 1, and only for a part of a page the page is loaded first; the invariant holds again |
| Dataflash.Driver.WriteReady | source/drivers/block/dataflash.c:426-435 | with buffer 1 prepared, the data phase starts at the segment's offset in the page |
| Dataflash.Driver.WriteBuffered | source/drivers/block/dataflash.c:451-460 | the deselect starts the page load, and the wait for it begins |
| Dataflash.Driver.WriteBufferedWait | source/drivers/block/dataflash.c:437-449 | buffer 1 is written to only after the chip reported ready |
| Dataflash.Driver.Transfer | source/drivers/block/dataflash.c:308-362 | waiting buffers are taken and handed to the bus, or the request sleeps; no buffer is lost |
| Dataflash.Driver.TakeBuffers | source/drivers/block/dataflash.c:332-347 | buffers are taken in order until the list is empty or the segment full, and not earlier, also if more arrive meanwhile; none runs past the segment |
| Dataflash.Driver.WriteDone | source/drivers/block/dataflash.c:412-424 | a full segment in buffer 1 leads to the program command for its page |
| Dataflash.Driver.WriteWaitBegin | source/drivers/block/dataflash.c:401-410 | the deselect programs buffer 1 into the page: the flash now holds the segment too |
| Dataflash.Driver.WriteWait | source/drivers/block/dataflash.c:387-399 | the page is done only after the chip reported ready |
| Dataflash.Driver.ReadDone | source/drivers/block/dataflash.c:364-371 | the segment's buffers are returned with what the flash holds there |
| Dataflash.Driver.PageDone | source/drivers/block/dataflash.c:281-303 | the remaining blocks decrease; with none left the bus is released and the request has done exactly what was asked |
| Dataflash.Driver.SpiComplete | source/drivers/flash/at45_device.c:43-88 | an SPI completion queues the task exactly once and keeps the invariant |
| Dataflash.Driver.RunTask | source/drivers/block/dataflash.c:281-501 | running the queued task keeps the invariant and brings the request closer to its end, or it sleeps |
| DataflashState.NextBuffer | source/drivers/block/dataflash.c:333-345 | the next waiting buffer is the next one of the plan and fits the segment, so the assertion in the loop holds |
| DataflashState.SubmittedKept | source/drivers/block/dataflash.c:514-528 | whatever the client submits between two steps, every buffer stays accounted for |
| DataflashState.FallAsleep | source/drivers/block/dataflash.c:323-329 | a request sleeps only with its list empty and nothing taken, and is then in no queue and in no transfer |
| DataflashState.BuffersWritten | source/drivers/block/dataflash.c:360 | bytes on the bus extend what buffer 1 holds of the segment and leave the rest of the page's bytes alone |
| DataflashState.BuffersRead | source/drivers/block/dataflash.c:354 | bytes from the bus fill the buffers with what the flash holds next |
| DataflashState.ProgramPage | source/drivers/block/dataflash.c:401-424 | programming buffer 1 extends the written range by the segment and changes nothing else |
| DataflashState.LoadBuffer | source/drivers/block/dataflash.c:451-460 | loading the page gives buffer 1 the other half of the page |
| DataflashState.RequestFinished | source/drivers/block/dataflash.c:297-302 | when no blocks remain the request is finished in the sense of `RunRequest` |
| DataflashState.StillComing | source/drivers/block/dataflash.c:324-329 | a sleeping request has lists still to be submitted if the client promised enough buffers |
| Segments.Fill | source/drivers/block/dataflash.c:354 | storing the bytes of a transfer in a buffer list keeps its shape and gives exactly these bytes in list order |
| Segments.PageProgress | source/drivers/block/dataflash.c:251-292 | a completed page counts for at least one block if and only if pages are not smaller than blocks |
| Segments.PageAddressing | source/drivers/block/dataflash.c:383-384 | page `lba >> 1`, position `(lba & 1) << 9` is block `lba` for every lba if and only if pages have 1024 bytes |
| Segments.SegmentIs | source/drivers/block/dataflash.c:197-276 | for all three page sizes a segment is as much of the request as the page holds from its position on, and counts as aligned if and only if that is the whole page |
| Segments.SegmentHoldsBuffer | source/drivers/block/dataflash.c:251-276 | a buffer within its page and the request never runs past the segment it starts in |
| Segments.ProgramSegment | source/drivers/block/dataflash.c:412-424 | a page programmed from the segment's new bytes and the page's old bytes is the flash with the segment replaced |
| At45Device.Device.CmdContArrayRead | source/include/flash/at45_device.h:228-243 | the command byte is 0x0b, the next three are the 24-bit number with the page in its upper 13 and the position in its lower 11 bits, and the last is the dummy; the chip reads from exactly there, and a position of 1024 or more, which is outside of the page, is no valid read |
| At45Device.Device.CmdBuffer1Write | source/include/flash/at45_device.h:253-264 | the command byte is 0x84 and the last two bytes are the position; the chip writes buffer 1 from exactly there |
| At45Device.Device.CmdMainMemoryToBuffer1Transfer | source/include/flash/at45_device.h:274-284 | the command byte is 0x53 and the next two hold the page; the chip loads exactly that page |
| At45Device.Device.CmdBuffer1MainMemoryProgramWithErase | source/include/flash/at45_device.h:294-304 | the command byte is 0x83 and the next two hold the page; the chip programs exactly that page |
| At45Device.AddressBytes | source/include/flash/at45_device.h:228-243 | a 13-bit page and an 11-bit position make up the 24-bit number of the three bytes and survive the packing |
| At45Device.Device.WaitReady | source/drivers/flash/at45_device.c:82-88 | one step of the poll changes nothing but the poll, reports ready only when the chip is, with the chip deselected, and otherwise gets closer |
| At45Device.Device.WaitPollDone | source/drivers/flash/at45_device.c:45-53 | a status that is not ready leads to a new status command after a deselect and a select |
| At45Device.Device.Identify | source/drivers/flash/at45_device.c:199-205 | each step of the identification keeps its invariant; the last one leaves the flags right and the chip deselected |
| At45Device.Device.RunIdentify | source/drivers/flash/at45_device.c:118-205 | the identification ends however long the chip is busy, without a breach of the protocol, with the bus released and the device idle; the device is valid exactly for manufacturer 0x1f and device 0x22 to 0x28, protected exactly if bit 1 of the status says so, and size and page size are as `DevicePages` says |
| At45Device.ValidIds | source/include/flash/at45.h:188-243 | the masks and codes accept exactly the devices 0x22 to 0x28 of manufacturer 0x1f |
| At45Device.StatusBits | source/include/flash/at45.h:119-125 | bit 7 of the status is the ready bit and bit 1 the protection |
| At45Device.DevicePages | source/include/flash/at45.h:151-276 | a valid device 0x22 + n has 2^n times 128 KiB; pages have 256 bytes up to 0x25, 512 up to 0x27 and 1024 for 0x28; they are whole pages that 13 bits can number |
| Physmem.PhysmemPool.Alloc | source/util/physmem.c:66-78 | success moves the end down to an aligned region disjoint from all earlier ones, failure changes nothing |
| Physmem.PhysmemPool.AllocLow | source/util/physmem.c:98-110 | success at the bottom moves the start up past an aligned region disjoint from all earlier ones if no addition overflows, failure changes nothing |
| Physmem.TopIsHighest | source/util/physmem.c:66-78 | the top allocation takes the highest aligned place there is, and fails only if there is none |
| Physmem.BottomIsLowest | source/util/physmem.c:98-110 | the bottom allocation takes the lowest aligned place there is, and fails only if there is none |
| Physmem.TopInsideIffNoWrap | source/util/physmem.c:66-78 | a granted region ends inside the pool if and only if the size does not exceed the end address |
| Physmem.OversizedRequestIsGranted | source/util/physmem.c:66-78 | a pool of 256 bytes grants 768 bytes, at an address far beyond its end |
| Physmem.OversizedRequestIsGrantedLow | source/util/physmem.c:98-110 | a pool grants nearly the whole address space at its bottom, and its start moves down |
| Physmem.BottomInsideIffNoWrap | source/util/physmem.c:98-110 | a region granted at the bottom lies inside the pool if and only if no addition overflows |
| Util.IsPowerOfTwo | source/include/util.h:236-239 | the bit test holds exactly of the powers of two |
| Util.RoundDown | source/include/util.h:266-269 | the mask gives the multiple of the boundary at or less than one boundary below the number |
| Util.RoundDownIsHighest | source/include/util.h:243-254 | no multiple of the boundary is closer from below |
| Util.RoundUp | source/include/util.h:296-299 | the multiple of the boundary at or less than one boundary above the number, and zero exactly when the addition overflows |
| Util.RoundUpIsLowest | source/include/util.h:273-284 | no multiple of the boundary is closer from above |
| MemPool.Pool.Init | source/util/mempool.c:75-106 | all objects that fit the area are on the free list, lowest address first, and nothing outside is written |
| MemPool.CarvedFits | source/util/mempool.c:85-104 | the objects lie inside the area, at the first boundary and as small as the alignment allows, there is at least one, and one more would not fit |
| MemPool.Pool.InitPhysmem | source/util/mempool.c:126-148 | exactly the requested number of aligned objects, carved from a fresh region of the physical pool |
| MemPool.ObtainedCarves | source/util/mempool.c:137-147 | memory from the physical pool is aligned already, so no object is lost to rounding |
| MemPool.Pool.Alloc | source/util/mempool.c:157-171 | the object freed last or, if none is free, NULL; the object was not handed out before |
| MemPool.Pool.Free | source/util/mempool.c:190-206 | the object goes to the front of the list, and only its first four bytes are written |
| MemPool.Pool.ClientWrite | source/util/mempool.c:51-53 | what a client stores in an object it holds cannot change the free list |
| MemPool.Pool.KeptInLive | source/util/mempool.c:51-53 | the same as a fact about memories |
| MemPool.Pool.Accounted | source/util/mempool.c:157-206 | free objects and objects handed out make up all objects |
| MemPool.ChainKept | source/util/mempool.c:157-206 | the list through memory does not depend on the bytes of an object that is not on it |
| MemPool.DistinctSlotsApart | source/util/mempool.c:97-101 | different objects do not overlap |
| MemPool.PointerBytes | source/util/mempool.c:51-53 | the four bytes of a pointer give it back |
| MemBag.Bag.InitPhysmem | source/util/membag.c:115-147 | a bag's blocks are all free and aligned, its bounds are those of the blocks, below everything handed out before |
| MemBag.MemBag.Init | source/util/membag.c:163-171 | all bags are set up without disturbing one another, each right below what its physical pool supplied before; with a single physical pool the lookup finds every owner |
| MemBag.MemBag.Alloc | source/util/membag.c:270-316 | a block of the first bag that is large enough and has one left, which counts one block less; NULL exactly if there is no such bag; the bags' ranges and layouts stay, and other bags are unchanged |
| MemBag.TakesSmallestIff | source/util/membag.c:260-316 | the bag taken is a smallest suitable one in every state if and only if the block sizes ascend |
| MemBag.MemBag.Free | source/util/membag.c:327-342 | the address goes on the list of the first bag whose range or end it is, and is ignored if there is none; a block goes back to the bag that issued it and to no other if the lookup finds all owners |
| MemBag.MemBag.AllocAndFree | source/util/membag.c:270-342 | giving a block back right after its allocation restores the free list and the count of every bag |
| BagRuns.Serve | source/util/membag.c:270-342 | over any run of allocations, releases of blocks held and stores in them, in any order, the bags do exactly what the model says: a block comes from the first bag that fits and goes back to the front of the bag that issued it, the blocks held are different ones, and a stored byte stays until its block is given back |
| BagRuns.InitAndServe | source/util/membag.c:163-342 | the same from the set-up on with one physical pool, and once everything is given back every bag has all its blocks again |
| BagRuns.AllocOne | source/util/membag.c:270-316 | an allocation changes the model's heap as the model says, and the result is the block it adds |
| BagRuns.FreeOne | source/util/membag.c:318-342 | giving back a block puts it in front of the list of the bag that issued it, and no byte stored in another block changes |
| BagRuns.OthersElsewhere | source/util/membag.c:270-342 | no block held reaches into another one or into the place of its list pointer |
| MemBag.IgnoredIff | source/util/membag.c:318-342 | an address is ignored if and only if no range accepts it |
| MemBag.SlotIff | source/util/membag.c:318-342 | the blocks of a bag are those addresses in it that are a multiple of the block size from its start |
| MemBag.MemBag.Owners | source/util/membag.c:331-341 | the search by address finds the issuing bag of every block |
| MemBag.FindsOwnersIff | source/util/membag.c:331-341 | for ranges that do not overlap the search finds every owner if and only if no range ends where a later one begins |
| MemBag.DescendingFindsOwners | source/util/membag.c:331-341 | ranges in descending order satisfy that condition |
| MemBag.ForeignAcceptedIff | source/util/membag.c:318-333 | an address in no range is accepted if and only if it is the end of one |
| BagCases.FreeingForeign | source/util/membag.c:318-342 | in a bag of two blocks, none of which was handed out, freeing any address from its start to its end, block or not, makes three free blocks with that address first |
| BagCases.BlockGoesToTheWrongBag | source/util/membag.c:318-342 | with two adjacent physical pools the first block of the upper bag is freed to the lower one, which then has five free blocks of four |
| BagCases.LargerBlockIsTaken | source/util/membag.c:260-316 | with the larger blocks configured first, a request takes the larger block while the smaller one, which would do, stays free |
| MemBag.MemBag.ClientWrite | source/util/membag.c:270-342 | what a client stores in its block disturbs no bag |
| MemBag.MemBag.GetFree | source/util/membag.c:205-216 | the sum of the bytes on all free lists |
| MemBag.MemBag.BytesConserved | source/util/membag.c:181-216 | free bytes and bytes handed out always add up to the configured total |
| Slist.List.InsertHead | source/include/slist.h:130-137 | the list is well formed with the node in front |
| Slist.List.InsertTail | source/include/slist.h:142-148 | the list is well formed with the node at the end |
| Slist.List.PopHead | source/include/slist.h:278-291 | the first node comes off, the rest is well formed |
| Slist.List.MoveToTail | source/include/slist.h:198-202 | all nodes move to the end of the other list in order, and the source is empty |
| Slist.List.MoveToHead | source/include/slist.h:209-218 | all nodes move to the front of the other list in order, and the source is empty |
| Slist.List.BorrowToTail | source/include/slist.h:164-171 | the borrower has all nodes, the lender keeps its own chain of them |
| Slist.List.InsertTailLent | source/include/slist.h:142-171 | appending to the borrower keeps the loan in order |
| Slist.List.PopHeadLent | source/include/slist.h:164-291 | taking nodes off the borrower keeps the loan in order |
| Slist.List.LaterNodes | source/include/slist.h:185-191 | the borrower's later nodes hang on the last node lent |
| Slist.List.GiveBackHead | source/include/slist.h:185-191 | the lender is restored to its original sequence, the borrower is well formed with exactly the later nodes |
| Slist.Lend | source/include/slist.h:150-191 | for any mixture of appending and taking in between, lending and giving back restores the lender and leaves the borrower what was appended; nodes come off in order |
| Workqueue.AddTask | source/util/workqueue.c:69-95 | a task is appended exactly if it is not null and in no queue, otherwise nothing changes; all queues stay well formed |
| Workqueue.PopTask | source/include/workqueue.h:198-216 | the first task comes off and is in no queue any more, null exactly for an empty queue |
| Workqueue.TaskInit | source/include/workqueue.h:144-151 | a task that is in no queue becomes ready for use |
| Workqueue.QueuedOnce | source/include/workqueue.h:175-178 | `next` is not null if and only if the task is in a queue, and then it is in one only |
| Workqueue.NestedQueue.Add | source/util/workqueue.c:111-127 | for a task in no queue a request to the arbiter, granted in the main queue at once exactly if nobody holds the resource; for a queued task nothing changes if and only if somebody holds it |
| Workqueue.QueuedTaskBecomesHolder | source/util/workqueue.c:111-127 | a task queued elsewhere becomes the holder although adding it reports that nothing was done |
| Workqueue.NestedQueue.NextTask | source/util/workqueue.c:139-150 | a release of the arbiter; the next task in line, and no other, goes to the main queue |
| Workqueue.NestedQueue.WaitingNotInMain | source/include/workqueue.h:228-237 | tasks that wait are never in the main queue |
| Workqueue.NestedQueue.constructor | source/include/workqueue.h:255-259 | nobody holds the resource and nobody waits; the queue of its own is new |
| Workqueue.Serve | source/util/workqueue.c:111-150 | any sequence of requests, releases, additions to the main queue and turns of the main loop, on tasks in any queue or none, has exactly the effect that the model of the service says on the holder, those who wait, and the main queue, and the main loop runs exactly the tasks it says |
| Services.RunsArbiter | source/util/workqueue.c:111-150 | the resource goes through a run of its arbiter, in which a queued task is not heard while somebody holds the resource, and what is granted is what the arbiter grants |
| Services.RunsInOrder | source/include/workqueue.h:198-216 | the main loop runs the tasks put in the main queue, in that order, and no others |
| Services.OnlyGranted | source/util/workqueue.c:111-150 | if nobody else adds tasks and no task asks while it is queued, the main queue gets exactly the tasks that are granted the resource, in that order |
| Arbiters.ServedInOrder | source/util/workqueue.c:111-150 | over any run, after `n` releases the line is what was in line and requested, without the first `n` |
| Arbiters.GrantsInOrder | source/util/workqueue.c:111-150 | over any run, the grants are the requests in their order, without those still waiting |
| Arbiters.TurnComes | source/util/workqueue.c:139-150 | a task with `k` tasks waiting before it holds the resource after `k + 1` releases |
| Ring.RingHead.GetHead | source/include/ring.h:147-153 | the mask gives the remainder, an offset in the buffer |
| Ring.RingHead.GetTail | source/include/ring.h:166-172 | the mask gives the remainder, an offset in the buffer |
| Ring.DifferenceReaches | source/include/ring.h:182-185 | the unsigned difference of the indices leads from the tail to the head, also after an overflow |
| Ring.HeadFromTail | source/include/ring.h:196-208 | a bit of the indices differs exactly if the used part reaches the end of the buffer |
| Ring.WrapTest | source/include/ring.h:196-208 | the exclusive-or test compares that bit |
| Ring.RingHead.EntriesUsedBeforeEnd | source/include/ring.h:196-208 | the minimum of the used entries and the distance from the tail to the end of the buffer |
| Ring.RingHead.EntriesUnused | source/include/ring.h:219-223 | the size less the used entries |
| Ring.RingHead.EntriesUnusedBeforeEnd | source/include/ring.h:235-247 | the minimum of the unused entries and the distance from the head to the end of the buffer |
| Ring.RingHead.IsEmpty | source/include/ring.h:257-260 | equal indices mean no used entries |
| Ring.RingHead.IsFull | source/include/ring.h:271-275 | full means no unused entries |
| Ring.RingHead.InsertEntries | source/include/ring.h:288-293 | the used entries grow by as many, also over an overflow of the index |
| Ring.RingHead.ExtractEntries | source/include/ring.h:306-311 | the used entries shrink by as many, also over an overflow of the index |
| Stream.Stream.InsertChar | source/include/stream.h:211-219 | the character goes to the end of the contents |
| Stream.Stream.ExtractChar | source/include/stream.h:225-235 | the oldest character comes off the contents |
| Stream.StreamIsFifo | source/include/stream.h:211-235 | under every interleaving what comes out is a prefix of what went in, and the used entries are the difference, at most the size |
| Stream.ActionKeepsInv | source/include/ring.h:282-311 | every single access of either side keeps the invariant, with stale snapshots too |
| Stream.OnlyWhenDue | source/include/stream.h:211-235 | a side does nothing out of its turn, and nothing to the state of the other side |
| Stream.WriteMissesUnread | source/include/stream.h:211-219 | the producer never overwrites a character that is still to be extracted |
| Stream.InsertThenExtract | source/include/stream.h:211-235 | the state machine's accesses do insert a character and extract the oldest |
| Memgame.FullPeriod | source/apps/display-demo/app_memgame.c:296-301 | from any seed the generator reaches every 16-bit value |
| Memgame.ExactPeriod | source/apps/display-demo/app_memgame.c:296-301 | the generator returns to its seed exactly after multiples of 65536 steps |
| Memgame.WideJump | source/apps/display-demo/app_memgame.c:296-301 | `2^k` steps at once are one affine step |
| Memgame.JumpFlipsBit | source/apps/display-demo/app_memgame.c:296-301 | `2^k` steps change bit `k` and no lower bit |
| Memgame.Memgame.GetRandomIndex | source/apps/display-demo/app_memgame.c:478-495 | the search draws at least once, ends whenever a place is free, gives the first place drawn that is, and marks exactly that one |
| Memgame.Memgame.StartNewGame | source/apps/display-demo/app_memgame.c:504-537 | the six pairs get the twelve places two by two in the order in which they are drawn, each the first free one, so that each pair gets exactly two |
| Memgame.DealIsUnique | source/apps/display-demo/app_memgame.c:478-528 | the deal is determined by the seed it starts from |
| Memgame.FirstDraw | source/apps/display-demo/app_memgame.c:296-301 | the first game draws 13990 first, which is place 10 |
| Memgame.PairDealt | source/apps/display-demo/app_memgame.c:516-528 | dealing one pair keeps earlier pairs and gives the new one two places |
| Lines.DrawLine | source/drivers/gfx/gfx_generic.c:57-127 | whenever the call returns, it has drawn a connected line from one end point to the other, as short as possible and everywhere within half a pixel of the ideal line, if and only if both dimensions are below 32767 |
| Lines.LineIsUnique | source/drivers/gfx/gfx_generic.c:57-127 | the line that `DrawLine` promises is the only one: a pixel may be exactly half a pixel behind the ideal line but not ahead of it |
| Lines.StoredIs | source/drivers/gfx/gfx_generic.c:69-81 | dimensions in range are stored with their direction; others come out smaller or as 32767, and as 32767, for which the loop never ends, exactly if they are 32767 or 32769 |
| Lines.EndsIff | source/drivers/gfx/gfx_generic.c:83-126 | the loop ends if and only if its 16-bit counter can get past the longer dimension |
| Lines.RangeNeeded | source/drivers/gfx/gfx_generic.c:57-126 | a dimension is in the range of `DrawLine` if and only if 16 bits hold it and the counter that has to pass it |
| Lines.DrawFlat | source/drivers/gfx/gfx_generic.c:83-102 | the walk along x ends with as many pixels as the dimension says, and follows the rounded ideal line if that stays within 16 bits |
| Lines.DrawSteep | source/drivers/gfx/gfx_generic.c:103-126 | the walk along y ends with as many pixels as the dimension says, and follows the rounded ideal line if that stays within 16 bits |
| Lines.MinorStep | source/drivers/gfx/gfx_generic.c:83-126 | the error term crosses zero exactly when the rounded position steps |
| Lines.MinorNear | source/drivers/gfx/gfx_generic.c:83-126 | the rounded position is within half a pixel |
| Circles.DrawCircle | source/drivers/gfx/gfx_generic.c:206-255 | the loop ends for every radius; up to 8345 the pixels are exactly those nearest to the circle in the octants that the mask enables, and the offsets of one octant are right if and only if the radius is at most 8345 |
| Circles.OctantPixelsAre | source/drivers/gfx/gfx_generic.c:228-244 | an offset is drawn at exactly that distance from the centre in every enabled octant, counted from the right upwards |
| Circles.CircleIsRound | source/drivers/gfx/gfx_generic.c:206-255 | a complete octant of offsets gives exactly the nearest pixels of the enabled octants |
| Circles.ArcIsOctant | source/drivers/gfx/gfx_generic.c:222-254 | for every positive radius the loop draws that octant if its error term is wide enough |
| Circles.CircleStep | source/drivers/gfx/gfx_generic.c:228-252 | one turn of the loop keeps the error formula and the nearest pixel |
| Circles.ErrorFits | source/drivers/gfx/gfx_generic.c:224-248 | up to radius 8345 no error term is below the range of 16 bits |
| Circles.SlipExists | source/drivers/gfx/gfx_generic.c:224-248 | for every larger radius there is a first column that the overflow makes wrong |
| Circles.NearestIsUnique | source/drivers/gfx/gfx_generic.c:206-255 | a column has at most one nearest pixel |
| Circles.OctantComplete | source/drivers/gfx/gfx_generic.c:206-255 | no nearest pixel of the octant is left out |
| Pixmaps.Screen.DrawFilledRect | source/drivers/gfx/gfx_generic.c:142-204 | exactly the rectangle in the clip region gets the colour, also for negative sizes, if the rectangle fits 16 bits; otherwise it is not drawn or sent to a window with its limits the wrong way round |
| Pixmaps.SpanFitsIff | source/drivers/gfx/gfx_generic.c:152-181 | the 16-bit limits computed for a span are those of a span of its size if and only if it fits |
| Pixmaps.SpanTurned | source/drivers/gfx/gfx_generic.c:152-161 | a span of negative length that fits becomes the same span with a positive one, and one that does not fit does not fit after that either |
| Pixmaps.Screen.PutPixmap | source/drivers/gfx/gfx_generic.c:409-497 | exactly the rectangle in the clip region gets the matching pixels, and nothing else changes, if the rectangle fits 16 bits or is off the screen; otherwise it is sent to a window with its limits the wrong way round |
| Pixmaps.Screen.CopyRect | source/drivers/gfx/gfx_generic.c:459-496 | the contiguous fast path and the copy row by row give the same picture |
| Pixmaps.WindowPixels | source/drivers/gfx/gfx_generic.c:474-479 | filling a window from consecutive pixels is copying row by row if the pixmap is as wide as the window |
| Pixmaps.Screen.DrawBitmapTiled | source/drivers/gfx/gfx_bitmap.c:104-150 | every pixel covered by the tiles in the clip region gets the bitmap's pixel at its distance from the origin modulo the size, and nothing else changes |
| Pixmaps.TilesEndIff | source/drivers/gfx/gfx_bitmap.c:144-149 | the loop over the tiles is left after the last one if and only if its end fits 16 bits |
| Pixmaps.EndlessTiles | source/drivers/gfx/gfx_bitmap.c:144-149 | tiles 16384 pixels wide never get past 20000 |
| Pixmaps.TilesCoverArea | source/drivers/gfx/gfx_bitmap.c:104-150 | the tiles cover the whole output area |

## Left out

- SPI transfers, interrupt instructions, registers and the display controller: an SPI operation is an event that re-queues the task, and the display is a picture with a window and a cursor that advances row by row.
- Bus arbitration between devices: `Submit` starts with the bus granted, and `at45_request` and `at45_release` are the flag `busHeld`; the queue behind it is modelled in `Workqueue`.
- Real timing: the chip is busy for an arbitrary finite number of status reads. Sector sizes are not modelled.
- Dataflash.Driver.RunRequest: assumes 1024-byte pages, a request of at least one block inside the memory, lists and buffers that are not empty and do not cross a page or the request's end, and counters that do not overflow. Buffers are values with an address, so two buffers that share memory are not modelled.
- Dataflash.Driver.Request: the same assumptions, and a client that either always or never detaches the lists it is handed. What a list that is handed over twice does to the client's own structures is not modelled.
- Dataflash.Driver.SubmitBufList: buffer lists are sequences in the driver; the pointer structure is proved in `Slist`.
- Allocation and freeing of block requests, statistics and device information in `dataflash.c`.
- Physmem.PhysmemPool.AllocLow: that the pool stays disjoint from its regions assumes that no addition overflows, and says exactly when that is so.
- MemPool.Pool.InitPhysmem: memory mapping is the identity, and object sizes and counts do not overflow.
- MemBag.MemBag.Init: the physical pools are disjoint and have memory enough for all bags; a set-up that fails half-way is left out.
- MemBag.MemBag.Free: the address is followed by at least four bytes of memory, which the list pointer is written to. The pools keep their invariant for blocks that were handed out.
- The tuning statistics of `membag.c` except the number of free blocks; `max_blocks_used` counts allocations and never goes down.
- MemBag.MemBag.GetFree: the sum is not wrapped to the width of `size_t`.
- Slist.List.GiveBackHead: demands, as its documentation does, that a lent node is at the head of the borrower.
- Peeking at nodes and the tests for the last and for a valid node in `slist.h`.
- Worker functions of tasks outside of the flash driver, and the main loop: a task in `Workqueue` has no worker to run.
- Stream operations that print, flush or commit, and the two before-end queries of `stream.h`, which are calls of those of `Ring`.
- Stream.StreamIsFifo: memory accesses take effect in program order, as the barriers in `ring.h` demand.
- Lines.DrawLine: a call that does not return (`StoredIs`); clipping of single pixels is not modelled.
- Circles.DrawCircle: the pixels' coordinates are not wrapped to 16 bits.
- Pixmaps.Screen.DrawFilledRect: the clip region is not empty. What the display shows after pixels were sent to a window with its limits the wrong way round is not defined.
- Pixmaps.Screen.PutPixmap: the same, and the rows of the pixmap are numbered in 16 bits.
- Pixmaps.Screen.DrawBitmapTiled: the last tiles end within 16 bits, without which the loops do not end there (`TilesEndIff`).
- Bitmaps of the solid, program memory and large memory kinds, reading pixmaps back, filled circles, text and gradients.
- The rest of the memory game, windows, widgets, touch input and the file system.
