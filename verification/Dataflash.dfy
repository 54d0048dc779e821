/** The DataFlash block driver: one block request, worked off page by page by a task
    whose worker function is the program counter.

    The client submits buffer lists whenever it likes, also from interrupts and from the
    `buf_list_done` callback; `IrqWindow` stands for any number of such submissions at a
    point where interrupts are enabled. The SPI controller finishes an operation in
    `SpiComplete`, which queues the task again, and the main loop runs the task in
    `RunTask`. */
module Dataflash {
  import opened At45Chip
  import opened At45Device
  import opened Segments
  import opened DataflashState

  class Driver {
    const at45: Device
    var breq: Breq
    var bdev: Bdev
    var client: Client
    ghost var job: Job

    ghost function View(): State
      reads this, at45, at45.cmdrsp
    {
      State(breq, bdev, client, at45.View())
    }

    constructor (at45: Device)
      ensures this.at45 == at45
      ensures breq.bufList == [] && bdev.currentBufList == bdev.kept == [] && !breq.queued && !breq.sleeping
    {
      this.at45 := at45;
      breq := Breq([], Ok, 0, Worker.Start, false, 0, 0, Operation.Read, false);
      bdev := Bdev([], 0, []);
      client := Client([], [], false, true, [], []);
      job := Job([], 0, 0, Operation.Read, [], [], true);
    }

    // ---- Requests and buffer lists ----

    method PrepareReq(lba: nat, nrBlocks: nat, operation: Operation)
      modifies this`breq
      ensures breq == Breq(old(breq.bufList), InProgress, 0, Worker.Start, false, lba, nrBlocks, operation, false)
    {
      breq := breq.(status := InProgress, bytesXfered := 0);
      breq := breq.(worker := Worker.Start, queued := false);
      breq := breq.(lba := lba, remaining := nrBlocks, operation := operation, sleeping := false);
    }

    /** The client attaches a buffer before it submits the request. */
    method AddBuffer(buf: Buffer)
      modifies this`breq
      ensures breq == old(breq).(bufList := old(breq.bufList) + [buf])
    {
      breq := breq.(bufList := breq.bufList + [buf]);
    }

    /** What a request asks for, with some of its buffers on the request's list already and
        the others to be submitted later, in `lists`. */
    ghost function Asked(lba: nat, nrBlocks: nat, operation: Operation, lists: seq<seq<Buffer>>, detaches: bool): Job
      reads this, at45
    {
      Job(breq.bufList + Flatten(lists), lba, nrBlocks, operation, at45.chip.flash, bdev.kept, detaches)
    }

    /** The client settles which buffer lists it is going to submit for the request, and
        whether it detaches the lists it is handed. */
    method Plan(lists: seq<seq<Buffer>>, detaches: bool)
      modifies this`client, this`job
      ensures client == Client(lists, [], false, detaches, bdev.kept, [])
      ensures job == Asked(breq.lba, breq.remaining, breq.operation, lists, detaches)
    {
      client := Client(lists, [], false, detaches, bdev.kept, []);
      job := Asked(breq.lba, breq.remaining, breq.operation, lists, detaches);
    }

    /** Asks for the bus; once it is granted the task is in the main work queue. */
    method Submit()
      requires job.Sound() && NonEmpty(client.upcoming)
      requires job == Asked(job.lba, job.blocks, job.operation, client.upcoming, client.detaches)
      requires breq == Breq(breq.bufList, InProgress, 0, Worker.Start, false, job.lba, job.blocks, job.operation, false)
      requires bdev.currentBufList == [] && client == Client(client.upcoming, [], false, client.detaches, bdev.kept, [])
      requires View().at45.Valid() && View().at45.Quiet() && !at45.busHeld
      modifies this`breq, at45`busHeld
      ensures View().Inv(job) && breq.queued
    {
      at45.busHeld := true;
      breq := breq.(queued := true);
      assert job.plan[..0] == [] && job.plan[0..] == job.plan;
      assert job.Image([]) == job.flash;
    }

    method SubmitBufList(list: seq<Buffer>)
      requires list != []
      modifies this`breq
      ensures breq == old(breq).(bufList := old(breq.bufList) + list, sleeping := false,
                                 queued := old(breq.queued || breq.sleeping))
    {
      breq := breq.(bufList := breq.bufList + list);
      if breq.sleeping {
        breq := breq.(sleeping := false);
        breq := breq.(queued := true);
      }
    }

    /** A point where interrupts are enabled: the client may submit the next lists. */
    method IrqWindow()
      requires NonEmpty(client.upcoming)
      modifies this`breq, this`client
      ensures Submitted(old(breq), old(client), breq, client)
    {
      while *
        invariant Submitted(old(breq), old(client), breq, client)
        decreases |client.upcoming|
      {
        if client.upcoming == [] {
          break;
        }
        var list := client.upcoming[0];
        client := client.(upcoming := client.upcoming[1..]);
        SubmitBufList(list);
      }
    }

    /** The client's `buf_list_done`: it is handed the device's list, which it may detach or
        leave alone, and it may submit more. */
    method BufListDone()
      requires NonEmpty(client.upcoming) && !breq.sleeping
      modifies this`breq, this`client, this`bdev
      ensures bdev == if client.detaches then old(bdev).(currentBufList := [], kept := []) else old(bdev)
      ensures Submitted(old(breq), old(client).(returned := old(client.returned + bdev.currentBufList),
                                                again := old(client.again + bdev.kept)),
                        breq, client)
    {
      client := client.(returned := client.returned + bdev.currentBufList, again := client.again + bdev.kept);
      if client.detaches {
        bdev := bdev.(currentBufList := [], kept := []);
      }
      IrqWindow();
    }

    // ---- Workers ----

    method ReadSetup()
      requires View().AtPageStart(job) && job.operation.Read?
      modifies this`breq, this`bdev, at45`spi, at45`chip, at45.cmdrsp
      ensures View().Inv(job) && breq.remaining == old(breq.remaining) && breq.worker.Transfer?
    {
      hide State.Inv;
      ghost var before := View();
      PageInside(job, before, 0);
      breq := breq.(worker := Worker.Transfer);
      bdev := bdev.(transferPos := 0);
      at45.Select();
      at45.CmdContArrayRead(breq.lba / 2, (breq.lba % 2) * 512);
      CommandRead(job, before, View());
    }

    method WriteReady()
      requires View().AtWriteReady(job)
      modifies this`breq, at45`spi, at45`chip, at45.cmdrsp
      ensures View().Inv(job) && breq == old(breq).(worker := Worker.Transfer)
    {
      hide State.Inv;
      ghost var before := View();
      PageInside(job, before, 0);
      breq := breq.(worker := Worker.Transfer);
      at45.Select();
      at45.CmdBuffer1Write((breq.lba % 2) * 512);
      CommandWrite(job, before, View());
    }

    method WriteSetup()
      requires View().AtPageStart(job) && job.operation.Write?
      modifies this`breq, this`bdev, at45`spi, at45`chip, at45.cmdrsp
      ensures View().Inv(job) && breq.remaining == old(breq.remaining)
      ensures breq.worker == if View().SegmentSize() == PAGE_SIZE then Worker.Transfer else Worker.WriteBuffered
    {
      hide State.Inv;
      hide State.AtWriteReady;
      ghost var before := View();
      PageInside(job, before, 0);
      breq := breq.(worker := Worker.WriteBuffered);
      bdev := bdev.(transferPos := 0);
      if IsPageAligned(1, breq.lba, breq.remaining) {
        WholePage(job, before, View());
        WriteReady();
      } else {
        at45.Select();
        at45.CmdMainMemoryToBuffer1Transfer(breq.lba / 2);
        CommandLoad(job, before, View());
      }
    }

    method StartRequest()
      requires View().Running(job) && breq.worker.Start?
      modifies this`breq, this`bdev, at45`spi, at45`chip, at45.cmdrsp
      ensures View().Inv(job) && View().Progress(old(View()))
    {
      match breq.operation
      case Read => ReadSetup();
      case Write => WriteSetup();
    }

    method WriteBufferedWait()
      requires View().Active(job, 0) && View().Unscheduled() && View().AwaitingBuffer(job)
      requires breq.worker.WriteBufferedWait?
      modifies this`breq, at45`next, at45`spi, at45`chip, at45.cmdrsp
      ensures View().Inv(job)
      ensures breq.remaining == old(breq.remaining) && (breq.worker.Transfer? || breq.worker.WriteBufferedWait?)
      ensures old(!at45.next.Null?) ==> View().Progress(old(View()))
    {
      hide DataflashState.State.Inv;
      hide DataflashState.State.AtWriteReady;
      ghost var before := View();
      var done := at45.WaitReady();
      PollKeepsBuffer(job, before, View());
      if !done {
        return;
      }
      WriteReady();
    }

    method WriteBuffered()
      requires View().Running(job) && breq.worker.WriteBuffered?
      modifies this`breq, at45`next, at45`spi, at45`chip, at45.cmdrsp
      ensures View().Inv(job) && View().Progress(old(View()))
    {
      hide State.Inv;
      ghost var before := View();
      at45.Deselect();
      breq := breq.(worker := Worker.WriteBufferedWait);
      LoadBuffer(job, before, View());
      WriteBufferedWait();
    }

    method WriteDone()
      requires View().Running(job) && breq.worker.WriteDone?
      modifies this`breq, at45`spi, at45`chip, at45.cmdrsp
      ensures View().Inv(job) && View().Progress(old(View()))
    {
      hide State.Inv;
      ghost var before := View();
      PageInside(job, before, bdev.transferPos);
      breq := breq.(worker := Worker.WriteWaitBegin);
      at45.Deselect();
      at45.Select();
      at45.CmdBuffer1MainMemoryProgramWithErase(breq.lba / 2);
      CommandProgram(job, before, View());
    }

    method WriteWait()
      requires View().Active(job, bdev.transferPos) && View().Unscheduled() && View().AwaitingProgram(job)
      requires breq.worker.WriteWait?
      modifies this`breq, this`bdev, this`client, at45`next, at45`spi, at45`chip, at45`busHeld, at45.cmdrsp
      ensures View().Inv(job)
      ensures breq.remaining < old(breq.remaining) ||
              (breq.remaining == old(breq.remaining) && breq.worker.WriteWait?)
      ensures old(!at45.next.Null?) ==> View().Progress(old(View()))
    {
      hide State.Inv;
      hide State.AtPageEnd;
      ghost var before := View();
      var done := at45.WaitReady();
      PollKeepsProgram(job, before, View());
      if !done {
        return;
      }
      PageDone();
    }

    method WriteWaitBegin()
      requires View().Running(job) && breq.worker.WriteWaitBegin?
      modifies this`breq, this`bdev, this`client, at45`next, at45`spi, at45`chip, at45`busHeld, at45.cmdrsp
      ensures View().Inv(job) && View().Progress(old(View()))
    {
      hide State.Inv;
      ghost var before := View();
      at45.Deselect();
      breq := breq.(worker := Worker.WriteWait);
      ProgramPage(job, before, View());
      WriteWait();
    }

    method PageDone()
      requires View().AtPageEnd(job)
      modifies this`breq, this`bdev, this`client, at45`spi, at45`chip, at45`busHeld, at45.cmdrsp
      ensures View().Inv(job) && breq.remaining < old(breq.remaining)
    {
      hide State.Inv;
      hide State.AtPageStart;
      hide State.Finished;
      ghost var before := View();
      hide State.AtPageEnd;
      hide Submitted;
      hide NonEmpty;
      hide State.Accounting;
      hide State.Memory;
      hide State.Leftovers;
      hide State.Stage;
      hide Job.Sound;
      hide Job.HoldsMemory;
      PageCounts(job, before);
      if !client.detaches {
        client := client.(left := client.left + bdev.currentBufList);
      }
      BufListDone();
      bdev := bdev.(currentBufList := [], kept := bdev.currentBufList);
      breq := breq.(bytesXfered := breq.bytesXfered + bdev.transferPos);
      breq := breq.(remaining := breq.remaining - bdev.transferPos / BLOCK_SIZE);
      breq := breq.(lba := breq.lba + bdev.transferPos / BLOCK_SIZE);
      PageAccounted(job, before, View());
      if breq.remaining != 0 {
        if breq.operation.Read? {
          ReadSetup();
        } else {
          WriteSetup();
        }
      } else {
        ghost var last := View();
        at45.Release();
        breq := breq.(status := Ok);
        client := client.(done := true);
        RequestFinished(job, last, View());
      }
    }

    method ReadDone()
      requires View().Running(job) && breq.worker.ReadDone?
      modifies this`breq, this`bdev, this`client, at45`spi, at45`chip, at45`busHeld, at45.cmdrsp
      ensures View().Inv(job) && View().Progress(old(View()))
    {
      hide State.Inv;
      ghost var before := View();
      at45.Deselect();
      ReadComplete(job, before, View());
      PageDone();
    }

    method Transfer()
      requires View().Running(job) && breq.worker.Transfer?
      modifies this`breq, this`bdev, this`client, at45`spi
      ensures View().Inv(job) && View().Progress(old(View()))
    {
      hide State.Inv;
      hide State.Running;
      hide State.Progress;
      hide Taking;
      ghost var before := View();
      ReturnBuffers();
      if breq.bufList == [] {
        ghost var taking := View();
        breq := breq.(sleeping := true);
        FallAsleep(job, taking, View(), bdev.transferPos);
        TransferProgress(before, View());
        return;
      }

      var nextPos := TakeBuffers();
      HandOver(nextPos);
      TransferProgress(before, View());
    }

    /** The start of `dataflash_transfer`: the client is handed the list that has crossed
        the bus, or the one that was left from the page before. */
    method ReturnBuffers()
      requires View().Running(job) && breq.worker.Transfer?
      modifies this`breq, this`bdev, this`client
      ensures Taking(job, View(), bdev.transferPos, bdev.transferPos) && bdev.transferPos < View().SegmentSize()
      ensures bdev == Bdev([], old(bdev.transferPos), []) && View().at45.Valid()
      ensures breq == old(breq).(bufList := breq.bufList) && |client.upcoming| <= old(|client.upcoming|)
    {
      hide State.Active;
      hide State.Memory;
      hide State.BufferHolds;
      hide State.Running;
      hide State.SegmentSize;
      hide Taking;
      hide NonEmpty;
      ghost var before := View();
      BeforeTransfer(job, before);
      if bdev.kept + bdev.currentBufList != [] {
        BufListDone();
        bdev := bdev.(currentBufList := [], kept := []);
      }
      StartTaking(job, before, View());
      ghost var taking := View();
      IrqWindow();
      TakingKept(job, taking, View(), bdev.transferPos, bdev.transferPos);
    }

    /** The end of `dataflash_transfer`: the SPI controller gets the buffers taken. */
    method HandOver(nextPos: nat)
      requires Taking(job, View(), bdev.transferPos, nextPos) && nextPos > bdev.transferPos
      modifies this`breq, this`bdev, at45`spi
      ensures View().Inv(job) && bdev.transferPos == nextPos
      ensures breq == old(breq).(worker := breq.worker)
      ensures breq.worker.Transfer? || breq.worker.ReadDone? || breq.worker.WriteDone?
    {
      hide State.Inv;
      hide State.Active;
      hide State.Memory;
      hide State.BufferHolds;
      ghost var taking := View();
      PageInside(job, taking, nextPos);
      var endPos := RemainingPageSize(1, breq.lba, breq.remaining);
      bdev := bdev.(transferPos := nextPos);
      if breq.operation.Read? {
        if nextPos == endPos {
          breq := breq.(worker := Worker.ReadDone);
        }
        at45.ReadBufList();
      } else {
        if nextPos == endPos {
          breq := breq.(worker := Worker.WriteDone);
        }
        at45.WriteBufList();
      }
      StartTransfer(job, taking, View(), taking.bdev.transferPos, nextPos);
    }

    /** The loop of `dataflash_transfer`: takes buffers until the segment is full or the
        list is empty. */
    method TakeBuffers() returns (nextPos: nat)
      requires Taking(job, View(), bdev.transferPos, bdev.transferPos)
      requires breq.bufList != [] && bdev.transferPos < View().SegmentSize()
      modifies this`breq, this`bdev, this`client
      ensures Taking(job, View(), bdev.transferPos, nextPos) && nextPos > bdev.transferPos == old(bdev.transferPos)
      ensures breq.bufList == [] || nextPos == View().SegmentSize()
      ensures breq == old(breq).(bufList := breq.bufList) && |client.upcoming| <= old(|client.upcoming|)
    {
      hide State.Active;
      hide State.Memory;
      hide State.BufferHolds;
      ghost var x := bdev.transferPos;
      nextPos := bdev.transferPos;
      var endPos := RemainingPageSize(1, breq.lba, breq.remaining);
      while nextPos < endPos
        invariant Taking(job, View(), x, nextPos) && (nextPos == x ==> breq.bufList != [])
        invariant breq == old(breq).(bufList := breq.bufList) && |client.upcoming| <= old(|client.upcoming|)
        decreases endPos - nextPos
      {
        ghost var taking := View();
        UpcomingLists(job, taking, nextPos);
        IrqWindow();
        TakingKept(job, taking, View(), x, nextPos);
        if breq.bufList == [] {
          break;
        }
        taking := View();
        var buf := breq.bufList[0];
        breq := breq.(bufList := breq.bufList[1..]);
        NextBuffer(job, taking, nextPos);
        assert nextPos + |buf.data| <= endPos;
        bdev := bdev.(currentBufList := bdev.currentBufList + [buf]);
        TakeBuffer(job, taking, View(), x, nextPos);
        nextPos := nextPos + |buf.data|;
      }
    }

    // ---- Events ----

    /** Lists the client submits between two events. */
    method Arrivals()
      requires View().Inv(job) && !client.done
      modifies this`breq, this`client
      ensures View().Inv(job) && Submitted(old(breq), old(client), breq, client)
    {
      hide State.Active;
      ghost var before := View();
      PageInside(job, before, before.Position());
      UpcomingLists(job, before, before.Position());
      IrqWindow();
      SubmittedKept(job, before, View());
    }

    /** The client submits its next list while the request sleeps: that wakes it up. */
    method SubmitNext()
      requires View().Inv(job) && !client.done
      requires client.upcoming != [] && NonEmpty(client.upcoming)
      modifies this`breq, this`client
      ensures View().Inv(job) && |client.upcoming| < old(|client.upcoming|)
      ensures Submitted(old(breq), old(client), breq, client)
      ensures old(breq.sleeping) ==> breq.queued && !breq.sleeping
    {
      hide State.Inv;
      ghost var before := View();
      var list := client.upcoming[0];
      client := client.(upcoming := client.upcoming[1..]);
      SubmitBufList(list);
      SubmittedKept(job, before, View());
    }

    /** The SPI controller has finished: the task is queued again. */
    method SpiComplete()
      requires View().Inv(job) && !client.done && !at45.spi.Idle?
      modifies this`breq, this`bdev, at45`spi, at45`chip, at45.cmdrsp
      ensures View().Inv(job) && breq == old(breq).(queued := true) && at45.spi.Idle?
      ensures bdev.transferPos == old(bdev.transferPos) && View().at45.Valid()
      ensures View().at45.PollCount() == old(View().at45.PollCount()) && at45.next == old(at45.next)
    {
      hide State.Inv;
      hide Chip.Write;
      hide Bytes;
      hide Fill;
      ghost var before := View();
      InFlight(job, before);
      if at45.spi.ReadBufList? {
        var bytes := at45.CompleteRead(|Bytes(bdev.currentBufList)|);
        bdev := bdev.(currentBufList := Fill(bdev.currentBufList, bytes));
        breq := breq.(queued := true);
        BuffersRead(job, before, View());
      } else if at45.spi.WriteBufList? {
        at45.CompleteWrite(Bytes(bdev.currentBufList));
        breq := breq.(queued := true);
        BuffersWritten(job, before, View());
      } else if breq.worker.WriteWait? || breq.worker.WriteBufferedWait? {
        at45.CompletePoll();
        breq := breq.(queued := true);
        PollArrived(job, before, View());
      } else {
        at45.CompleteCommand();
        breq := breq.(queued := true);
        CommandArrived(job, before, View());
      }
    }

    /** The main loop takes the task from its queue and runs it. */
    method RunTask()
      requires View().Inv(job) && !client.done && breq.queued
      modifies this`breq, this`bdev, this`client, at45`next, at45`spi, at45`chip, at45`busHeld, at45.cmdrsp
      ensures View().Inv(job) && View().Progress(old(View()))
    {
      hide State.Inv;
      hide State.Running;
      hide State.Progress;
      hide State.Active;
      ghost var before := View();
      breq := breq.(queued := false);
      ghost var taken := View();
      TaskTaken(job, before, taken);
      match breq.worker {
      case Start => StartRequest();
      case Transfer => Transfer();
      case ReadDone => ReadDone();
      case WriteDone => WriteDone();
      case WriteWaitBegin => WriteWaitBegin();
      case WriteWait => WriteWait();
      case WriteBuffered => WriteBuffered();
      case WriteBufferedWait => WriteBufferedWait();
      }
      PositionInPage(job, View());
      ProgressTaken(before, taken, View());
    }

    /** A whole request. Whatever the order in which submissions and completions arrive
        and however long the chip stays busy, it ends once the client has submitted
        buffers for all its blocks, and then it has done exactly what was asked. */
    method RunRequest()
      requires View().Inv(job) && !client.done && breq.queued
      requires |Bytes(job.plan)| == BLOCK_SIZE * job.blocks
      modifies this`breq, this`bdev, this`client, at45, at45.cmdrsp
      ensures View().Finished(job) && client.done
      ensures SameShape(client.returned, job.plan)
      ensures breq.bufList == [] && client.upcoming == []
      ensures job.Sound() && job.Start() + |Bytes(job.plan)| == job.End()
      ensures job.operation.Write? ==> client.returned == job.plan && at45.chip.flash == job.Image(Bytes(job.plan))
      ensures job.operation.Read? ==>
        at45.chip.flash == job.flash && Bytes(client.returned) == job.flash[job.Start()..job.End()]
    {
      hide State.Inv;
      hide State.Finished;
      hide State.Phase;
      hide Dev.PollCount;
      hide Dev.PollSteps;
      PositionInPage(job, View());
      while !client.done
        invariant View().Inv(job) && View().at45.Valid() && (!client.done ==> View().Position() <= PAGE_SIZE)
        decreases breq.remaining, View().Stage(),
                  PAGE_SIZE - View().Position(),
                  View().at45.PollCount(), View().at45.PollSteps(), |client.upcoming|, View().Phase()
      {
        Turn();
      }
      RequestServed(job, View());
    }

    /** A turn of the main loop, or an event it waits for. */
    method Turn()
      requires View().Inv(job) && View().at45.Valid() && !client.done && View().Position() <= PAGE_SIZE
      requires |Bytes(job.plan)| == BLOCK_SIZE * job.blocks
      modifies this`breq, this`bdev, this`client, at45, at45.cmdrsp
      ensures View().Inv(job) && View().at45.Valid() && (!client.done ==> View().Position() <= PAGE_SIZE)
      ensures Nearer(View(), old(View()))
    {
      hide State.Inv;
      hide Dev.PollCount;
      PositionInPage(job, View());
      Arrivals();
      if !at45.spi.Idle? {
        SpiComplete();
      } else if breq.queued {
        RunTask();
      } else {
        StillComing(job, View());
        SubmitNext();
      }
      PositionInPage(job, View());
    }

    /** A request from its preparation on, on an idle device: some buffers may have been
        attached to it before, the others are submitted at any time. */
    method Request(lba: nat, nrBlocks: nat, operation: Operation, lists: seq<seq<Buffer>>, detaches: bool)
      requires View().at45.Valid() && View().at45.Quiet() && !at45.busHeld && bdev.currentBufList == []
      requires NonEmpty(lists) && Asked(lba, nrBlocks, operation, lists, detaches).Sound()
      requires |Bytes(breq.bufList + Flatten(lists))| == BLOCK_SIZE * nrBlocks
      modifies this, at45, at45.cmdrsp
      ensures job == old(Asked(lba, nrBlocks, operation, lists, detaches))
      ensures View().Finished(job) && client.done
      ensures breq.bufList == [] && client.upcoming == [] && SameShape(client.returned, job.plan)
      ensures old(bdev.kept) <= client.again
      ensures client.again == old(bdev.kept) <==> detaches || job.OneSegment()
      ensures EndsWith(client.returned, bdev.kept) && (bdev.kept == [] <==> detaches)
      ensures operation.Write? ==> client.returned == job.plan && at45.chip.flash == job.Image(Bytes(job.plan))
      ensures operation.Read? ==>
        at45.chip.flash == job.flash && Bytes(client.returned) == job.flash[job.Start()..job.End()]
    {
      PrepareReq(lba, nrBlocks, operation);
      Plan(lists, detaches);
      Submit();
      RunRequest();
    }

    /** The device is idle and could serve a request for a block. */
    ghost predicate IdleFor(lba: nat)
      reads this, at45, at45.cmdrsp
    {
      && View().at45.Valid() && View().at45.Quiet() && !at45.busHeld
      && breq.bufList == bdev.currentBufList == []
      && BLOCK_SIZE * (lba + 1) <= |at45.chip.flash| <= MAX_PAGES * PAGE_SIZE && |at45.chip.flash| % PAGE_SIZE == 0
    }

    /** A client attaches a buffer, reads a block and leaves the list on the device: what was
        there before is handed over again. */
    method ReadBlock(lba: nat, buf: Buffer)
      requires IdleFor(lba) && |buf.data| == BLOCK_SIZE
      modifies this, at45, at45.cmdrsp
      ensures IdleFor(lba) && at45.chip.flash == old(at45.chip.flash) && job.OneSegment()
      ensures SameShape(client.returned, [buf])
      ensures Bytes(client.returned) == at45.chip.flash[BLOCK_SIZE * lba..BLOCK_SIZE * (lba + 1)]
      ensures client.again == old(bdev.kept) && bdev.kept == client.returned
    {
      hide State.Finished;
      hide Job.Sound;
      hide Bytes;
      AddBuffer(buf);
      OneBlock(Asked(lba, 1, Operation.Read, [], false), buf);
      OneBuffer(buf);
      Request(lba, 1, Operation.Read, [], false);
      FinishedQuiet(job, View());
      WholeList(client.returned, bdev.kept);
    }

    /** A client that reads block by block and never detaches a list: its second request, though
        it is a single segment, starts with handing over the list of the first once more. */
    method ReadTwoBlocks(lba1: nat, buf1: Buffer, lba2: nat, buf2: Buffer)
      requires IdleFor(lba1) && IdleFor(lba2) && |buf1.data| == |buf2.data| == BLOCK_SIZE
      modifies this, at45, at45.cmdrsp
      ensures job.OneSegment() && SameShape(client.returned, [buf2]) && SameShape(client.again, [buf1])
      ensures at45.chip.flash == old(at45.chip.flash)
      ensures Bytes(client.returned) == at45.chip.flash[BLOCK_SIZE * lba2..BLOCK_SIZE * (lba2 + 1)]
      ensures Bytes(client.again) == at45.chip.flash[BLOCK_SIZE * lba1..BLOCK_SIZE * (lba1 + 1)]
    {
      hide Bytes;
      ReadBlock(lba1, buf1);
      ReadBlock(lba2, buf2);
    }
  }
}
