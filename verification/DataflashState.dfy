/** The state of the DataFlash block driver between two statements, the invariant that
    ties it to the request being served, and why each step of the driver keeps it. */
module DataflashState {
  import opened Bits
  import opened At45Chip
  import opened At45Device
  import opened Segments

  datatype Operation = Read | Write

  datatype Status = InProgress | Ok

  /** The task's worker function: what runs next. */
  datatype Worker =
    | Start
    | Transfer
    | ReadDone
    | WriteDone
    | WriteWaitBegin
    | WriteWait
    | WriteBuffered
    | WriteBufferedWait

  /** `struct dataflash_breq`; `queued` says whether its task is in the main work queue. */
  datatype Breq = Breq(
    bufList: seq<Buffer>,
    status: Status,
    bytesXfered: nat,
    worker: Worker,
    queued: bool,
    lba: nat,
    remaining: nat,
    operation: Operation,
    sleeping: bool)

  /** `struct dataflash_bdev`. Its `current_buf_list` is `kept + currentBufList`: what a
      client left there when it was handed the last list of a page, and the buffers taken
      for the current segment. At most one of the two is not empty. */
  datatype Bdev = Bdev(currentBufList: seq<Buffer>, transferPos: nat, kept: seq<Buffer>)

  /** The client: the lists it has yet to submit, the buffers it got back, whether
      `req_done` has been called, and whether it detaches the lists it is handed; if it
      does not, which lists it left at the end of a page and which it was handed again. */
  datatype Client = Client(
    upcoming: seq<seq<Buffer>>,
    returned: seq<Buffer>,
    done: bool,
    detaches: bool,
    left: seq<Buffer>,
    again: seq<Buffer>)

  /** What was asked for, the memory before the request, and the buffers that an earlier
      request's client left on the device's list. */
  datatype Job = Job(plan: seq<Buffer>, lba: nat, blocks: nat, operation: Operation, flash: seq<byte>,
                     stale: seq<Buffer>, detaches: bool)
  {
    function Start(): nat { BLOCK_SIZE * lba }

    function End(): nat { BLOCK_SIZE * (lba + blocks) }

    /** The request is one the device can serve, with buffers that stay within pages. */
    ghost predicate Sound()
    {
      && blocks > 0 && End() <= |flash| <= MAX_PAGES * PAGE_SIZE && |flash| % PAGE_SIZE == 0
      && Fits(plan, Start(), End())
    }

    /** The length of the request's first segment. */
    function FirstSegment(): nat { RemainingPageSize(1, lba, blocks) }

    /** The whole request lies in one page and is not cut. */
    predicate OneSegment() { blocks == 1 || (blocks == 2 && lba % 2 == 0) }

    /** The memory once `data` has been written from the start of the request on. */
    ghost function Image(data: seq<byte>): seq<byte>
      requires Start() + |data| <= |flash|
    {
      Replace(flash, Start(), data)
    }

    /** The buffers hold what the memory holds from the start of the request on. */
    ghost predicate HoldsMemory(bufs: seq<Buffer>)
    {
      && Start() + |Bytes(bufs)| <= |flash|
      && Bytes(bufs) == flash[Start()..Start() + |Bytes(bufs)|]
    }
  }

  /** A page buffer holds `x` bytes of `data`, from number `from` on, at `offset`, and the
      page's own bytes outside of the segment of `size` bytes there. */
  ghost predicate Merged(buffer: seq<byte>, flash: seq<byte>, page: nat, offset: nat, size: nat,
                         data: seq<byte>, from: int, x: nat)
  {
    && |buffer| == PAGE_SIZE && 0 <= from && from + x <= |data| && (page + 1) * PAGE_SIZE <= |flash|
    && (forall k | offset <= k < offset + x :: k < PAGE_SIZE && buffer[k] == data[from + (k - offset)])
    && (forall k | 0 <= k < PAGE_SIZE && !(offset <= k < offset + size) :: buffer[k] == flash[page * PAGE_SIZE + k])
  }

  ghost predicate EndsWith(bufs: seq<Buffer>, last: seq<Buffer>)
  {
    |last| <= |bufs| && bufs[|bufs| - |last|..] == last
  }

  datatype State = State(breq: Breq, bdev: Bdev, client: Client, at45: Dev)
  {
    /** The buffers taken off the request's list so far. */
    ghost function Moved(): seq<Buffer>
    {
      client.returned + bdev.currentBufList
    }

    ghost function SegmentStart(): nat { BLOCK_SIZE * breq.lba }

    ghost function SegmentSize(): nat { RemainingPageSize(1, breq.lba, breq.remaining) }

    ghost function Page(): nat { breq.lba / 2 }

    ghost function Offset(): nat { (breq.lba % 2) * BLOCK_SIZE }

    /** What an earlier request left on the device is handed over first. A list left in place
        by the client is handed to it once more, unless it is the last one: this happens exactly
        if the request has more than one segment. */
    ghost predicate Leftovers(j: Job)
    {
      && (bdev.kept == [] || bdev.currentBufList == [])
      && client.detaches == j.detaches && client.again + bdev.kept == client.left
      && (client.detaches ==> client.left == j.stale)
      && j.stale <= client.left && (breq.bytesXfered > 0 ==> j.stale <= client.again)
      && (breq.bytesXfered == 0 || breq.bytesXfered >= j.FirstSegment())
      && (!client.detaches ==>
            if breq.bytesXfered == 0 then client.left == j.stale
            else client.again == j.stale <==> breq.bytesXfered == j.FirstSegment() && bdev.kept != [])
    }

    /** Every buffer is accounted for, in order, with `pos` bytes of the current segment
        taken; what the client got back from a read is what the memory holds. */
    ghost predicate Accounting(j: Job, pos: nat)
    {
      && breq.operation == j.operation
      && NonEmpty(client.upcoming)
      && j.lba <= breq.lba && breq.lba + breq.remaining == j.lba + j.blocks
      && breq.bytesXfered == SegmentStart() - j.Start()
      && |Moved()| <= |j.plan| && SameShape(Moved(), j.plan[..|Moved()|])
      && breq.bufList + Flatten(client.upcoming) == j.plan[|Moved()|..]
      && |Bytes(Moved())| == breq.bytesXfered + pos
      && j.Start() + |Bytes(Moved())| <= |j.flash|
      && match j.operation
         case Read => j.HoldsMemory(client.returned)
         case Write => Moved() == j.plan[..|Moved()|]
    }

    /** The memory is as it should be with `n` bytes of the request written. */
    ghost predicate Memory(j: Job, n: nat)
    {
      match j.operation
      case Read =>
        at45.chip.flash == j.flash
      case Write =>
        && n <= |Bytes(Moved())| && j.Start() + n <= |j.flash|
        && at45.chip.flash == j.Image(Bytes(Moved())[..n])
    }

    /** Buffer 1 holds the first `x` bytes of the current segment in their place, and the
        page's own bytes around the segment. */
    ghost predicate BufferHolds(x: nat)
    {
      x <= SegmentSize() &&
      Merged(at45.chip.buffer1, at45.chip.flash, Page(), Offset(), SegmentSize(), Bytes(Moved()), breq.bytesXfered, x)
    }

    /** The chip is ready and no poll is under way. */
    ghost predicate Settled()
    {
      at45.Valid() && !at45.chip.fault && at45.chip.busy == 0 && at45.next.Null?
    }

    /** A command to the ready chip is under way, or has arrived. */
    ghost predicate Commanded(size: nat, command: Command)
    {
      Settled() && at45.Commanded(size, command)
    }

    /** Bytes of the segment that have crossed the bus: those of the buffers in
        `currentBufList` only once the bus is idle again. */
    ghost function Crossed(): int
    {
      bdev.transferPos - if at45.spi.Idle? then 0 else |Bytes(bdev.currentBufList)|
    }

    /** The data phase of a segment, with the chip at the right place. */
    ghost predicate Streaming(j: Job)
    {
      && Settled() && at45.chip.selected && 0 <= Crossed()
      && match j.operation
         case Read =>
           && (at45.spi.Idle? || at45.spi.ReadBufList?)
           && at45.chip.command == ArrayRead(SegmentStart() + Crossed())
         case Write =>
           && (at45.spi.Idle? || at45.spi.WriteBufList?)
           && at45.chip.command == BufferWrite(Offset() + Crossed())
           && BufferHolds(Crossed())
    }

    /** The request is being worked on: a worker is running. */
    ghost predicate Active(j: Job, pos: nat)
    {
      match breq.status
      case InProgress =>
        && j.Sound() && Accounting(j, pos) && Leftovers(j) && breq.remaining > 0
        && at45.Valid() && !at45.chip.fault && |at45.chip.flash| == |j.flash|
        && at45.busHeld && !client.done
      case Ok => false
    }

    /** No continuation of the request has been arranged. */
    ghost predicate Unscheduled()
    {
      at45.spi.Idle? && !breq.queued && !breq.sleeping
    }

    /** Between the pages of the request, and before the first one. */
    ghost predicate AtPageStart(j: Job)
    {
      && Active(j, 0) && Unscheduled() && at45.Quiet() && bdev.currentBufList == []
      && Memory(j, breq.bytesXfered)
      && (j.operation.Read? ==> j.HoldsMemory(Moved()))
    }

    /** When buffer 1 is ready to take the bytes of the segment. */
    ghost predicate AtWriteReady(j: Job)
    {
      match j.operation
      case Write => AtPageStart(j) && bdev.transferPos == 0 && BufferHolds(0)
      case Read => false
    }

    /** When the whole segment has reached its destination. */
    ghost predicate AtPageEnd(j: Job)
    {
      && Active(j, bdev.transferPos) && Unscheduled() && at45.Quiet()
      && bdev.transferPos == SegmentSize() && bdev.currentBufList != []
      && Memory(j, breq.bytesXfered + bdev.transferPos)
      && (j.operation.Read? ==> j.HoldsMemory(Moved()))
    }

    /** Waiting for the page to arrive in buffer 1. */
    ghost predicate AwaitingBuffer(j: Job)
    {
      match j.operation
      case Write =>
        && Memory(j, breq.bytesXfered)
        && bdev.transferPos == 0 && bdev.currentBufList == []
        && SegmentSize() == BLOCK_SIZE && BufferHolds(0) && at45.Polling()
      case Read => false
    }

    /** Waiting for buffer 1 to be programmed into the page. */
    ghost predicate AwaitingProgram(j: Job)
    {
      match j.operation
      case Write =>
        && bdev.transferPos == SegmentSize() && bdev.currentBufList != []
        && Memory(j, breq.bytesXfered + bdev.transferPos) && at45.Polling()
      case Read => false
    }

    /** What each worker finds, now or when the operation in flight is over. */
    ghost predicate WorkerInv(j: Job)
    {
      match breq.worker
      case Start =>
        at45.Quiet() && Moved() == [] && Memory(j, breq.bytesXfered)
      case Transfer =>
        && Memory(j, breq.bytesXfered) && bdev.transferPos < SegmentSize()
        && if at45.spi.WriteCmd? then
             && bdev.transferPos == 0 && bdev.currentBufList == []
             && match j.operation
                case Read => Commanded(5, ArrayRead(SegmentStart()))
                case Write => Commanded(4, BufferWrite(Offset())) && BufferHolds(0)
           else Streaming(j)
      case ReadDone =>
        && j.operation.Read? && Memory(j, breq.bytesXfered) && bdev.transferPos == SegmentSize() && Streaming(j)
        && bdev.currentBufList != []
      case WriteDone =>
        && j.operation.Write? && Memory(j, breq.bytesXfered) && bdev.transferPos == SegmentSize() && Streaming(j)
        && bdev.currentBufList != []
      case WriteWaitBegin =>
        && j.operation.Write? && Memory(j, breq.bytesXfered) && bdev.transferPos == SegmentSize()
        && Commanded(4, BufferToPage(Page())) && BufferHolds(SegmentSize()) && bdev.currentBufList != []
      case WriteWait =>
        AwaitingProgram(j) && !at45.next.Null?
      case WriteBuffered =>
        && j.operation.Write? && Memory(j, breq.bytesXfered)
        && bdev.transferPos == 0 && bdev.currentBufList == []
        && SegmentSize() == BLOCK_SIZE && Commanded(4, PageToBuffer(Page()))
      case WriteBufferedWait =>
        AwaitingBuffer(j) && !at45.next.Null?
    }

    /** Bytes of the current segment taken off the request's list. */
    ghost function Position(): nat
    {
      if breq.worker.Start? then 0 else bdev.transferPos
    }

    /** The request is under way, whether or not a worker is running. */
    ghost predicate UnderWay(j: Job)
    {
      && Active(j, Position())
      && (j.operation.Read? && at45.spi.Idle? ==> j.HoldsMemory(Moved()))
      && WorkerInv(j)
    }

    /** Exactly one of: the task is queued, the bus is at work for it, it sleeps. */
    ghost predicate Scheduled()
    {
      if breq.queued then !breq.sleeping && at45.spi.Idle?
      else if breq.sleeping then
        at45.spi.Idle? && breq.worker.Transfer? && breq.bufList == [] && bdev.currentBufList == []
      else !at45.spi.Idle?
    }

    /** The task has been taken from the work queue and its worker is about to run. */
    ghost predicate Running(j: Job)
    {
      UnderWay(j) && Unscheduled()
    }

    /** The client once it has been handed the last buffers of a page. */
    ghost function HandedOver(): Client
    {
      client.(returned := client.returned + bdev.currentBufList, again := client.again + bdev.kept,
              left := if client.detaches then client.left else client.left + bdev.currentBufList)
    }

    /** The client was handed what had been left on the device before, and beyond that nothing
        twice exactly if it detaches its lists or the request is a single segment. What it left
        in place at the end is the end of what it was handed. */
    ghost predicate LeftoversDone(j: Job)
    {
      && client.detaches == j.detaches && client.again + bdev.kept == client.left
      && (client.detaches ==> client.left == j.stale)
      && (client.detaches <==> bdev.kept == []) && EndsWith(client.returned, bdev.kept)
      && j.stale <= client.again && (client.again == j.stale <==> client.detaches || j.OneSegment())
    }

    /** The request is over and did exactly what was asked. */
    ghost predicate Finished(j: Job)
    {
      && j.Sound() && Unscheduled() && at45.Valid() && at45.Quiet() && !at45.busHeld
      && breq.status.Ok? && breq.remaining == 0 && breq.bytesXfered == BLOCK_SIZE * j.blocks
      && breq.lba == j.lba + j.blocks && bdev.currentBufList == [] && LeftoversDone(j)
      && |client.returned| <= |j.plan| && SameShape(client.returned, j.plan[..|client.returned|])
      && NonEmpty(client.upcoming) && breq.bufList + Flatten(client.upcoming) == j.plan[|client.returned|..]
      && |Bytes(client.returned)| == BLOCK_SIZE * j.blocks
      && match j.operation
         case Read =>
           && at45.chip.flash == j.flash
           && Bytes(client.returned) == j.flash[j.Start()..j.End()]
         case Write =>
           && client.returned == j.plan[..|client.returned|]
           && at45.chip.flash == j.Image(Bytes(client.returned))
    }

    /** The invariant of every run: it holds whenever no worker is running. */
    ghost predicate Inv(j: Job)
    {
      match client.done
      case true => Finished(j)
      case false => UnderWay(j) && Scheduled()
    }

    // ---- Distance to the end of the request ----

    ghost function Stage(): nat
    {
      match breq.worker
      case Start => 7
      case WriteBuffered => 6
      case WriteBufferedWait => 5
      case Transfer => 4
      case ReadDone => 3
      case WriteDone => 3
      case WriteWaitBegin => 2
      case WriteWait => 1
    }

    /** What the main loop waits for: an SPI operation, the task in the queue, or the client. */
    ghost function Phase(): nat
    {
      if !at45.spi.Idle? then 2 else if breq.queued then 1 else 0
    }

    /** A worker that was run in state `before` has brought the end of the request
        closer, or has put the request to sleep. */
    ghost predicate Progress(before: State)
      requires at45.Valid() && before.at45.Valid()
    {
      if breq.remaining != before.breq.remaining then breq.remaining < before.breq.remaining
      else if Stage() != before.Stage() then Stage() < before.Stage()
      else if Position() != before.Position() then Position() > before.Position()
      else if at45.PollCount() != before.at45.PollCount() then at45.PollCount() < before.at45.PollCount()
      else if at45.PollSteps() != before.at45.PollSteps() then at45.PollSteps() < before.at45.PollSteps()
      else |client.upcoming| <= |before.client.upcoming| && breq.sleeping
    }
  }

  /** What the main loop brings down with each turn: the order in which these count is that
      of the comparisons. */
  ghost predicate Nearer(s: State, before: State)
    requires s.at45.Valid() && before.at45.Valid()
  {
    if s.breq.remaining != before.breq.remaining then s.breq.remaining < before.breq.remaining
    else if s.Stage() != before.Stage() then s.Stage() < before.Stage()
    else if s.Position() != before.Position() then before.Position() < s.Position()
    else if s.at45.PollCount() != before.at45.PollCount() then s.at45.PollCount() < before.at45.PollCount()
    else if s.at45.PollSteps() != before.at45.PollSteps() then s.at45.PollSteps() < before.at45.PollSteps()
    else if |s.client.upcoming| != |before.client.upcoming| then |s.client.upcoming| < |before.client.upcoming|
    else s.Phase() < before.Phase()
  }

  /** The client has submitted some of its lists, possibly none: they are at the end of
      the request's list, and a sleeping request is queued again. */
  ghost predicate Submitted(b0: Breq, c0: Client, b: Breq, c: Client)
  {
    && NonEmpty(c.upcoming) && |c.upcoming| <= |c0.upcoming|
    && b.bufList + Flatten(c.upcoming) == b0.bufList + Flatten(c0.upcoming)
    && c == c0.(upcoming := c.upcoming)
    && (|c.upcoming| == |c0.upcoming| ==> b == b0 && c == c0)
    && (|c.upcoming| < |c0.upcoming| ==>
          && b.bufList != []
          && b == b0.(bufList := b.bufList, sleeping := false, queued := b0.queued || b0.sleeping))
    && (b0.bufList != [] ==> b.bufList != [])
  }

  /** The current page lies within the memory and has a 13-bit number. */
  lemma PageInside(j: Job, s: State, pos: nat)
    requires s.Active(j, pos)
    ensures (s.Page() + 1) * PAGE_SIZE <= |s.at45.chip.flash| && s.Page() < MAX_PAGES
    ensures s.SegmentStart() == s.Page() * PAGE_SIZE + s.Offset()
    ensures s.Offset() + s.SegmentSize() <= PAGE_SIZE
    ensures s.SegmentSize() <= BLOCK_SIZE * s.breq.remaining
    ensures s.breq.bytesXfered + pos == |Bytes(s.Moved())|
    ensures s.breq.operation == j.operation && s.at45.Valid()
  {
    var pages := |j.flash| / PAGE_SIZE;
    assert |j.flash| == pages * PAGE_SIZE;
    assert BLOCK_SIZE * s.breq.lba < pages * PAGE_SIZE;
    assert s.Page() < pages;
  }

  /** A change of worker or of the position in the segment, and whatever the chip does
      short of a fault, leave the bookkeeping of the request alone. */
  lemma ActiveKept(j: Job, s: State, s': State, pos: nat)
    requires s.Active(j, pos)
    requires s' == s.(breq := s.breq.(worker := s'.breq.worker),
                      bdev := s.bdev.(transferPos := s'.bdev.transferPos), at45 := s'.at45)
    requires s'.at45.Valid() && !s'.at45.chip.fault && s'.at45.busHeld == s.at45.busHeld
    requires |s'.at45.chip.flash| == |s.at45.chip.flash|
    ensures s'.Active(j, pos) && s'.Moved() == s.Moved()
    ensures s'.Page() == s.Page() && s'.Offset() == s.Offset()
    ensures s'.SegmentStart() == s.SegmentStart() && s'.SegmentSize() == s.SegmentSize()
    ensures forall x: nat | s.BufferHolds(x) && SameMemory(s.at45, s'.at45) :: s'.BufferHolds(x)
    ensures forall n: nat | s.Memory(j, n) && SameMemory(s.at45, s'.at45) :: s'.Memory(j, n)
  {
  }

  ghost predicate SameMemory(d: Dev, d': Dev)
  {
    d'.chip.flash == d.chip.flash && d'.chip.buffer1 == d.chip.buffer1
  }

  /** The read command goes out. */
  lemma CommandRead(j: Job, s: State, s': State)
    requires s.AtPageStart(j) && j.operation.Read?
    requires s' == s.(breq := s.breq.(worker := Transfer), bdev := s.bdev.(transferPos := 0), at45 := s'.at45)
    requires s'.at45 == s.at45.(chip := s.at45.chip.Select(), spi := WriteCmd(5), cmdrsp := s'.at45.cmdrsp)
    requires |s'.at45.cmdrsp| == 5 && Decode(s'.at45.cmdrsp[..5]) == ArrayRead(s.SegmentStart())
    ensures s'.Inv(j)
  {
    hide State.Active;
    hide State.Memory;
    hide State.BufferHolds;
    hide State.Offset;
    hide State.Page;
    PageInside(j, s, 0);
    ActiveKept(j, s, s', 0);
  }

  /** The command that takes the segment's bytes into buffer 1 goes out. */
  lemma CommandWrite(j: Job, s: State, s': State)
    requires s.AtWriteReady(j)
    requires s' == s.(breq := s.breq.(worker := Transfer), at45 := s'.at45)
    requires s'.at45 == s.at45.(chip := s.at45.chip.Select(), spi := WriteCmd(4), cmdrsp := s'.at45.cmdrsp)
    requires |s'.at45.cmdrsp| == 5 && Decode(s'.at45.cmdrsp[..4]) == BufferWrite(s.Offset())
    ensures s'.Inv(j)
  {
    hide State.Active;
    hide State.Memory;
    hide State.BufferHolds;
    hide State.Offset;
    hide State.Page;
    PageInside(j, s, 0);
    ActiveKept(j, s, s', 0);
  }

  /** The command that loads a partly written page into buffer 1 goes out. */
  lemma CommandLoad(j: Job, s: State, s': State)
    requires s.AtPageStart(j) && j.operation.Write? && s.SegmentSize() == BLOCK_SIZE
    requires s' == s.(breq := s.breq.(worker := WriteBuffered), bdev := s.bdev.(transferPos := 0), at45 := s'.at45)
    requires s'.at45 == s.at45.(chip := s.at45.chip.Select(), spi := WriteCmd(4), cmdrsp := s'.at45.cmdrsp)
    requires |s'.at45.cmdrsp| == 5 && Decode(s'.at45.cmdrsp[..4]) == PageToBuffer(s.Page())
    ensures s'.Inv(j)
  {
    hide State.Active;
    hide State.Memory;
    hide State.BufferHolds;
    hide State.Offset;
    hide State.Page;
    PageInside(j, s, 0);
    ActiveKept(j, s, s', 0);
  }

  /** A whole page needs nothing from the memory: its buffer is ready at once. */
  lemma WholePage(j: Job, s: State, s': State)
    requires s.AtPageStart(j) && j.operation.Write? && IsPageAligned(1, s.breq.lba, s.breq.remaining)
    requires s' == s.(breq := s.breq.(worker := WriteBuffered), bdev := s.bdev.(transferPos := 0))
    ensures s'.AtWriteReady(j)
  {
    hide State.Active;
    PageInside(j, s, 0);
    ActiveKept(j, s, s', 0);
  }

  /** Polling does not disturb a segment whose buffer is being loaded. */
  lemma PollKeepsBuffer(j: Job, s: State, s': State)
    requires s.Active(j, 0) && s.Unscheduled() && s.AwaitingBuffer(j) && s.breq.worker.WriteBufferedWait?
    requires s' == s.(at45 := s'.at45) && s'.at45.Valid() && !s'.at45.chip.fault && s'.at45.PollMoved(s.at45)
    ensures s'.at45.Polling() && !s'.at45.next.Null? && !s'.at45.spi.Idle? ==> s'.Inv(j)
    ensures s'.at45.Quiet() ==> s'.AtWriteReady(j)
  {
    hide State.Active;
    ActiveKept(j, s, s', 0);
  }

  /** The deselect that ends the load command puts the page into buffer 1. */
  lemma LoadBuffer(j: Job, s: State, s': State)
    requires s.Running(j) && s.breq.worker.WriteBuffered?
    requires s' == s.(breq := s.breq.(worker := WriteBufferedWait), at45 := s'.at45)
    requires s'.at45 == s.at45.(chip := s.at45.chip.Deselect(s'.at45.chip.busy))
    ensures s'.Active(j, 0) && s'.Unscheduled() && s'.AwaitingBuffer(j)
  {
    hide State.Active;
    PageInside(j, s, 0);
    assert s.at45.chip.command == PageToBuffer(s.Page());
    ActiveKept(j, s, s', 0);
    assert s'.BufferHolds(0);
  }

  /** The segment is complete in buffer 1; the program command goes out. */
  lemma CommandProgram(j: Job, s: State, s': State)
    requires s.Running(j) && s.breq.worker.WriteDone?
    requires s' == s.(breq := s.breq.(worker := WriteWaitBegin), at45 := s'.at45)
    requires s'.at45 == s.at45.(chip := s.at45.chip.Deselect(s'.at45.chip.busy).Select(),
                                spi := WriteCmd(4), cmdrsp := s'.at45.cmdrsp)
    requires |s'.at45.cmdrsp| == 5 && Decode(s'.at45.cmdrsp[..4]) == BufferToPage(s.Page())
    ensures s'.Inv(j)
  {
    hide State.Active;
    ActiveKept(j, s, s', s.bdev.transferPos);
    assert s'.BufferHolds(s.SegmentSize());
  }

  /** The deselect that ends the program command writes the segment into the memory. */
  lemma ProgramPage(j: Job, s: State, s': State)
    requires s.Running(j) && s.breq.worker.WriteWaitBegin?
    requires s' == s.(breq := s.breq.(worker := WriteWait), at45 := s'.at45)
    requires s'.at45 == s.at45.(chip := s.at45.chip.Deselect(s'.at45.chip.busy))
    ensures s'.Active(j, s'.bdev.transferPos) && s'.Unscheduled() && s'.AwaitingProgram(j)
  {
    hide State.Active;
    hide State.BufferHolds;
    hide State.Offset;
    hide State.SegmentSize;
    hide State.SegmentStart;
    hide Bytes;
    hide Replace;
    hide Job.HoldsMemory;
    var size := s.SegmentSize();
    PageInside(j, s, size);
    StartInside(j, s, size);
    BufferWritten(j, s, size);
    ActiveKept(j, s, s', size);
  }

  /** Buffer 1, put in place of the page, extends the written range by the segment. */
  lemma BufferWritten(j: Job, s: State, size: nat)
    requires s.Memory(j, s.breq.bytesXfered) && j.operation.Write? && size == s.SegmentSize()
    requires s.BufferHolds(size) && s.Offset() + size <= PAGE_SIZE
    requires j.Start() + |Bytes(s.Moved())| <= |j.flash|
    requires s.breq.bytesXfered + j.Start() == s.Page() * PAGE_SIZE + s.Offset()
    ensures Replace(s.at45.chip.flash, s.Page() * PAGE_SIZE, s.at45.chip.buffer1)
         == j.Image(Bytes(s.Moved())[..s.breq.bytesXfered + size])
  {
    ProgramSegment(j.flash, j.Start(), Bytes(s.Moved()), s.breq.bytesXfered,
                   s.at45.chip.buffer1, s.Page(), s.Offset(), size);
  }

  lemma StartInside(j: Job, s: State, pos: nat)
    requires s.Active(j, pos)
    ensures j.Start() + |Bytes(s.Moved())| <= |j.flash| && |s.at45.chip.flash| == |j.flash|
    ensures s.breq.bytesXfered + j.Start() == s.SegmentStart()
  {
  }

  /** Polling does not disturb a segment that is being programmed. */
  lemma PollKeepsProgram(j: Job, s: State, s': State)
    requires s.Active(j, s.bdev.transferPos) && s.Unscheduled() && s.AwaitingProgram(j) && s.breq.worker.WriteWait?
    requires s' == s.(at45 := s'.at45) && s'.at45.Valid() && !s'.at45.chip.fault && s'.at45.PollMoved(s.at45)
    ensures s'.at45.Polling() && !s'.at45.next.Null? && !s'.at45.spi.Idle? ==> s'.Inv(j)
    ensures s'.at45.Quiet() ==> s'.AtPageEnd(j)
  {
    hide State.Active;
    ActiveKept(j, s, s', s.bdev.transferPos);
  }

  /** The last bytes of a segment have been read. */
  lemma ReadComplete(j: Job, s: State, s': State)
    requires s.Running(j) && s.breq.worker.ReadDone?
    requires s' == s.(at45 := s.at45.(chip := s.at45.chip.Deselect(s'.at45.chip.busy)))
    ensures s'.AtPageEnd(j)
  {
    hide State.Active;
    ActiveKept(j, s, s', s.bdev.transferPos);
  }

  lemma PageCounts(j: Job, s: State)
    requires s.AtPageEnd(j)
    ensures 0 < s.bdev.transferPos / BLOCK_SIZE <= s.breq.remaining
    ensures s.bdev.transferPos == BLOCK_SIZE * (s.bdev.transferPos / BLOCK_SIZE)
    ensures NonEmpty(s.client.upcoming) && !s.breq.sleeping && s.breq.operation == j.operation
  {
    PageInside(j, s, s.bdev.transferPos);
  }

  /** Between two pages nothing of the last segment is pending any more. */
  ghost predicate PageClosed(j: Job, s: State)
  {
    && j.Sound() && s.Accounting(j, 0) && s.Unscheduled() && s.at45.Valid() && s.at45.Quiet()
    && s.bdev.currentBufList == [] && s.Memory(j, s.breq.bytesXfered)
    && s.at45.busHeld && s.breq.status.InProgress? && !s.client.done
    && (j.operation.Read? ==> j.HoldsMemory(s.Moved()))
    && |s.at45.chip.flash| == |j.flash|
    && s.Leftovers(j) && s.breq.bytesXfered > 0
    && (s.client.detaches <==> s.bdev.kept == []) && EndsWith(s.client.returned, s.bdev.kept)
  }

  /** Handing back the segment's buffers and moving on keeps every buffer accounted for,
      whatever the client submits from its callback. */
  lemma PageAccounted(j: Job, s: State, s': State)
    requires s.AtPageEnd(j) && 0 < s.bdev.transferPos / BLOCK_SIZE <= s.breq.remaining
    requires
      var blocks := s.bdev.transferPos / BLOCK_SIZE;
      && s'.at45 == s.at45
      && s'.bdev == s.bdev.(currentBufList := [], kept := if s.client.detaches then [] else s.bdev.currentBufList)
      && Submitted(s.breq, s.HandedOver(),
                   s'.breq.(bytesXfered := s.breq.bytesXfered, remaining := s.breq.remaining, lba := s.breq.lba),
                   s'.client)
      && s'.breq.bytesXfered == s.breq.bytesXfered + s.bdev.transferPos
      && s'.breq.remaining == s.breq.remaining - blocks
      && s'.breq.lba == s.breq.lba + blocks
    ensures PageClosed(j, s')
    ensures s'.breq.remaining > 0 ==> s'.AtPageStart(j)
  {
    PageCounts(j, s);
    assert s'.Moved() == s.Moved();
  }

  /** After the last page the request has been served. */
  lemma RequestFinished(j: Job, s: State, s': State)
    requires PageClosed(j, s) && s.breq.remaining == 0
    requires s' == s.(breq := s.breq.(status := Ok), client := s.client.(done := true), at45 := s'.at45)
    requires s'.at45 == s.at45.(busHeld := false, chip := s.at45.chip.(fault := false))
    ensures s'.Inv(j)
  {
    assert s.Moved() == s.client.returned;
    assert Bytes(s.Moved())[..s.breq.bytesXfered] == Bytes(s.Moved());
  }

  // ---- The data phase ----

  /** `pos` bytes of the segment have been taken off the list, of which the `x` bytes
      before `currentBufList` have crossed the bus. */
  ghost predicate Taking(j: Job, s: State, x: nat, pos: nat)
  {
    && s.Active(j, pos) && s.Unscheduled() && s.Settled() && s.at45.chip.selected
    && s.breq.worker.Transfer? && s.bdev.transferPos == x && s.bdev.kept == []
    && pos == x + |Bytes(s.bdev.currentBufList)| && pos <= s.SegmentSize()
    && s.Memory(j, s.breq.bytesXfered)
    && match j.operation
       case Read => s.at45.chip.command == ArrayRead(s.SegmentStart() + x)
       case Write => s.at45.chip.command == BufferWrite(s.Offset() + x) && s.BufferHolds(x)
  }

  /** Neither handing buffers back nor new submissions disturb the bookkeeping. */
  lemma ClientKept(j: Job, s: State, s': State, pos: nat)
    requires s.Active(j, pos)
    requires s'.at45 == s.at45 && s'.bdev.transferPos == s.bdev.transferPos
    requires s'.Moved() == s.Moved()
    requires Submitted(s.breq, s.client.(returned := s'.client.returned, again := s'.client.again), s'.breq, s'.client)
    requires s'.Leftovers(j)
    requires j.operation.Read? ==> j.HoldsMemory(s'.client.returned)
    ensures s'.Active(j, pos)
    ensures s'.Page() == s.Page() && s'.Offset() == s.Offset()
    ensures s'.SegmentStart() == s.SegmentStart() && s'.SegmentSize() == s.SegmentSize()
    ensures forall x: nat | s.BufferHolds(x) :: s'.BufferHolds(x)
    ensures forall n: nat | s.Memory(j, n) :: s'.Memory(j, n)
  {
  }

  lemma LeftoversOf(j: Job, s: State, pos: nat)
    requires s.Active(j, pos)
    ensures s.Leftovers(j)
  {
  }

  lemma ReturnedHolds(j: Job, s: State, pos: nat)
    requires s.Active(j, pos) && j.operation.Read?
    ensures j.HoldsMemory(s.client.returned)
  {
  }

  lemma BeforeTransfer(j: Job, s: State)
    requires s.Running(j) && s.breq.worker.Transfer?
    ensures s.Active(j, s.bdev.transferPos) && s.at45.Valid() && NonEmpty(s.client.upcoming) && !s.breq.sleeping
  {
    hide State.Active;
    hide State.WorkerInv;
    PageInside(j, s, s.bdev.transferPos);
    UpcomingLists(j, s, s.bdev.transferPos);
  }

  /** The data phase goes on once the last buffers have been handed back. */
  lemma StartTaking(j: Job, s: State, s': State)
    requires s.Running(j) && s.breq.worker.Transfer?
    requires s'.at45 == s.at45 && s'.bdev == s.bdev.(currentBufList := [], kept := [])
    requires Submitted(s.breq, s.client.(returned := s.Moved(), again := s.client.again + s.bdev.kept),
                       s'.breq, s'.client)
    ensures Taking(j, s', s.bdev.transferPos, s.bdev.transferPos) && s.bdev.transferPos < s'.SegmentSize()
  {
    hide State.Active;
    hide State.BufferHolds;
    hide State.Memory;
    assert s'.Moved() == s.Moved();
    LeftoversOf(j, s, s.bdev.transferPos);
    ClientKept(j, s, s', s.bdev.transferPos);
  }

  /** New submissions do not disturb the data phase. */
  lemma TakingKept(j: Job, s: State, s': State, x: nat, pos: nat)
    requires Taking(j, s, x, pos)
    requires s'.at45 == s.at45 && s'.bdev == s.bdev
    requires Submitted(s.breq, s.client, s'.breq, s'.client)
    ensures Taking(j, s', x, pos) && s'.SegmentSize() == s.SegmentSize()
  {
    hide State.Active;
    hide State.BufferHolds;
    hide State.Memory;
    if j.operation.Read? {
      ReturnedHolds(j, s, pos);
    }
    LeftoversOf(j, s, pos);
    ClientKept(j, s, s', pos);
  }

  /** With no buffer at hand the request goes to sleep. */
  lemma FallAsleep(j: Job, s: State, s': State, x: nat)
    requires Taking(j, s, x, x) && x < s.SegmentSize()
    requires s.breq.bufList == [] && s.bdev.currentBufList == []
    requires s' == s.(breq := s.breq.(sleeping := true))
    ensures s'.Inv(j)
  {
    hide State.BufferHolds;
    hide State.Memory;
    ScheduleKept(j, s, s');
    assert s'.Moved() == s'.client.returned;
  }

  /** When and by which worker the request goes on is no part of its bookkeeping. */
  lemma ScheduleKept(j: Job, s: State, s': State)
    requires s' == s.(breq := s.breq.(sleeping := s'.breq.sleeping, queued := s'.breq.queued))
    ensures forall x: nat | s.BufferHolds(x) :: s'.BufferHolds(x)
    ensures forall n: nat | s.Memory(j, n) :: s'.Memory(j, n)
    ensures s'.SegmentSize() == s.SegmentSize() && s'.Offset() == s.Offset()
    ensures s'.SegmentStart() == s.SegmentStart() && s'.Page() == s.Page()
    ensures forall pos: nat | s.Active(j, pos) :: s'.Active(j, pos)
    ensures s'.Moved() == s.Moved() && s'.Position() == s.Position()
  {
  }

  lemma WorkerKept(j: Job, s: State, s': State)
    requires s' == s.(breq := s.breq.(sleeping := s'.breq.sleeping, queued := s'.breq.queued))
    requires s.WorkerInv(j)
    ensures s'.WorkerInv(j)
  {
    hide State.Memory;
    hide State.BufferHolds;
    hide State.SegmentSize;
    hide State.SegmentStart;
    hide State.Offset;
    hide State.Page;
    hide State.Moved;
    hide Dev.Polling;
    ScheduleKept(j, s, s');
  }

  lemma WhileWaiting(j: Job, s: State)
    requires s.UnderWay(j)
    ensures s.at45.Valid()
    ensures s.breq.worker.WriteWait? ==>
      s.Active(j, s.bdev.transferPos) && s.AwaitingProgram(j) && !s.at45.next.Null?
    ensures s.breq.worker.WriteBufferedWait? ==> s.Active(j, 0) && s.AwaitingBuffer(j) && !s.at45.next.Null?
  {
    hide State.Active;
    hide State.Memory;
    hide State.BufferHolds;
    hide State.Streaming;
    hide State.Commanded;
    PageInside(j, s, s.Position());
  }

  /** The next buffer on the list is the next one of the plan, and it fits. */
  lemma NextBuffer(j: Job, s: State, pos: nat)
    requires s.Active(j, pos) && s.breq.bufList != [] && pos < s.SegmentSize()
    ensures |s.Moved()| < |j.plan| && s.breq.bufList[0] == j.plan[|s.Moved()|]
    ensures 0 < |s.breq.bufList[0].data| <= s.SegmentSize() - pos
    ensures j.Start() + |Bytes(s.Moved())| + |s.breq.bufList[0].data| <= |j.flash|
  {
    hide SameShape;
    hide Fits;
    hide Bytes;
    hide NonEmpty;
    hide RemainingPageSize;
    hide Job.HoldsMemory;
    NextFits(s.Moved(), s.breq.bufList, Flatten(s.client.upcoming), j.plan, j.Start(), j.End(),
             s.breq.lba, s.breq.remaining, pos);
  }

  /** Taking it keeps every buffer accounted for. */
  lemma TakeBufferAccounted(j: Job, s: State, s': State, pos: nat)
    requires s.Active(j, pos) && s.breq.bufList != [] && pos < s.SegmentSize() && s.bdev.kept == []
    requires s' == s.(breq := s.breq.(bufList := s.breq.bufList[1..]),
                      bdev := s.bdev.(currentBufList := s.bdev.currentBufList + [s.breq.bufList[0]]))
    ensures s'.Active(j, pos + |s.breq.bufList[0].data|)
    ensures s'.Moved() == s.Moved() + [s.breq.bufList[0]]
    ensures Bytes(s'.Moved()) == Bytes(s.Moved()) + s.breq.bufList[0].data
  {
    hide SameShape;
    hide Fits;
    hide NonEmpty;
    hide Bytes;
    hide Job.HoldsMemory;
    NextBuffer(j, s, pos);
    TakeOne(s.Moved(), s.breq.bufList, Flatten(s.client.upcoming), j.plan);
    assert s'.Moved() == s.Moved() + [s.breq.bufList[0]];
  }

  lemma TakeBuffer(j: Job, s: State, s': State, x: nat, pos: nat)
    requires Taking(j, s, x, pos) && s.breq.bufList != [] && pos < s.SegmentSize()
    requires s' == s.(breq := s.breq.(bufList := s.breq.bufList[1..]),
                      bdev := s.bdev.(currentBufList := s.bdev.currentBufList + [s.breq.bufList[0]]))
    ensures Taking(j, s', x, pos + |s.breq.bufList[0].data|) && s'.SegmentSize() == s.SegmentSize()
  {
    hide State.Active;
    var buf := s.breq.bufList[0];
    NextBuffer(j, s, pos);
    TakeBufferAccounted(j, s, s', pos);
    BytesAppend(s.bdev.currentBufList, [buf]);
    BytesOne(buf);
    PageInside(j, s, pos);
    MoreBytesKeep(j, s, s', buf.data);
  }

  /** Bytes taken later do not change what the first ones are. */
  lemma MoreBytesKeep(j: Job, s: State, s': State, more: seq<byte>)
    requires s'.at45 == s.at45 && s'.breq.lba == s.breq.lba && s'.breq.remaining == s.breq.remaining
    requires s'.breq.bytesXfered == s.breq.bytesXfered
    requires Bytes(s'.Moved()) == Bytes(s.Moved()) + more
    ensures forall x: nat | s.BufferHolds(x) :: s'.BufferHolds(x)
    ensures forall n: nat | s.Memory(j, n) :: s'.Memory(j, n)
  {
    forall n: nat | s.Memory(j, n)
      ensures s'.Memory(j, n)
    {
      assert j.operation.Write? ==> Bytes(s'.Moved())[..n] == Bytes(s.Moved())[..n];
    }
  }

  /** The taken buffers are handed to the SPI controller. */
  lemma StartTransfer(j: Job, s: State, s': State, x: nat, pos: nat)
    requires Taking(j, s, x, pos) && x < pos && s.breq.operation == j.operation
    requires
      var last := if pos < s.SegmentSize() then Transfer else if j.operation.Read? then ReadDone else WriteDone;
      var list := if j.operation.Read? then ReadBufList else WriteBufList;
      s' == s.(breq := s.breq.(worker := last), bdev := s.bdev.(transferPos := pos), at45 := s.at45.(spi := list))
    ensures s'.Inv(j)
  {
    hide State.Active;
    hide State.BufferHolds;
    hide State.Memory;
    PageInside(j, s, pos);
    ActiveKept(j, s, s', pos);
  }

  // ---- Completions ----

  /** A command has arrived at the chip. */
  lemma CommandArrived(j: Job, s: State, s': State)
    requires s.Inv(j) && !s.client.done && s.at45.spi.WriteCmd?
    requires !s.breq.worker.WriteWait? && !s.breq.worker.WriteBufferedWait?
    requires s.at45.spi.size <= 5
    requires s' == s.(breq := s.breq.(queued := true),
                      at45 := s.at45.(spi := Idle, chip := s.at45.chip.Write(s.at45.cmdrsp[..s.at45.spi.size])))
    ensures s'.Inv(j)
  {
    hide State.Active;
    hide State.BufferHolds;
    hide State.Memory;
    PageInside(j, s, s.Position());
    ActiveKept(j, s, s.(at45 := s'.at45), s.Position());
    ScheduleKept(j, s.(at45 := s'.at45), s');
    if j.operation.Read? {
      ReturnedHolds(j, s, s.Position());
      assert s.Moved() == s.client.returned;
    }
  }

  /** The data phase of a write: the bytes of the segment go to buffer 1. */
  ghost predicate Sending(j: Job, s: State)
  {
    && j.operation.Write? && s.Active(j, s.bdev.transferPos) && s.Memory(j, s.breq.bytesXfered) && s.Streaming(j)
    && match s.breq.worker
       case Transfer => s.bdev.transferPos < s.SegmentSize()
       case WriteDone => s.bdev.transferPos == s.SegmentSize() && s.bdev.currentBufList != []
       case _ => false
  }

  lemma BuffersOut(j: Job, s: State)
    requires s.Inv(j) && !s.client.done && s.at45.spi.WriteBufList?
    ensures Sending(j, s) && s.Active(j, s.bdev.transferPos) && s.Memory(j, s.breq.bytesXfered)
    ensures s.Settled() && s.at45.chip.selected && 0 <= s.Crossed() && s.BufferHolds(s.Crossed())
    ensures s.at45.chip.command == BufferWrite(s.Offset() + s.Crossed()) && !s.breq.sleeping
    ensures s.bdev.transferPos <= s.SegmentSize()
  {
    hide State.Active;
    hide State.Memory;
    hide State.BufferHolds;
    PageInside(j, s, s.Position());
  }

  lemma BuffersIn(j: Job, s: State)
    requires Sending(j, s) && !s.client.done && s.at45.spi.Idle? && s.breq.queued && !s.breq.sleeping
    ensures s.Inv(j)
  {
    hide State.Active;
    hide State.Memory;
    hide State.BufferHolds;
  }

  lemma SendingKept(j: Job, s: State, s': State, size: nat)
    requires Sending(j, s) && s.at45.spi.WriteBufList? && size == |Bytes(s.bdev.currentBufList)|
    requires s' == s.(breq := s.breq.(queued := true), at45 := s.at45.(spi := Idle, chip := s'.at45.chip))
    requires s'.at45.chip == s.at45.chip.(buffer1 := s'.at45.chip.buffer1,
                                          command := BufferWrite(s.Offset() + s.Crossed() + size))
    requires s'.at45.Valid() && s'.Active(j, s.bdev.transferPos) && s'.Memory(j, s.breq.bytesXfered)
    requires s'.BufferHolds(s.Crossed() + size)
    ensures Sending(j, s')
  {
    hide State.Active;
    hide State.Memory;
    hide State.BufferHolds;
  }

  /** The buffers of a write have arrived in buffer 1. */
  lemma BuffersWritten(j: Job, s: State, s': State)
    requires s.Inv(j) && !s.client.done && s.at45.spi.WriteBufList?
    requires s' == s.(breq := s.breq.(queued := true),
                      at45 := s.at45.(spi := Idle, chip := s.at45.chip.Write(Bytes(s.bdev.currentBufList))))
    ensures s'.Inv(j)
  {
    hide State.Active;
    hide State.Memory;
    hide State.BufferHolds;
    hide State.Inv;
    hide State.Offset;
    hide State.SegmentSize;
    hide State.SegmentStart;
    hide State.Page;
    hide Sending;
    hide Bytes;
    hide Replace;
    hide Chip.Write;
    hide Decode;
    BuffersOut(j, s);
    var pos, list := s.bdev.transferPos, Bytes(s.bdev.currentBufList);
    PageInside(j, s, pos);
    MovedBytes(s);
    DataArrived(s.at45.chip, s.Offset() + s.Crossed(), list);
    ActiveKept(j, s, s.(at45 := s'.at45), pos);
    ScheduleKept(j, s.(at45 := s'.at45), s');
    MemoryKept(j, s, s', s.breq.bytesXfered);
    BufferGrows(s, s', s.Crossed(), list);
    SendingKept(j, s, s', |list|);
    BuffersIn(j, s');
  }

  lemma MovedBytes(s: State)
    requires s.at45.spi.WriteBufList? && 0 <= s.Crossed()
    requires s.breq.bytesXfered + s.bdev.transferPos == |Bytes(s.Moved())|
    ensures Bytes(s.Moved())[s.breq.bytesXfered + s.Crossed()..] == Bytes(s.bdev.currentBufList)
  {
    BytesAppend(s.client.returned, s.bdev.currentBufList);
  }

  lemma DataArrived(c: Chip, pos: nat, list: seq<byte>)
    requires c.Valid() && c.selected && c.command == BufferWrite(pos) && pos + |list| <= PAGE_SIZE
    ensures c.Write(list) == c.(buffer1 := Replace(c.buffer1, pos, list), command := BufferWrite(pos + |list|))
  {
  }

  lemma DataLeft(c: Chip, addr: nat, size: nat)
    requires c.Valid() && c.selected && c.command == ArrayRead(addr) && addr + size <= |c.flash|
    ensures c.Read(size) == (c.(command := ArrayRead(addr + size)), c.flash[addr..addr + size])
  {
  }

  lemma MemoryKept(j: Job, s: State, s': State, n: nat)
    requires s.Memory(j, n) && s'.Moved() == s.Moved() && s'.at45.chip.flash == s.at45.chip.flash
    ensures s'.Memory(j, n)
  {
  }

  lemma BufferGrows(s: State, s': State, x: nat, list: seq<byte>)
    requires s.BufferHolds(x) && s'.Moved() == s.Moved()
    requires s'.breq.lba == s.breq.lba && s'.breq.remaining == s.breq.remaining
    requires s'.breq.bytesXfered == s.breq.bytesXfered && s'.at45.chip.flash == s.at45.chip.flash
    requires s.Offset() + s.SegmentSize() <= PAGE_SIZE && x + |list| <= s.SegmentSize()
    requires s.breq.bytesXfered + x + |list| == |Bytes(s.Moved())|
    requires Bytes(s.Moved())[s.breq.bytesXfered + x..] == list
    requires s'.at45.chip.buffer1 == Replace(s.at45.chip.buffer1, s.Offset() + x, list)
    ensures s'.BufferHolds(x + |list|)
  {
    hide Merged;
    hide Replace;
    hide Bytes;
    hide RemainingPageSize;
    MergedGrows(s.at45.chip.buffer1, s.at45.chip.flash, s.Page(), s.Offset(), s.SegmentSize(), Bytes(s.Moved()),
                s.breq.bytesXfered, x, list);
  }

  lemma MergedGrows(buffer: seq<byte>, flash: seq<byte>, page: nat, offset: nat, size: nat,
                    data: seq<byte>, from: nat, x: nat, list: seq<byte>)
    requires Merged(buffer, flash, page, offset, size, data, from, x)
    requires offset + size <= PAGE_SIZE && x + |list| <= size && data[from + x..] == list
    ensures Merged(Replace(buffer, offset + x, list), flash, page, offset, size, data, from, x + |list|)
  {
  }

  /** The buffers of a read hold what the memory held. */
  lemma BuffersRead(j: Job, s: State, s': State)
    requires s.Inv(j) && !s.client.done && s.at45.spi.ReadBufList?
    requires
      var size := |Bytes(s.bdev.currentBufList)|;
      && s'.breq == s.breq.(queued := true) && s'.client == s.client
      && s'.at45 == s.at45.(spi := Idle, chip := s.at45.chip.Read(size).0)
      && s'.bdev == s.bdev.(currentBufList := Fill(s.bdev.currentBufList, s.at45.chip.Read(size).1))
    ensures s'.Inv(j)
  {
    hide State.Active;
    hide Chip.Read;
    hide Bytes;
    hide Fill;
    hide SameShape;
    hide Job.HoldsMemory;
    var pos, size := s.bdev.transferPos, |Bytes(s.bdev.currentBufList)|;
    var from := s.SegmentStart() + s.Crossed();
    PageInside(j, s, pos);
    StartInside(j, s, pos);
    ReturnedHolds(j, s, pos);
    assert |Bytes(s.client.returned)| == s.breq.bytesXfered + s.Crossed() by {
      BytesAppend(s.client.returned, s.bdev.currentBufList);
    }
    DataLeft(s.at45.chip, from, size);
    FilledKept(j, s, s', pos);
    BytesAppend(s.client.returned, s'.bdev.currentBufList);
    MemoryHeld(j, s.client.returned, s'.bdev.currentBufList, from);
  }

  lemma MemoryHeld(j: Job, first: seq<Buffer>, second: seq<Buffer>, from: nat)
    requires j.HoldsMemory(first) && from == j.Start() + |Bytes(first)|
    requires from + |Bytes(second)| <= |j.flash| && Bytes(second) == j.flash[from..from + |Bytes(second)|]
    ensures j.HoldsMemory(first + second)
  {
    hide Bytes;
    hide Job.Start;
    BytesAppend(first, second);
    SlicesJoin(j.flash, j.Start(), Bytes(first), Bytes(second));
  }

  lemma SlicesJoin(s: seq<byte>, from: nat, a: seq<byte>, b: seq<byte>)
    requires from + |a| + |b| <= |s|
    requires a == s[from..from + |a|] && b == s[from + |a|..from + |a| + |b|]
    ensures a + b == s[from..from + |a + b|]
  {
  }

  lemma FilledKept(j: Job, s: State, s': State, pos: nat)
    requires s.Active(j, pos) && j.operation.Read?
    requires s'.breq == s.breq.(queued := s'.breq.queued) && s'.client == s.client
    requires SameShape(s'.bdev.currentBufList, s.bdev.currentBufList) && s'.bdev.kept == s.bdev.kept
    requires s'.at45.Valid() && !s'.at45.chip.fault && s'.at45.busHeld == s.at45.busHeld
    requires s'.at45.chip.flash == s.at45.chip.flash
    ensures s'.Active(j, pos) && |s'.bdev.currentBufList| == |s.bdev.currentBufList|
  {
    ShapeBytes(s.Moved(), s'.Moved());
  }

  /** A poll step's operation is over. */
  lemma PollArrived(j: Job, s: State, s': State)
    requires s.Inv(j) && !s.client.done && (s.breq.worker.WriteWait? || s.breq.worker.WriteBufferedWait?)
    requires !s.at45.spi.Idle?
    requires s' == s.(breq := s.breq.(queued := true), at45 := s'.at45)
    requires s'.at45.Polling() && s'.at45.spi.Idle? && !s'.at45.next.Null? && s'.at45.PollMoved(s.at45)
    ensures s'.Inv(j)
  {
    hide State.Active;
    hide State.Memory;
    hide State.BufferHolds;
    ActiveKept(j, s, s.(at45 := s'.at45), s.Position());
    ScheduleKept(j, s.(at45 := s'.at45), s');
  }

  /** Taking the task from the queue leaves the request in the hands of its worker. */
  lemma TaskTaken(j: Job, s: State, s': State)
    requires s.Inv(j) && !s.client.done && s.breq.queued
    requires s' == s.(breq := s.breq.(queued := false))
    ensures s'.Running(j) && s.at45.Valid() && s'.at45.Valid()
    ensures s.breq.worker.WriteWait? ==>
      s'.Active(j, s'.bdev.transferPos) && s'.Unscheduled() && s'.AwaitingProgram(j) && !s'.at45.next.Null?
    ensures s.breq.worker.WriteBufferedWait? ==>
      s'.Active(j, 0) && s'.Unscheduled() && s'.AwaitingBuffer(j) && !s'.at45.next.Null?
  {
    hide State.Active;
    hide State.Memory;
    hide State.BufferHolds;
    hide State.WorkerInv;
    hide State.AwaitingProgram;
    hide State.AwaitingBuffer;
    hide State.Moved;
    hide State.Position;
    hide Job.HoldsMemory;
    ScheduleKept(j, s, s');
    WorkerKept(j, s, s');
    WhileWaiting(j, s');
  }

  /** What may be in flight, and for whom. */
  lemma InFlight(j: Job, s: State)
    requires s.Inv(j) && !s.client.done && !s.at45.spi.Idle?
    ensures s.at45.Valid()
    ensures s.breq.worker.WriteWait? || s.breq.worker.WriteBufferedWait? ==>
      s.at45.Polling() && !s.at45.next.Null? && !s.at45.spi.ReadBufList? && !s.at45.spi.WriteBufList?
    ensures !s.breq.worker.WriteWait? && !s.breq.worker.WriteBufferedWait? ==>
      && s.at45.next.Null?
      && match s.at45.spi
         case ReadBufList => s.at45.chip.command.ArrayRead?
         case WriteBufList => true
         case WriteCmd(size) => size <= 5
         case _ => false
  {
    hide State.Active;
    hide State.Memory;
    hide State.BufferHolds;
    PageInside(j, s, s.Position());
  }

  lemma UpcomingLists(j: Job, s: State, pos: nat)
    requires s.Active(j, pos)
    ensures NonEmpty(s.client.upcoming)
  {
  }

  /** Submissions between two events keep the invariant; a sleeping request is queued
      again by the first of them. */
  lemma SubmittedKept(j: Job, s: State, s': State)
    requires s.Inv(j) && !s.client.done
    requires s' == s.(breq := s'.breq, client := s'.client)
    requires Submitted(s.breq, s.client, s'.breq, s'.client)
    ensures s'.Inv(j)
  {
    hide State.Active;
    hide State.Memory;
    hide State.BufferHolds;
    if j.operation.Read? {
      ReturnedHolds(j, s, s.Position());
    }
    LeftoversOf(j, s, s.Position());
    ClientKept(j, s, s', s.Position());
  }

  /** A request that is neither queued nor waiting for the bus sleeps, and if its client
      has buffers for all its blocks there is a list still to come. */
  lemma StillComing(j: Job, s: State)
    requires s.Inv(j) && !s.client.done && !s.breq.queued && s.at45.spi.Idle?
    requires |Bytes(j.plan)| == BLOCK_SIZE * j.blocks
    ensures s.breq.sleeping && s.client.upcoming != [] && NonEmpty(s.client.upcoming)
  {
    PageInside(j, s, s.bdev.transferPos);
    if s.client.upcoming == [] {
      assert s.breq.bufList + Flatten(s.client.upcoming) == [];
      assert |s.Moved()| == |j.plan| && j.plan[..|j.plan|] == j.plan;
      ShapeBytes(s.Moved(), j.plan);
    }
  }

  /** A finished request has handed back every buffer of the plan. */
  lemma AllReturned(j: Job, s: State)
    requires s.Finished(j)
    ensures |s.client.returned| == |j.plan| && j.plan[..|j.plan|] == j.plan
    ensures s.breq.bufList == [] && s.client.upcoming == []
  {
    ShapeBytes(s.client.returned, j.plan[..|s.client.returned|]);
    PlanFilled(j.plan, |s.client.returned|, j.Start(), j.End());
    assert s.breq.bufList + Flatten(s.client.upcoming) == [];
  }

  lemma PositionInPage(j: Job, s: State)
    requires s.Inv(j)
    ensures s.at45.Valid()
    ensures !s.client.done ==> s.Position() <= PAGE_SIZE
    ensures !s.client.done && s.breq.sleeping ==> s.at45.spi.Idle? && !s.breq.queued
    ensures s.client.done <==> s.breq.remaining == 0
  {
    hide State.Active;
    hide State.Memory;
    hide State.BufferHolds;
    if !s.client.done {
      PageInside(j, s, s.Position());
    }
  }

  /** What a finished request means for the memory and for the client. */
  lemma RequestServed(j: Job, s: State)
    requires s.Inv(j) && s.client.done
    ensures s.Finished(j)
    ensures j.Sound() && j.Start() + |Bytes(j.plan)| == j.End()
    ensures SameShape(s.client.returned, j.plan)
    ensures s.breq.bufList == [] && s.client.upcoming == []
    ensures j.operation.Write? ==> s.client.returned == j.plan && s.at45.chip.flash == j.Image(Bytes(j.plan))
    ensures j.operation.Read? ==>
      s.at45.chip.flash == j.flash && Bytes(s.client.returned) == j.flash[j.Start()..j.End()]
  {
    AllReturned(j, s);
    ShapeBytes(s.client.returned, j.plan);
  }

  lemma FinishedQuiet(j: Job, s: State)
    requires s.Finished(j)
    ensures s.at45.Valid() && s.at45.Quiet() && !s.at45.busHeld && s.bdev.currentBufList == []
  {
  }

  lemma WholeList(bufs: seq<Buffer>, last: seq<Buffer>)
    requires |bufs| == 1 && EndsWith(bufs, last) && last != []
    ensures last == bufs
  {
  }

  lemma OneBuffer(buf: Buffer)
    ensures Bytes([buf] + Flatten([])) == buf.data
  {
    BytesOne(buf);
    assert [buf] + Flatten([]) == [buf];
  }

  /** A request for a single block with one buffer for it. */
  lemma OneBlock(j: Job, buf: Buffer)
    requires j.plan == [buf] + Flatten([]) && |buf.data| == BLOCK_SIZE && j.blocks == 1
    requires j.End() <= |j.flash| <= MAX_PAGES * PAGE_SIZE && |j.flash| % PAGE_SIZE == 0
    ensures j.plan == [buf] && j.Sound()
  {
    hide Fits;
    hide Flatten;
    assert Flatten([]) == [] by {
      NothingFlat();
    }
    BlockFits(j.lba, buf);
  }

  lemma NothingFlat()
    ensures Flatten([]) == []
  {
  }

  lemma BlockFits(lba: nat, buf: Buffer)
    requires |buf.data| == BLOCK_SIZE
    ensures Fits([buf], BLOCK_SIZE * lba, BLOCK_SIZE * (lba + 1))
  {
    hide Bytes;
    BytesNone();
    assert [buf][..0] == [];
    DivModUnique(BLOCK_SIZE * lba, PAGE_SIZE, lba / 2, BLOCK_SIZE * (lba % 2));
    DivModUnique(BLOCK_SIZE * lba + BLOCK_SIZE - 1, PAGE_SIZE, lba / 2, BLOCK_SIZE * (lba % 2) + BLOCK_SIZE - 1);
  }

  /** The data phase makes progress, or it sleeps. */
  lemma TransferProgress(before: State, s: State)
    requires s.at45.Valid() && before.at45.Valid() && before.breq.worker.Transfer?
    requires s.breq.remaining == before.breq.remaining
    requires
      || s.breq.worker.ReadDone? || s.breq.worker.WriteDone?
      || (s.breq.worker.Transfer? && s.bdev.transferPos > before.bdev.transferPos)
      || (s.breq.worker.Transfer? && s.bdev.transferPos == before.bdev.transferPos && s.at45 == before.at45
          && |s.client.upcoming| <= |before.client.upcoming| && s.breq.sleeping)
    ensures s.Progress(before)
  {
  }

  lemma ProgressTaken(s: State, s': State, t: State)
    requires s.at45.Valid() && s'.at45.Valid() && t.at45.Valid()
    requires s' == s.(breq := s.breq.(queued := false)) && t.Progress(s')
    ensures t.Progress(s)
  {
  }
}
