/** The AT45 device driver: command encoders, the ready-polling chain and the
    identification chain, each step of which ends by starting one SPI operation.

    `chip` stands for the hardware at the other end of the bus, and `spi` for the
    operation the SPI controller is working on; `CompleteCommand` is the completion
    of a command or response transfer. */
module At45Device {
  import opened Bits
  import opened At45Chip

  const CMD_CONTINOUS_ARRAY_READ: byte := 0x0b
  const CMD_MAIN_MEMORY_TO_BUFFER_1_TRANSFER: byte := 0x53
  const CMD_BUFFER_1_MAIN_MEMORY_PROGRAM_WITH_ERASE: byte := 0x83
  const CMD_BUFFER_1_WRITE: byte := 0x84
  const CMD_READ_ID: byte := 0x9f
  const CMD_READ_STATUS_REG: byte := 0xd7

  /** The operation in progress on the SPI bus. */
  datatype Spi = Idle | WriteCmd(size: nat) | ReadRsp(size: nat) | ReadBufList | WriteBufList

  /** The `next` function pointer: the step that continues a chained operation. */
  datatype Next =
    | Null
    | WaitPollCmdDone
    | WaitPollDone
    | IdentifyFetchStatus
    | IdentifyGotStatus
    | IdentifyFetchId
    | IdentifyGotId

  /** The address bytes the encoders send for a page and a position in it. */
  lemma AddressBytes(page: nat, pos: nat)
    requires page < 8192 && pos < 2048
    ensures page / 32 < 256
    ensures PageOf(page / 32, Or(page * 8, pos / 256) % 256) == page
    ensures PosOf(Or(page * 8, pos / 256) % 256, pos % 256) == pos
    ensures Address(page / 32, Or(page * 8, pos / 256) % 256, pos % 256) == page * 2048 + pos
  {
    hide Or;
    OrAddress(page, pos / 256);
    AddressSplit(page, pos / 256);
    PositionSplit(pos);
  }

  /** The 24-bit number that three bytes are, most significant byte first. */
  function Address(b1: byte, b2: byte, b3: byte): nat
  {
    b1 * 0x1_0000 + b2 * 0x100 + b3
  }

  /** The same for the commands that leave the position out. */
  lemma PageBytes(page: nat)
    requires page < 8192
    ensures page / 32 < 256 && PageOf(page / 32, (page * 8) % 256) == page
    ensures Address(page / 32, (page * 8) % 256, 0) == page * 2048
  {
    AddressSplit(page, 0);
  }

  lemma OrAddress(page: nat, high: nat)
    requires high < 8
    ensures Or(page * 8, high) == page * 8 + high
  {
    assert Pow2(3) == 8;
    OrDisjoint(page * 8, high, 3);
  }

  lemma PositionSplit(pos: nat)
    requires pos < 2048
    ensures pos / 256 < 8 && pos == (pos / 256) * 256 + pos % 256
    ensures PosOf(pos / 256, pos % 256) == pos && Address(0, pos / 256, pos % 256) == pos
  {
  }

  lemma AddressSplit(page: nat, high: nat)
    requires page < 8192 && high < 8
    ensures page / 32 < 256
    ensures PageOf(page / 32, (page * 8 + high) % 256) == page
    ensures (page * 8 + high) % 256 % 8 == high
    ensures page / 32 * 0x100 + (page * 8 + high) % 256 == page * 8 + high
  {
    var q, r := page / 32, page % 32;
    assert page * 8 + high == q * 256 + (r * 8 + high);
    DivModUnique(page * 8 + high, 256, q, r * 8 + high);
    DivModUnique(r * 8 + high, 8, r, high);
    DivModUnique(page * 8 + high, 8, page, high);
  }

  /** Bit test of a status byte. */
  predicate StatusBit(status: byte, k: nat)
  {
    And(status, Pow2(k)) != 0
  }

  /** The ready bit of the status byte tells whether the chip is busy. */
  lemma ReadyBit(c: Chip)
    requires c.Valid()
    ensures StatusBit(c.StatusByte(), 7) <==> c.busy == 0
  {
    assert Pow2(7) == 128 && Pow2(8) == 256;
    AndPow2(c.StatusByte(), 7);
    BitMod(c.StatusByte(), 7);
  }

  /** Whether the chip reports sector protection once it is ready. */
  predicate ReportsProtection(c: Chip)
  {
    c.statusLow < 128 && StatusBit(128 + c.statusLow, 1)
  }

  predicate IsValidId(manufacturer: byte, device: byte)
  {
    && manufacturer == 0x1f
    && And(device, 0xe0) == 0x20
    && 2 <= And(device, 0x1f) <= 8
  }

  /** The devices that are accepted: Atmel's, of the DataFlash family, with the density codes
      2 to 8. */
  lemma ValidIds(manufacturer: byte, device: byte)
    ensures IsValidId(manufacturer, device) <==> manufacturer == 0x1f && 0x22 <= device <= 0x28
    ensures IsValidId(manufacturer, device) ==> And(device, 0x1f) == device - 0x20
  {
    hide And;
    hide Pow2;
    SmallPowers();
    AndLowMask(device, 5);
    AndHighMask(device, 5, 8);
    assert 0xe0 == Pow2(8) - Pow2(5) && 0x1f == Pow2(5) - 1;
  }

  /** The status a chip reports: bit 7 says that it is ready, bit 1 that it is protected. */
  lemma StatusBits(c: Chip)
    requires c.Valid()
    ensures c.StatusByte() / 128 == if c.busy == 0 then 1 else 0
    ensures ReportsProtection(c) <==> c.statusLow / 2 % 2 == 1
  {
    hide And;
    hide Pow2;
    hide Bit;
    SmallPowers();
    AndPow2(128 + c.statusLow, 1);
    BitMod(128 + c.statusLow, 1);
    assert (128 + c.statusLow) % 4 == c.statusLow % 4;
    assert (128 + c.statusLow) % 2 == c.statusLow % 2;
  }

  /** `at45_density_table`: page size, sector size and device size bits by density code. */
  const DENSITY_TABLE: seq<byte> := [0, 0, 0x00, 0x10, 0x18, 0x28, 0x29, 0x41, 0x3a]

  /** The size in bytes of the device with this identification byte. */
  function DeviceSize(device: byte): nat
  {
    0x8000 * Pow2(And(device, 0x1f))
  }

  function DevicePageSize(device: byte): nat
    requires And(device, 0x1f) < |DENSITY_TABLE|
  {
    256 * Pow2(And(DENSITY_TABLE[And(device, 0x1f)], 7))
  }

  /** The number of pages: one bit more for each step in the density code, one bit less for
      each step in the page size. */
  function DevicePageCount(device: byte): nat
    requires 2 <= And(device, 0x1f) < |DENSITY_TABLE|
  {
    var code := And(device, 0x1f);
    128 * Pow2(code - if code <= 5 then 0 else if code <= 7 then 1 else 2)
  }

  /** What the accepted devices hold, and the size of their pages. Every device consists of
      whole pages that 13 bits can number. Its pages have the 1024 bytes that the block
      driver's addresses take for granted exactly if its density code is the highest, and then
      all page numbers are in use. */
  lemma DevicePages(manufacturer: byte, device: byte)
    requires IsValidId(manufacturer, device)
    ensures 0x22 <= device <= 0x28 && DeviceSize(device) == 0x2_0000 * Pow2(device - 0x22)
    ensures DevicePageSize(device) == if device <= 0x25 then 256 else if device <= 0x27 then 512 else 1024
    ensures DeviceSize(device) == DevicePageCount(device) * DevicePageSize(device)
    ensures DevicePageCount(device) <= MAX_PAGES
    ensures DevicePageSize(device) == PAGE_SIZE ==> DevicePageCount(device) == MAX_PAGES
  {
    ValidIds(manufacturer, device);
    var code := And(device, 0x1f);
    PageShift(code);
    SizeByCode(code);
    hide And;
    hide Pow2;
    if code <= 5 {
      assert DevicePageSize(device) == 256;
    } else if code <= 7 {
      assert DevicePageSize(device) == 512;
    } else {
      assert DevicePageSize(device) == 1024;
    }
  }

  lemma PageShift(code: nat)
    requires 2 <= code <= 8
    ensures And(DENSITY_TABLE[code], 7) == if code <= 5 then 0 else if code <= 7 then 1 else 2
  {
    hide And;
    hide Pow2;
    var bits := DENSITY_TABLE[code];
    SmallPowers();
    AndLowMask(bits, 3);
    assert bits % 8 == if code <= 5 then 0 else if code <= 7 then 1 else 2;
  }

  lemma SizeByCode(code: nat)
    requires 2 <= code <= 8
    ensures Pow2(0) == 1 && Pow2(1) == 2 && Pow2(2) == 4
    ensures Pow2(code) == 4 * Pow2(code - 2)
    ensures Pow2(code) <= 256 && (code == 8 ==> Pow2(code) == 256) && (code == 7 ==> Pow2(code) == 128)
    ensures code <= 5 ==> Pow2(code) <= 32
    ensures code > 5 ==> Pow2(code) == 2 * Pow2(code - 1) && Pow2(code - 1) == 2 * Pow2(code - 2)
  {
    SmallPowers();
    Pow2Monotone(code, 8);
    if code <= 5 {
      Pow2Monotone(code, 5);
    }
  }

  lemma SmallPowers()
    ensures Pow2(0) == 1 && Pow2(1) == 2 && Pow2(2) == 4 && Pow2(3) == 8 && Pow2(4) == 16
    ensures Pow2(5) == 32 && Pow2(6) == 64 && Pow2(7) == 128 && Pow2(8) == 256
  {
    assert Pow2(3) == 8;
    assert Pow2(6) == 64;
  }

  /** Everything there is to know about a device between two statements. */
  datatype Dev = Dev(
    next: Next,
    cmdrsp: seq<byte>,
    flagValid: bool,
    flagProtected: bool,
    size: nat,
    pageSize: nat,
    spi: Spi,
    busHeld: bool,
    chip: Chip)
  {
    ghost predicate Valid()
    {
      |cmdrsp| == 5 && chip.Valid()
    }

    predicate RspStatusIsReady()
      requires |cmdrsp| == 5
    {
      StatusBit(cmdrsp[0], 7)
    }

    /** A command is on its way to a freshly selected chip, or has arrived there. */
    ghost predicate Commanded(size: nat, command: Command)
    {
      && |cmdrsp| == 5 && size <= 5
      && chip.selected
      && if spi.Idle? then chip.command == command
         else spi == WriteCmd(size) && chip.command.NoCommand? && Decode(cmdrsp[..size]) == command
    }

    // ---- Waiting for the chip to become ready ----

    /** How far a ready-poll has come. With `spi` idle, the step `next` is due. */
    ghost predicate Polling()
    {
      && Valid() && !chip.fault
      && match next
         case Null => !chip.selected && spi.Idle?
         case WaitPollCmdDone => Commanded(1, ReadStatus)
         case WaitPollDone =>
           && chip.selected && chip.command.ReadStatus?
           && if spi.Idle? then RspStatusIsReady() ==> chip.busy == 0
              else spi == ReadRsp(1)
         case _ => false
    }

    /** Status reads still to come before one reports ready. */
    ghost function PollCount(): nat
      requires |cmdrsp| == 5
    {
      chip.busy + if next.WaitPollDone? && spi.Idle? && !RspStatusIsReady() then 1 else 0
    }

    /** Steps left in the status read under way. */
    ghost function PollSteps(): nat
    {
      if next.WaitPollCmdDone? then 2 else if next.WaitPollDone? then 1 else 0
    }

    /** The wait is over. */
    ghost predicate Quiet()
    {
      next.Null? && !chip.selected && !chip.fault && chip.busy == 0 && spi.Idle?
    }

    /** Only the wait itself has moved. */
    ghost predicate PollMoved(before: Dev)
    {
      && chip.flash == before.chip.flash && chip.buffer1 == before.chip.buffer1
      && busHeld == before.busHeld
      && chip.busy <= before.chip.busy
    }

    // ---- Identification ----

    /** How far the identification has come. */
    ghost predicate Identifying()
    {
      && Valid() && !chip.fault && busHeld && !flagValid
      && match next
         case Null => !chip.selected && spi.Idle? && !flagProtected
         case IdentifyFetchStatus => Commanded(1, ReadStatus) && !flagProtected
         case IdentifyGotStatus =>
           && chip.selected && chip.command.ReadStatus? && !flagProtected
           && if spi.Idle? then RspStatusIsReady() ==> chip.busy == 0 && cmdrsp[0] == chip.StatusByte()
              else spi == ReadRsp(1)
         case IdentifyFetchId =>
           Commanded(1, ReadId) && chip.busy == 0 && flagProtected == ReportsProtection(chip)
         case IdentifyGotId =>
           && chip.selected && chip.command.ReadId? && chip.busy == 0 && flagProtected == ReportsProtection(chip)
           && if spi.Idle? then cmdrsp[..4] == chip.id else spi == ReadRsp(4)
         case _ => false
    }

    /** What a finished identification has established. */
    ghost predicate Identified()
    {
      && Valid() && Quiet() && !busHeld
      && flagValid == (chip.id[0] == 0x1f && 0x22 <= chip.id[1] <= 0x28)
      && (flagValid ==>
            && size == 0x2_0000 * Pow2(chip.id[1] - 0x22)
            && pageSize == if chip.id[1] <= 0x25 then 256 else if chip.id[1] <= 0x27 then 512 else 1024)
      && flagProtected == (chip.statusLow / 2 % 2 == 1)
    }

    ghost function IdentifySteps(): nat
    {
      match next
      case IdentifyGotId => 0
      case IdentifyFetchId => 1
      case IdentifyGotStatus => 2
      case IdentifyFetchStatus => 3
      case _ => 4
    }

    ghost predicate SameChip(before: Dev)
    {
      && chip.flash == before.chip.flash && chip.buffer1 == before.chip.buffer1
      && chip.id == before.chip.id && chip.statusLow == before.chip.statusLow
    }
  }

  class Device {
    var next: Next
    const cmdrsp: array<byte>
    var flagValid: bool
    var flagProtected: bool
    var size: nat
    var pageSize: nat
    var spi: Spi
    var busHeld: bool
    var chip: Chip

    ghost function View(): Dev
      reads this, cmdrsp
    {
      Dev(next, cmdrsp[..], flagValid, flagProtected, size, pageSize, spi, busHeld, chip)
    }

    constructor (chip: Chip)
      requires chip.Valid()
      ensures fresh(cmdrsp) && View().Valid()
      ensures next.Null? && spi.Idle? && !busHeld && this.chip == chip && !flagValid && !flagProtected
    {
      this.chip := chip;
      cmdrsp := new byte[5](_ => 0);
      next, spi, busHeld := Null, Idle, false;
      flagValid, flagProtected, size, pageSize := false, false, 0, 0;
    }

    method Release()
      modifies this`busHeld, this`chip
      ensures View() == old(View()).(
                busHeld := false,
                chip := old(chip).(fault := old(chip.fault || chip.selected || !busHeld)))
    {
      chip := chip.(fault := chip.fault || chip.selected || !busHeld);
      busHeld := false;
    }

    method Select()
      modifies this`chip
      ensures View() == old(View()).(chip := old(chip).Select())
    {
      chip := chip.Select();
    }

    method Deselect()
      requires View().Valid()
      modifies this`chip
      ensures View() == old(View()).(chip := old(chip).Deselect(chip.busy))
    {
      var duration: nat := *;
      chip := chip.Deselect(duration);
    }

    method CmdReadStatusReg()
      requires View().Valid() && spi.Idle?
      modifies this`spi, cmdrsp
      ensures View() == old(View()).(spi := WriteCmd(1), cmdrsp := cmdrsp[..])
      ensures cmdrsp[0] == 0xd7 && Decode(cmdrsp[..1]) == ReadStatus
    {
      cmdrsp[0] := CMD_READ_STATUS_REG;
      spi := WriteCmd(1);
      assert cmdrsp[..1] == [CMD_READ_STATUS_REG];
    }

    method CmdReadId()
      requires View().Valid() && spi.Idle?
      modifies this`spi, cmdrsp
      ensures View() == old(View()).(spi := WriteCmd(1), cmdrsp := cmdrsp[..])
      ensures cmdrsp[0] == 0x9f && Decode(cmdrsp[..1]) == ReadId
    {
      cmdrsp[0] := CMD_READ_ID;
      spi := WriteCmd(1);
      assert cmdrsp[..1] == [CMD_READ_ID];
    }

    method CmdContArrayRead(page: nat, pos: nat)
      requires View().Valid() && spi.Idle?
      requires page < 8192 && pos < 2048
      modifies this`spi, cmdrsp
      ensures View() == old(View()).(spi := WriteCmd(5), cmdrsp := cmdrsp[..])
      ensures cmdrsp[0] == 0x0b && Address(cmdrsp[1], cmdrsp[2], cmdrsp[3]) == page * 2048 + pos && cmdrsp[4] == 0
      ensures Decode(cmdrsp[..5]) == if pos < PAGE_SIZE then ArrayRead(page * PAGE_SIZE + pos) else Unknown
    {
      hide Or;
      hide PageOf;
      hide PosOf;
      AddressBytes(page, pos);
      cmdrsp[0] := CMD_CONTINOUS_ARRAY_READ;
      cmdrsp[1] := page / 32;
      cmdrsp[2] := Or(page * 8, pos / 256) % 256;
      cmdrsp[3] := pos % 256;
      cmdrsp[4] := 0;
      spi := WriteCmd(5);
    }

    method CmdBuffer1Write(pos: nat)
      requires View().Valid() && spi.Idle?
      requires pos < 2048
      modifies this`spi, cmdrsp
      ensures View() == old(View()).(spi := WriteCmd(4), cmdrsp := cmdrsp[..])
      ensures cmdrsp[0] == 0x84 && Address(0, cmdrsp[2], cmdrsp[3]) == pos
      ensures Decode(cmdrsp[..4]) == BufferWrite(pos)
    {
      hide PageOf;
      hide PosOf;
      PositionSplit(pos);
      cmdrsp[0] := CMD_BUFFER_1_WRITE;
      cmdrsp[2] := pos / 256;
      cmdrsp[3] := pos % 256;
      spi := WriteCmd(4);
    }

    method CmdMainMemoryToBuffer1Transfer(page: nat)
      requires View().Valid() && spi.Idle?
      requires page < 8192
      modifies this`spi, cmdrsp
      ensures View() == old(View()).(spi := WriteCmd(4), cmdrsp := cmdrsp[..])
      ensures cmdrsp[0] == 0x53 && Address(cmdrsp[1], cmdrsp[2], 0) == page * 2048
      ensures Decode(cmdrsp[..4]) == PageToBuffer(page)
    {
      hide Or;
      hide PageOf;
      hide PosOf;
      PageBytes(page);
      cmdrsp[0] := CMD_MAIN_MEMORY_TO_BUFFER_1_TRANSFER;
      cmdrsp[1] := page / 32;
      cmdrsp[2] := (page * 8) % 256;
      spi := WriteCmd(4);
    }

    method CmdBuffer1MainMemoryProgramWithErase(page: nat)
      requires View().Valid() && spi.Idle?
      requires page < 8192
      modifies this`spi, cmdrsp
      ensures View() == old(View()).(spi := WriteCmd(4), cmdrsp := cmdrsp[..])
      ensures cmdrsp[0] == 0x83 && Address(cmdrsp[1], cmdrsp[2], 0) == page * 2048
      ensures Decode(cmdrsp[..4]) == BufferToPage(page)
    {
      hide Or;
      hide PageOf;
      hide PosOf;
      PageBytes(page);
      cmdrsp[0] := CMD_BUFFER_1_MAIN_MEMORY_PROGRAM_WITH_ERASE;
      cmdrsp[1] := page / 32;
      cmdrsp[2] := (page * 8) % 256;
      spi := WriteCmd(4);
    }

    method ReadResponse(size: nat)
      requires spi.Idle? && size <= 5
      modifies this`spi
      ensures View() == old(View()).(spi := ReadRsp(size))
    {
      spi := ReadRsp(size);
    }

    method ReadBufList()
      requires spi.Idle?
      modifies this`spi
      ensures View() == old(View()).(spi := Spi.ReadBufList)
    {
      spi := Spi.ReadBufList;
    }

    method WriteBufList()
      requires spi.Idle?
      modifies this`spi
      ensures View() == old(View()).(spi := Spi.WriteBufList)
    {
      spi := Spi.WriteBufList;
    }

    /** The SPI controller has clocked a whole buffer list into the chip. */
    method CompleteWrite(bytes: seq<byte>)
      requires View().Valid() && spi.WriteBufList?
      modifies this`spi, this`chip
      ensures View() == old(View()).(spi := Idle, chip := old(chip).Write(bytes))
    {
      chip := chip.Write(bytes);
      spi := Idle;
    }

    /** The SPI controller has clocked a whole buffer list out of the chip. */
    method CompleteRead(size: nat) returns (bytes: seq<byte>)
      requires View().Valid() && spi.ReadBufList?
      modifies this`spi, this`chip
      ensures View() == old(View()).(spi := Idle, chip := old(chip).Read(size).0)
      ensures bytes == old(chip).Read(size).1
    {
      var (c, out) := chip.Read(size);
      chip := c;
      bytes := out;
      spi := Idle;
    }

    /** The SPI controller finishes a command or a response. */
    method CompleteCommand()
      requires View().Valid()
      requires (spi.WriteCmd? || spi.ReadRsp?) && spi.size <= 5
      modifies this`spi, this`chip, cmdrsp
      ensures View().Valid()
      ensures old(spi.WriteCmd?) ==>
        View() == old(View()).(spi := Idle, chip := old(chip.Write(cmdrsp[..spi.size])))
      ensures old(spi.ReadRsp?) ==>
        && View() == old(View()).(spi := Idle, chip := old(chip.Read(spi.size)).0, cmdrsp := cmdrsp[..])
        && cmdrsp[..old(spi.size)] == old(chip.Read(spi.size)).1
    {
      if spi.WriteCmd? {
        chip := chip.Write(cmdrsp[..spi.size]);
      } else {
        var (c, bytes) := chip.Read(spi.size);
        chip := c;
        forall i | 0 <= i < spi.size {
          cmdrsp[i] := bytes[i];
        }
      }
      spi := Idle;
    }

    method WaitPollDone() returns (ready: bool)
      requires View().Polling() && next.WaitPollDone? && spi.Idle?
      modifies this`next, this`spi, this`chip, cmdrsp
      ensures View().Valid() && View().PollMoved(old(View()))
      ensures ready <==> old(View()).RspStatusIsReady()
      ensures ready ==> View().Quiet()
      ensures !ready ==> View().Polling() && next.WaitPollCmdDone? && !spi.Idle?
      ensures !ready ==> View().PollCount() < old(View().PollCount())
    {
      Deselect();
      if StatusBit(cmdrsp[0], 7) {
        next := Null;
        ready := true;
      } else {
        ready := WaitPollStatus();
      }
    }

    method WaitPollCmdDone() returns (ready: bool)
      requires View().Polling() && next.WaitPollCmdDone? && spi.Idle?
      modifies this`next, this`spi
      ensures View().Polling() && View().PollMoved(old(View())) && !ready
      ensures next.WaitPollDone? && !spi.Idle? && View().PollCount() == old(View().PollCount())
    {
      next := Next.WaitPollDone;
      ReadResponse(1);
      ready := false;
    }

    method WaitPollStatus() returns (ready: bool)
      requires View().Valid() && spi.Idle? && !chip.selected && !chip.fault
      modifies this`next, this`spi, this`chip, cmdrsp
      ensures View().Polling() && View().PollMoved(old(View())) && !ready
      ensures next.WaitPollCmdDone? && !spi.Idle? && chip.busy == old(chip.busy)
    {
      next := Next.WaitPollCmdDone;
      Select();
      CmdReadStatusReg();
      ready := false;
    }

    /** One step of the wait. Returns true only when a status read has reported ready,
        with the chip deselected; every other step starts an SPI operation and brings
        that moment closer. */
    method WaitReady() returns (ready: bool)
      requires View().Polling() && spi.Idle?
      modifies this`next, this`spi, this`chip, cmdrsp
      ensures View().Valid() && View().PollMoved(old(View()))
      ensures ready <==> old(next.WaitPollDone? && View().RspStatusIsReady())
      ensures ready ==> View().Quiet()
      ensures !ready ==> View().Polling() && !next.Null? && !spi.Idle?
      ensures !ready && !old(next.Null?) ==>
        && View().PollCount() <= old(View().PollCount())
        && (View().PollCount() == old(View().PollCount()) ==> View().PollSteps() < old(View().PollSteps()))
    {
      match next
      case WaitPollCmdDone =>
        ready := WaitPollCmdDone();
      case WaitPollDone =>
        ready := WaitPollDone();
      case Null =>
        ready := WaitPollStatus();
    }

    /** The SPI controller finishes the operation a poll step started. */
    method CompletePoll()
      requires View().Polling() && !spi.Idle?
      modifies this`spi, this`chip, cmdrsp
      ensures View().Polling() && spi.Idle? && View().PollMoved(old(View()))
      ensures View().PollCount() == old(View().PollCount())
    {
      ReadyBit(chip);
      CompleteCommand();
    }

    method IdentifyGotId() returns (done: bool)
      requires View().Identifying() && next.IdentifyGotId? && spi.Idle?
      modifies this`next, this`busHeld, this`chip, this`flagValid, this`size, this`pageSize
      ensures View().SameChip(old(View())) && done && View().Identified()
    {
      hide And;
      hide Pow2;
      hide DeviceSize;
      hide DevicePageSize;
      hide StatusBit;
      Deselect();
      Release();
      assert cmdrsp[0] == cmdrsp[..4][0] && cmdrsp[1] == cmdrsp[..4][1];
      ValidIds(cmdrsp[0], cmdrsp[1]);
      StatusBits(chip);
      if IsValidId(cmdrsp[0], cmdrsp[1]) {
        DevicePages(cmdrsp[0], cmdrsp[1]);
        flagValid := true;
        size := DeviceSize(cmdrsp[1]);
        pageSize := DevicePageSize(cmdrsp[1]);
      }
      next := Null;
      done := true;
    }

    method IdentifyFetchId() returns (done: bool)
      requires View().Identifying() && next.IdentifyFetchId? && spi.Idle?
      modifies this`next, this`spi
      ensures View().SameChip(old(View())) && !done && chip.busy == old(chip.busy)
      ensures View().Identifying() && next.IdentifyGotId? && !spi.Idle?
    {
      next := Next.IdentifyGotId;
      ReadResponse(4);
      done := false;
    }

    method IdentifyGotStatus() returns (done: bool)
      requires View().Identifying() && next.IdentifyGotStatus? && spi.Idle?
      modifies this`next, this`spi, this`chip, this`flagProtected, cmdrsp
      ensures View().SameChip(old(View())) && !done && chip.busy == old(chip.busy)
      ensures View().Identifying() && !spi.Idle?
      ensures if old(View().RspStatusIsReady()) then next.IdentifyFetchId? else next.IdentifyGotStatus?
    {
      hide And;
      hide Pow2;
      if !StatusBit(cmdrsp[0], 7) {
        done := IdentifyFetchStatus();
        return;
      }
      next := Next.IdentifyFetchId;
      Deselect();
      if StatusBit(cmdrsp[0], 1) {
        flagProtected := true;
      }
      Select();
      CmdReadId();
      done := false;
    }

    method IdentifyFetchStatus() returns (done: bool)
      requires View().Identifying() && spi.Idle?
      requires next.IdentifyFetchStatus? || next.IdentifyGotStatus?
      modifies this`next, this`spi
      ensures View().SameChip(old(View())) && !done && chip.busy == old(chip.busy)
      ensures View().Identifying() && next.IdentifyGotStatus? && !spi.Idle?
    {
      next := Next.IdentifyGotStatus;
      ReadResponse(1);
      done := false;
    }

    method IdentifyStart() returns (done: bool)
      requires View().Identifying() && next.Null?
      modifies this`next, this`spi, this`chip, cmdrsp
      ensures View().SameChip(old(View())) && !done && chip.busy == old(chip.busy)
      ensures View().Identifying() && next.IdentifyFetchStatus? && !spi.Idle?
    {
      next := Next.IdentifyFetchStatus;
      Select();
      CmdReadStatusReg();
      done := false;
    }

    /** One step of the identification; every step but the last starts an SPI operation. */
    method Identify() returns (done: bool)
      requires View().Identifying() && spi.Idle?
      modifies this, cmdrsp
      ensures View().SameChip(old(View()))
      ensures done <==> old(next.IdentifyGotId?)
      ensures done ==> View().Identified()
      ensures !done ==> View().Identifying() && !spi.Idle? && !next.Null? && chip.busy == old(chip.busy)
      ensures !done ==> View().IdentifySteps() <= old(View().IdentifySteps())
      ensures !done && (old(!next.IdentifyGotStatus?) || old(View()).RspStatusIsReady()) ==>
        View().IdentifySteps() < old(View().IdentifySteps())
    {
      match next
      case IdentifyFetchStatus => done := IdentifyFetchStatus();
      case IdentifyGotStatus => done := IdentifyGotStatus();
      case IdentifyFetchId => done := IdentifyFetchId();
      case IdentifyGotId => done := IdentifyGotId();
      case Null => done := IdentifyStart();
    }

    /** The SPI controller finishes the operation a step of the identification started. */
    method CompleteStep()
      requires View().Identifying() && !spi.Idle? && !next.Null?
      modifies this`spi, this`chip, cmdrsp
      ensures View().Identifying() && spi.Idle? && View().SameChip(old(View()))
      ensures chip.busy <= old(chip.busy)
      ensures next.IdentifyGotStatus? ==> View().RspStatusIsReady() || chip.busy < old(chip.busy)
    {
      hide Pow2;
      ReadyBit(chip);
      CompleteCommand();
    }

    /** A whole identification, from the grant of the bus to its release. However long
        the chip stays busy it ends, the chip never sees a protocol breach, and the
        flags report what the chip said. */
    method RunIdentify()
      requires View().Identifying() && next.Null?
      modifies this, cmdrsp
      ensures View().Identified() && View().SameChip(old(View()))
    {
      hide Pow2;
      hide Dev.Identified;
      hide StatusBit;
      var done := Identify();
      while !done
        invariant View().SameChip(old(View()))
        invariant if done then View().Identified() else View().Identifying() && !spi.Idle?
        invariant !done ==> !next.Null?
        decreases !done, chip.busy, View().IdentifySteps()
      {
        CompleteStep();
        done := Identify();
      }
    }
  }
}
