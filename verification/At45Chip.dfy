/** The AT45 DataFlash chip as seen over the SPI bus: main memory, buffer 1, a busy
    countdown and the command in progress since the last chip select.

    A transaction that breaks the protocol (selecting twice, a second command
    without a fresh select, a data command to a busy chip, an address outside the
    memory, data running past the end of buffer 1 or of the memory) raises `fault`,
    which no transition ever clears. */
module At45Chip {
  type byte = x: nat | x < 256

  /** Bytes in a page and in buffer 1. */
  const PAGE_SIZE := 1024

  /** Pages a 13-bit page address can name. */
  const MAX_PAGES := 8192

  /** What the chip does with the bytes clocked in or out since it was selected. */
  datatype Command =
    | NoCommand
    | ReadStatus
    | ReadId
    | ArrayRead(addr: nat)    // next main memory address to clock out
    | BufferWrite(pos: nat)   // next buffer 1 position to clock into
    | PageToBuffer(page: nat) // started by the deselect
    | BufferToPage(page: nat) // started by the deselect
    | Unknown

  /** The 13-bit page number in a 24-bit address sent most significant byte first. */
  function PageOf(b1: byte, b2: byte): nat
  {
    (b1 * 256 + b2) / 8
  }

  /** The 11-bit position within the page in the same address. */
  function PosOf(b2: byte, b3: byte): nat
  {
    (b2 % 8) * 256 + b3
  }

  /** What the chip makes of the first bytes after its selection. */
  function Decode(bytes: seq<byte>): Command
  {
    if bytes == [0xd7] then ReadStatus
    else if bytes == [0x9f] then ReadId
    else if |bytes| == 5 && bytes[0] == 0x0b && PosOf(bytes[2], bytes[3]) < PAGE_SIZE then
      ArrayRead(PageOf(bytes[1], bytes[2]) * PAGE_SIZE + PosOf(bytes[2], bytes[3]))
    else if |bytes| == 4 && bytes[0] == 0x84 then BufferWrite(PosOf(bytes[2], bytes[3]))
    else if |bytes| == 4 && bytes[0] == 0x53 then PageToBuffer(PageOf(bytes[1], bytes[2]))
    else if |bytes| == 4 && bytes[0] == 0x83 then BufferToPage(PageOf(bytes[1], bytes[2]))
    else Unknown
  }

  /** `memory` with the bytes from `at` on replaced by `data`. */
  function Replace(memory: seq<byte>, at: nat, data: seq<byte>): (r: seq<byte>)
    requires at + |data| <= |memory|
    ensures |r| == |memory|
    ensures forall i | 0 <= i < |memory| ::
      r[i] == if at <= i < at + |data| then data[i - at] else memory[i]
  {
    memory[..at] + data + memory[at + |data|..]
  }

  datatype Chip = Chip(
    flash: seq<byte>,
    buffer1: seq<byte>,
    busy: nat,           // status reads until the running operation has finished
    selected: bool,
    command: Command,
    statusLow: nat,      // status register bits 0..6
    id: seq<byte>,
    fault: bool)
  {
    ghost predicate Valid()
    {
      && |buffer1| == PAGE_SIZE
      && |flash| % PAGE_SIZE == 0
      && |flash| <= MAX_PAGES * PAGE_SIZE
      && statusLow < 128
      && |id| == 4
    }

    function StatusByte(): byte
      requires statusLow < 128
    {
      (if busy == 0 then 128 else 0) + statusLow
    }

    function Select(): Chip
    {
      this.(selected := true, command := NoCommand, fault := fault || selected)
    }

    /** The chip select line going high starts a page transfer or a page program,
        which keeps the chip busy for `duration` more status reads. */
    function Deselect(duration: nat): (c: Chip)
      requires Valid()
      ensures c.Valid()
    {
      var c := this.(selected := false, command := NoCommand, fault := fault || !selected);
      match command
      case PageToBuffer(page) =>
        if (page + 1) * PAGE_SIZE <= |flash|
        then c.(buffer1 := flash[page * PAGE_SIZE..(page + 1) * PAGE_SIZE], busy := duration)
        else c.(fault := true)
      case BufferToPage(page) =>
        if (page + 1) * PAGE_SIZE <= |flash|
        then c.(flash := Replace(flash, page * PAGE_SIZE, buffer1), busy := duration)
        else c.(fault := true)
      case _ => c
    }

    /** Clocks bytes into the chip. */
    function Write(bytes: seq<byte>): (c: Chip)
      requires Valid()
      ensures c.Valid() && c.busy == busy && c.flash == flash
    {
      match command
      case NoCommand =>
        var cmd := Decode(bytes);
        if selected && !cmd.Unknown? && (cmd.ReadStatus? || busy == 0)
        then this.(command := cmd) else this.(fault := true)
      case BufferWrite(pos) =>
        if selected && pos + |bytes| <= PAGE_SIZE
        then this.(buffer1 := Replace(buffer1, pos, bytes), command := BufferWrite(pos + |bytes|))
        else this.(fault := true)
      case _ => this.(fault := true)
    }

    /** Clocks `n` bytes out of the chip. Reading the status lets time pass. */
    function Read(n: nat): (r: (Chip, seq<byte>))
      requires Valid()
      ensures r.0.Valid() && |r.1| == n
    {
      match command
      case ReadStatus =>
        (this.(busy := if busy == 0 then 0 else busy - 1), seq(n, _ => StatusByte()))
      case ReadId =>
        if n <= 4 then (this, id[..n]) else (this.(fault := true), seq(n, _ => 0))
      case ArrayRead(addr) =>
        if selected && addr + n <= |flash|
        then (this.(command := ArrayRead(addr + n)), flash[addr..addr + n])
        else (this.(fault := true), seq(n, _ => 0))
      case _ => (this.(fault := true), seq(n, _ => 0))
    }
  }

  /** A breach of the protocol is never forgotten. */
  lemma FaultStays(c: Chip, duration: nat, bytes: seq<byte>, n: nat)
    requires c.Valid() && c.fault
    ensures c.Select().fault && c.Deselect(duration).fault && c.Write(bytes).fault && c.Read(n).0.fault
  {
  }

  /** What the chip takes for a breach when a transaction begins or ends: a select of a selected
      chip, a deselect of one that is not, bytes to a chip that is not selected, an unknown
      command, one that is no status read while the chip is busy, an address that is no page of
      the memory, bytes or reads that the command does not take, and running past the end. */
  lemma Breaches(c: Chip, duration: nat, bytes: seq<byte>, n: nat)
    requires c.Valid() && !c.fault
    ensures c.Select().fault <==> c.selected
    ensures c.Deselect(duration).fault <==>
      || !c.selected
      || (c.command.PageToBuffer? && |c.flash| < (c.command.page + 1) * PAGE_SIZE)
      || (c.command.BufferToPage? && |c.flash| < (c.command.page + 1) * PAGE_SIZE)
    ensures c.command.NoCommand? ==>
      (c.Write(bytes).fault <==>
         !c.selected || Decode(bytes).Unknown? || (c.busy > 0 && !Decode(bytes).ReadStatus?))
    ensures c.command.BufferWrite? ==>
      (c.Write(bytes).fault <==> !c.selected || c.command.pos + |bytes| > PAGE_SIZE)
    ensures !c.command.NoCommand? && !c.command.BufferWrite? ==> c.Write(bytes).fault
    ensures c.Read(n).0.fault <==>
      match c.command
      case ReadStatus => false
      case ReadId => n > 4
      case ArrayRead(addr) => !c.selected || addr + n > |c.flash|
      case _ => true
  {
  }
}
