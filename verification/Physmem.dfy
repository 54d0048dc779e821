/** The physical memory allocator: a pool of addresses that is consumed from both ends and
    never refilled. Addresses and sizes are 32-bit values. */
module Physmem {
  import opened Bits
  import opened Util

  const PHYSMEM_ALLOC_ERR: uint32 := WORD - 1

  datatype Region = Region(addr: nat, size: nat)

  ghost predicate Disjoint(a: Region, b: Region)
  {
    a.addr + a.size <= b.addr || b.addr + b.size <= a.addr
  }

  /** The address an allocation from the top of a pool tries. */
  function TopAddress(end: uint32, size: uint32, order: nat): uint32
    requires order < 32
  {
    RoundDown((end - size) % WORD, order)
  }

  /** The address an allocation from the bottom of a pool tries. */
  function BottomAddress(start: uint32, order: nat): uint32
    requires order < 32
  {
    RoundUp(start, order)
  }

  lemma NoWrapTop(end: uint32, size: uint32)
    ensures (end - size) % WORD == if size <= end then end - size else end - size + WORD
  {
    if size <= end {
      DivModUnique(end - size, WORD, 0, end - size);
    } else {
      DivModUnique(end - size, WORD, -1, end - size + WORD);
    }
  }

  /** An allocation from the top that succeeds lies inside the pool exactly when the size
      does not exceed the pool's end address: the subtraction wraps otherwise. */
  lemma TopInsideIffNoWrap(start: uint32, end: uint32, size: uint32, order: nat)
    requires start <= end && order < 32 && TopAddress(end, size, order) >= start
    ensures TopAddress(end, size, order) + size <= end <==> size <= end
  {
    NoWrapTop(end, size);
  }

  lemma TopFits(end: uint32, size: uint32, order: nat)
    requires size <= end && order < 32
    ensures TopAddress(end, size, order) + size <= end && TopAddress(end, size, order) % Pow2(order) == 0
  {
    NoWrapTop(end, size);
  }

  lemma OversizedAddress()
    ensures TopAddress(0x200, 0x300, 0) == 0xFFFF_FF00
    ensures BottomAddress(0x10, 0) == 0x10
  {
    NoWrapTop(0x200, 0x300);
    assert Pow2(0) == 1;
  }

  /** A size above the end address is taken for available: a pool of 256 bytes grants 768
      bytes near the end of the address space, and its end goes there. */
  method OversizedRequestIsGranted() returns (addr: uint32, end: uint32)
    ensures addr == end == 0xFFFF_FF00
  {
    OversizedAddress();
    hide TopAddress;
    var pool := new PhysmemPool(0x100, 0x200);
    addr := pool.Alloc(0x300, 0);
    end := pool.end;
  }

  /** At the bottom too: nearly the whole address space is granted from a pool of less than
      512 bytes, whose start moves down. */
  method OversizedRequestIsGrantedLow() returns (addr: uint32, start: uint32)
    ensures addr == 0x10 && start == 8
  {
    OversizedAddress();
    hide BottomAddress;
    hide BottomFits;
    hide PhysmemPool.Valid;
    hide Pow2;
    var pool := new PhysmemPool(0x10, 0x200);
    addr := pool.AllocLow(0xFFFF_FFF8, 0);
    start := pool.start;
  }

  /** If there is room the top allocation takes the highest aligned place there is, and if
      it fails there is no aligned place at all. */
  lemma TopIsHighest(start: uint32, end: uint32, size: uint32, order: nat, a: nat)
    requires size <= end && order < 32
    requires start <= a && a % Pow2(order) == 0 && a + size <= end
    ensures start <= a <= TopAddress(end, size, order)
  {
    NoWrapTop(end, size);
    RoundDownIsHighest(end - size, order, a);
  }

  /** Whether the bottom allocation's additions stay within 32 bits. */
  predicate BottomFits(start: uint32, size: uint32, order: nat)
    requires order < 32
  {
    start + Pow2(order) <= WORD && BottomAddress(start, order) + size < WORD
  }

  /** The bottom allocation takes the lowest aligned place there is, so it fails only if there
      is none. */
  lemma BottomIsLowest(start: uint32, end: uint32, size: uint32, order: nat, a: nat)
    requires order < 32 && start + Pow2(order) <= WORD && a % Pow2(order) == 0 && start <= a
    ensures BottomAddress(start, order) % Pow2(order) == 0 && start <= BottomAddress(start, order) <= a
    ensures a + size <= end ==> (BottomAddress(start, order) + size) % WORD <= end
  {
    RoundUpIsLowest(start, order, a);
    hide RoundUp;
    if a + size <= end {
      DivModUnique(BottomAddress(start, order) + size, WORD, 0, BottomAddress(start, order) + size);
    }
  }

  lemma NoWrapBottom(start: uint32, size: uint32, order: nat)
    requires order < 32
    ensures BottomFits(start, size, order) ==>
      && start <= BottomAddress(start, order)
      && BottomAddress(start, order) % Pow2(order) == 0
      && (BottomAddress(start, order) + size) % WORD == BottomAddress(start, order) + size
  {
    var sum := BottomAddress(start, order) + size;
    if sum < WORD {
      DivModUnique(sum, WORD, 0, sum);
    }
  }

  /** An allocation from the bottom that succeeds lies inside the pool exactly when none of
      its additions overflows. */
  lemma BottomInsideIffNoWrap(start: uint32, end: uint32, size: uint32, order: nat)
    requires start <= end && order < 32
    requires (BottomAddress(start, order) + size) % WORD <= end
    ensures start <= BottomAddress(start, order) && BottomAddress(start, order) + size <= end
       <==> BottomFits(start, size, order)
  {
    var addr := BottomAddress(start, order);
    Pow2Monotone(order, 31);
    assert Pow2(31) < WORD by {
      WordIsPow2();
    }
    if addr + size < WORD {
      DivModUnique(addr + size, WORD, 0, addr + size);
    }
  }

  class PhysmemPool {
    var start: uint32
    var end: uint32
    ghost const low: nat                // the pool as it was given out for use
    ghost const high: nat
    ghost var regions: seq<Region>      // what has been allocated from it

    constructor (start: uint32, end: uint32)
      requires start <= end
      ensures Valid() && this.start == low == start && this.end == high == end && regions == []
    {
      this.start, this.end, low, high, regions := start, end, start, end, [];
    }

    /** What has been allocated is pairwise disjoint, inside the original pool, and outside
        of what is left. */
    ghost predicate Valid()
      reads this
    {
      && low <= start <= end <= high
      && (forall i | 0 <= i < |regions| ::
            && low <= regions[i].addr && regions[i].addr + regions[i].size <= high
            && (regions[i].addr + regions[i].size <= start || end <= regions[i].addr))
      && (forall i, j | 0 <= i < j < |regions| :: Disjoint(regions[i], regions[j]))
    }

    method Alloc(size: uint32, order: nat) returns (addr: uint32)
      requires order < 32
      modifies this
      ensures start == old(start)
      ensures if TopAddress(old(end), size, order) >= old(start)
              then addr == TopAddress(old(end), size, order) && end == addr
                   && regions == old(regions) + [Region(addr, size)]
              else addr == PHYSMEM_ALLOC_ERR == 0xFFFF_FFFF && end == old(end) && regions == old(regions)
      ensures old(Valid()) && size <= old(end) ==> Valid()
      ensures size <= old(end) && end != old(end) ==> addr + size <= old(end) && addr % Pow2(order) == 0
    {
      NoWrapTop(end, size);
      addr := TopAddress(end, size, order);
      if addr >= start {
        end := addr;
        regions := regions + [Region(addr, size)];
      } else {
        addr := PHYSMEM_ALLOC_ERR;
      }
    }

    method AllocLow(size: uint32, order: nat) returns (addr: uint32)
      requires order < 32
      modifies this
      ensures end == old(end)
      ensures var a := BottomAddress(old(start), order);
              if (a + size) % WORD <= end
              then addr == a && start == (a + size) % WORD && regions == old(regions) + [Region(addr, size)]
              else addr == PHYSMEM_ALLOC_ERR == 0xFFFF_FFFF && start == old(start) && regions == old(regions)
      ensures old(Valid()) && BottomFits(old(start), size, order) ==> Valid()
      ensures BottomFits(old(start), size, order) && addr != PHYSMEM_ALLOC_ERR ==>
        old(start) <= addr && addr + size <= end && addr % Pow2(order) == 0
    {
      hide BottomFits;
      hide BottomAddress;
      NoWrapBottom(start, size, order);
      addr := BottomAddress(start, order);
      if (addr + size) % WORD <= end {
        start := (addr + size) % WORD;
        regions := regions + [Region(addr, size)];
      } else {
        addr := PHYSMEM_ALLOC_ERR;
      }
    }
  }
}
