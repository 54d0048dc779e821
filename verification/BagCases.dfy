/** Concrete bags on which the allocator does not do what one would expect of it. */
module BagCases {
  import opened Bits
  import opened Util
  import opened Physmem
  import opened MemPool
  import opened MemBag

  /** Blocks of whole words that fit a pool of addresses which ends at a word boundary. */
  ghost predicate WordBlocks(start: uint32, end: uint32, config: Config)
  {
    && 0 < start && end % 4 == 0 && config.blockSize % 4 == 0 && 4 <= config.blockSize < 0x1000
    && 0 < config.numBlocks && start + config.numBlocks * config.blockSize <= end
  }

  lemma WordBlocksFit(start: uint32, end: uint32, config: Config)
    requires WordBlocks(start, end, config)
    ensures RoundUp(config.blockSize, 2) == config.blockSize
    ensures Obtainable(start, end, config.numBlocks, config.blockSize, 2)
    ensures EndAfter(start, end, config, 2) == end - config.numBlocks * config.blockSize
  {
    hide RoundUp;
    hide TopAddress;
    WordUp(config.blockSize);
    WordMultiple(config.numBlocks, config.blockSize);
    WordTop(end, config.numBlocks * config.blockSize);
  }

  lemma WordUp(size: uint32)
    requires size % 4 == 0
    ensures Pow2(2) == 4 && RoundUp(size, 2) == size
  {
    assert Pow2(2) == 4;
    RoundUpAligned(size, 2);
    hide RoundUp;
  }

  lemma WordTop(end: uint32, size: uint32)
    requires size <= end && end % 4 == 0 && size % 4 == 0
    ensures TopAddress(end, size, 2) == end - size
  {
    hide RoundDown;
    assert Pow2(2) == 4;
    NoWrapTop(end, size);
    RoundDownIsHighest(end - size, 2, end - size);
  }

  lemma WordMultiple(n: nat, size: nat)
    requires size % 4 == 0
    ensures n * size >= 0 && (n * size) % 4 == 0
  {
    assert n * size == (n * (size / 4)) * 4 + 0;
    DivModUnique(n * size, 4, n * (size / 4), 0);
  }

  /** A bag with nothing handed out yet. */
  lemma FullBag(m: MemBag, bag: Bag)
    requires m.Valid() && bag in m.bags && bag.SetUp(2) && bag.blockSize % 4 == 0
    ensures bag.end == bag.start + bag.numBlocks * bag.blockSize
    ensures bag.numFree == bag.numBlocks == |bag.pool.free|
    ensures bag.numBlocks > 0 ==> bag.pool.free[0] == bag.start
  {
    hide Pool.ValidIn;
    hide RoundUp;
    WordUp(bag.blockSize);
  }

  /** Nothing has been handed out yet, so no address may be freed. The bag of two blocks from
      24 to 32 accepts all of these all the same, the middle of a block (25) and its own end
      (32) too: they come first on its free list, and it counts more free blocks than it has. */
  method FreeingForeign(ptr: uint32) returns (numFree: int, first: uint32)
    requires 24 <= ptr <= 32
    ensures numFree == 3 && first == ptr
  {
    hide MemBag.Valid;
    hide MemBag.Wired;
    hide MemBag.PhysesApart;
    hide MemBag.Supplied;
    hide MemBag.StartsAt;
    hide PhysmemPool.Valid;
    hide Pool.Live;
    hide Bag.Valid;
    hide Bag.SetUp;
    hide Find;
    hide FindsOwners;
    hide ReadPtr;
    hide AgreeOutside;
    var mem := new byte[64](_ => 0);
    var phys := new PhysmemPool(16, 32);
    var bag := new Bag(mem, Config(4, 2), phys);
    var membag := new MemBag(mem, [bag]);
    OneBagSupplied(membag, bag);
    membag.Init(2);
    OneBagFull(membag, bag);
    OneBagAccepts(membag, ptr);
    membag.Free(ptr);
    numFree, first := bag.numFree, bag.pool.freelist;
  }

  lemma OneBagSupplied(m: MemBag, bag: Bag)
    requires m.bags == [bag] && bag.Settings() == Config(4, 2) && bag.pool.mem == m.mem && m.mem.Length == 64
    requires bag.phys.Valid() && bag.phys.start == 16 && bag.phys.end == 32
    ensures m.Pools() == {bag.pool} && m.Physes() == {bag.phys}
    ensures m.Wired() && m.PhysesApart() && m.Supplied(2)
  {
    hide PhysmemPool.Valid;
    hide Obtainable;
    hide EndAfter;
    WordBlocksFit(16, 32, Config(4, 2));
  }

  lemma OneBagFull(m: MemBag, bag: Bag)
    requires m.bags == [bag] && m.Valid() && bag.SetUp(2) && bag.Settings() == Config(4, 2)
    requires m.StartsAt(0, 16, 32, 2)
    ensures m.Ranges() == [Range(24, 32)] && bag.numFree == 2
  {
    hide EndAfter;
    hide Bag.SetUp;
    hide Bag.Valid;
    WordBlocksFit(16, 32, Config(4, 2));
    assert m.EndBefore(0, bag.phys, 16, 32, 2) == 32;
    FullBag(m, bag);
  }

  lemma OneBagAccepts(m: MemBag, ptr: uint32)
    requires m.Ranges() == [Range(24, 32)] && 24 <= ptr <= 32
    ensures Find(m.Ranges(), ptr, 0) == 0
  {
    assert m.Ranges()[0].Accepts(ptr);
  }

  method TwoPools() returns (m: MemBag, first: Bag, second: Bag)
    ensures m.Valid() && m.bags == [first, second] && first != second && m.Pools() == {first.pool, second.pool}
    ensures m.Ranges() == [Range(16, 32), Range(32, 48)] && m.mem.Length == 64
    ensures fresh(first) && fresh(second) && fresh(first.pool) && fresh(second.pool) && fresh(m.mem)
    ensures first.blockSize == 4 && first.numFree == 4
    ensures second.blockSize == 8 && second.numFree == 2 && second.pool.free != [] && second.pool.free[0] == 32
  {
    hide MemBag.Valid;
    hide MemBag.Wired;
    hide MemBag.PhysesApart;
    hide MemBag.Supplied;
    hide MemBag.StartsAt;
    hide PhysmemPool.Valid;
    hide Pool.Live;
    hide Bag.Valid;
    hide Bag.SetUp;
    hide FindsOwners;
    var mem := new byte[64](_ => 0);
    var low := new PhysmemPool(16, 32);
    var high := new PhysmemPool(32, 48);
    first := new Bag(mem, Config(4, 4), low);
    second := new Bag(mem, Config(8, 2), high);
    m := new MemBag(mem, [first, second]);
    TwoPoolsSupplied(m, first, second);
    m.Init(2);
    TwoPoolsFull(m, first, second);
  }

  /** Two physical pools one right after the other: the first block of the upper one's bag
      starts where the lower one's bag ends, and goes to that bag when it is freed. */
  method BlockGoesToTheWrongBag() returns (ptr: uint32, lower: int, upper: int)
    ensures ptr == 32 && lower == 5 && upper == 1
  {
    hide MemBag.Valid;
    hide Pool.Live;
    hide Bag.Valid;
    hide Find;
    hide FindsOwners;
    hide FirstSuited;
    hide ReadPtr;
    hide AgreeOutside;
    var membag, first, second := TwoPools();
    assert membag.bags[0] == first && membag.bags[1] == second;
    ghost var bag;
    ptr, bag := membag.Alloc(8);
    assert bag == 1;
    LowerAccepts(membag.Ranges());
    membag.Free(ptr);
    lower, upper := first.numFree, second.numFree;
  }

  lemma TwoPoolsSupplied(m: MemBag, first: Bag, second: Bag)
    requires m.bags == [first, second] && first != second && first.pool != second.pool && first.phys != second.phys
    requires first.Settings() == Config(4, 4) && second.Settings() == Config(8, 2)
    requires first.pool.mem == second.pool.mem == m.mem && m.mem.Length == 64
    requires first.phys.Valid() && first.phys.start == first.phys.low == 16 && first.phys.end == first.phys.high == 32
    requires second.phys.Valid() && second.phys.start == second.phys.low == 32
    requires second.phys.end == second.phys.high == 48
    ensures m.Pools() == {first.pool, second.pool} && m.Physes() == {first.phys, second.phys}
    ensures m.Wired() && m.PhysesApart() && m.Supplied(2)
  {
    hide PhysmemPool.Valid;
    hide Obtainable;
    hide EndAfter;
    WordBlocksFit(16, 32, Config(4, 4));
    WordBlocksFit(32, 48, Config(8, 2));
    assert m.EndBefore(1, second.phys, 32, 48, 2) == m.EndBefore(0, second.phys, 32, 48, 2) == 48;
  }

  lemma TwoPoolsFull(m: MemBag, first: Bag, second: Bag)
    requires m.bags == [first, second] && first.phys != second.phys
    requires m.Valid() && first.SetUp(2) && second.SetUp(2)
    requires first.Settings() == Config(4, 4) && second.Settings() == Config(8, 2)
    requires m.StartsAt(0, 16, 32, 2) && m.StartsAt(1, 32, 48, 2)
    ensures m.Ranges() == [Range(16, 32), Range(32, 48)]
    ensures first.numFree == 4 && second.numFree == 2 && second.pool.free != [] && second.pool.free[0] == 32
  {
    hide EndAfter;
    hide Bag.SetUp;
    hide Bag.Valid;
    WordBlocksFit(16, 32, Config(4, 4));
    WordBlocksFit(32, 48, Config(8, 2));
    assert m.EndBefore(0, first.phys, 16, 32, 2) == 32;
    assert m.EndBefore(1, second.phys, 32, 48, 2) == m.EndBefore(0, second.phys, 32, 48, 2) == 48;
    FullBag(m, first);
    FullBag(m, second);
  }

  lemma LowerAccepts(rs: seq<Range>)
    requires rs == [Range(16, 32), Range(32, 48)]
    ensures Find(rs, 32, 0) == 0
  {
    assert rs[0].Accepts(32);
  }

  /** With the larger blocks configured first, a request that the smaller block would do for
      takes the larger one. */
  method LargerBlockIsTaken() returns (ptr: uint32, larger: int, smaller: int)
    ensures ptr == 24 && larger == 0 && smaller == 1
  {
    hide MemBag.Valid;
    hide MemBag.Wired;
    hide MemBag.PhysesApart;
    hide MemBag.Supplied;
    hide MemBag.StartsAt;
    hide PhysmemPool.Valid;
    hide Pool.Live;
    hide Bag.SetUp;
    hide Find;
    hide FindsOwners;
    hide FirstSuited;
    var mem := new byte[64](_ => 0);
    var phys := new PhysmemPool(16, 32);
    var first := new Bag(mem, Config(8, 1), phys);
    var second := new Bag(mem, Config(4, 1), phys);
    var membag := new MemBag(mem, [first, second]);
    TwoSizesSupplied(membag, first, second);
    membag.Init(2);
    TwoSizesFull(membag, first, second);
    ghost var bag;
    ptr, bag := membag.Alloc(4);
    assert bag == 0;
    larger, smaller := first.numFree, second.numFree;
  }

  lemma TwoSizesSupplied(m: MemBag, first: Bag, second: Bag)
    requires m.bags == [first, second] && first != second && first.pool != second.pool && first.phys == second.phys
    requires first.Settings() == Config(8, 1) && second.Settings() == Config(4, 1)
    requires first.pool.mem == second.pool.mem == m.mem && m.mem.Length == 64
    requires first.phys.Valid() && first.phys.start == 16 && first.phys.end == 32
    ensures m.Pools() == {first.pool, second.pool} && m.Physes() == {first.phys}
    ensures m.Wired() && m.PhysesApart() && m.Supplied(2)
  {
    hide PhysmemPool.Valid;
    hide Obtainable;
    hide EndAfter;
    WordBlocksFit(16, 32, Config(8, 1));
    WordBlocksFit(16, 24, Config(4, 1));
    var left := m.EndBefore(0, second.phys, 16, 32, 2);
    assert m.EndBefore(1, second.phys, 16, 32, 2) == EndAfter(16, left, Config(8, 1), 2);
  }

  lemma TwoSizesFull(m: MemBag, first: Bag, second: Bag)
    requires m.bags == [first, second] && first.phys == second.phys
    requires m.Valid() && first.SetUp(2) && second.SetUp(2)
    requires first.Settings() == Config(8, 1) && second.Settings() == Config(4, 1)
    requires m.StartsAt(0, 16, 32, 2)
    ensures first.numFree == 1 && second.numFree == 1 && |first.pool.free| == 1 && first.pool.free[0] == 24
  {
    hide EndAfter;
    hide Bag.SetUp;
    hide Bag.Valid;
    WordBlocksFit(16, 32, Config(8, 1));
    assert m.EndBefore(0, first.phys, 16, 32, 2) == 32;
    FullBag(m, first);
    FullBag(m, second);
  }
}
