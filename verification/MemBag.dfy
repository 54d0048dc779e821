/** A memory allocator made of bags: fixed-size pools of different object sizes, all carved
    from one physical pool. Allocation takes the first bag that fits and has an object left;
    freeing finds the bag by address. */
module MemBag {
  import opened Bits
  import opened Util
  import opened Physmem
  import opened MemPool

  /** The addresses of a bag's blocks. */
  datatype Range = Range(start: nat, end: nat)
  {
    predicate Holds(p: nat) { start <= p < end }

    /** The test the search makes; it takes the first address after the bag as well. */
    predicate Accepts(p: nat) { start <= p <= end }
  }

  /** The first range from `i` on that accepts `p`, or the number of ranges. */
  function Find(rs: seq<Range>, p: nat, i: nat): (k: nat)
    requires i <= |rs|
    ensures i <= k <= |rs| && (k < |rs| ==> rs[k].Accepts(p))
    ensures forall j | i <= j < k :: !rs[j].Accepts(p)
    decreases |rs| - i
  {
    if i == |rs| || rs[i].Accepts(p) then i else Find(rs, p, i + 1)
  }

  lemma FindStep(rs: seq<Range>, p: nat, i: nat)
    requires i < |rs|
    ensures Find(rs, p, i) == if rs[i].Accepts(p) then i else Find(rs, p, i + 1)
  {
  }

  lemma FindEnds(rs: seq<Range>, p: nat)
    ensures Find(rs, p, |rs|) == |rs|
  {
  }

  /** Non-empty ranges that do not overlap. */
  ghost predicate Apart(rs: seq<Range>)
  {
    && (forall i | 0 <= i < |rs| :: rs[i].start < rs[i].end)
    && forall i, j | 0 <= i < j < |rs| :: rs[i].end <= rs[j].start || rs[j].end <= rs[i].start
  }

  ghost predicate Descending(rs: seq<Range>)
  {
    forall i, j | 0 <= i < j < |rs| :: rs[j].end <= rs[i].start
  }

  /** Whether every address of every range is found to be in that range. */
  ghost predicate FindsOwners(rs: seq<Range>)
  {
    forall k, p: nat | 0 <= k < |rs| && rs[k].Holds(p) :: Find(rs, p, 0) == k
  }

  /** The search finds every owner exactly when no range ends where a later one begins. */
  lemma FindsOwnersIff(rs: seq<Range>)
    requires Apart(rs)
    ensures FindsOwners(rs) <==> forall i, k | 0 <= i < k < |rs| :: rs[i].end != rs[k].start
  {
    if i, k :| 0 <= i < k < |rs| && rs[i].end == rs[k].start {
      var p := rs[k].start;
      assert rs[k].Holds(p) && rs[i].Accepts(p) && Find(rs, p, 0) != k;
    } else {
      forall k, p: nat | 0 <= k < |rs| && rs[k].Holds(p)
        ensures Find(rs, p, 0) == k
      {
        assert rs[k].Accepts(p);
        var i := Find(rs, p, 0);
        assert rs[i].Accepts(p);
      }
    }
  }

  /** In descending order, which is how the bags are laid out, every owner is found. */
  lemma DescendingFindsOwners(rs: seq<Range>)
    requires Descending(rs)
    ensures FindsOwners(rs)
  {
    forall k, p: nat | 0 <= k < |rs| && rs[k].Holds(p)
      ensures Find(rs, p, 0) == k
    {
      assert rs[k].Accepts(p);
      var i := Find(rs, p, 0);
      assert rs[i].Accepts(p);
    }
  }

  /** An address in none of the ranges is taken for one exactly when it is the end of one:
      not every invalid address is ignored. */
  lemma ForeignAcceptedIff(rs: seq<Range>, p: nat)
    requires forall k | 0 <= k < |rs| :: rs[k].start <= rs[k].end && !rs[k].Holds(p)
    ensures Find(rs, p, 0) < |rs| <==> exists k :: 0 <= k < |rs| && p == rs[k].end
  {
    if k :| 0 <= k < |rs| && p == rs[k].end {
      assert rs[k].Accepts(p);
    } else {
      assert forall i | 0 <= i < |rs| :: !rs[i].Accepts(p);
    }
  }

  /** An address is ignored exactly if no range and no range's end is there: addresses inside a
      range that are no block are not ignored either. */
  lemma IgnoredIff(rs: seq<Range>, p: nat)
    ensures Find(rs, p, 0) == |rs| <==> forall k | 0 <= k < |rs| :: !rs[k].Accepts(p)
  {
  }

  lemma SlotAligned(l: Layout, a: nat)
    requires l.size > 0 && l.IsSlot(a)
    ensures l.base <= a < l.End() && (a - l.base) % l.size == 0
  {
    var k: nat :| k < l.count && a == l.Slot(k);
    DivModUnique(a - l.base, l.size, k, 0);
    SlotInside(l, a);
  }

  lemma AlignedSlot(l: Layout, a: nat)
    requires l.size > 0 && l.base <= a < l.End() && (a - l.base) % l.size == 0
    ensures l.IsSlot(a)
  {
    RemainderOf(a - l.base, l.size);
    var k := (a - l.base) / l.size;
    assert a == l.Slot(k);
    if l.count < k {
      SlotsApart(l, l.count, k);
    }
  }

  /** The blocks are only some of the addresses that are accepted. */
  lemma SlotIff(l: Layout, a: nat)
    requires l.size > 0
    ensures l.IsSlot(a) <==> l.base <= a < l.End() && (a - l.base) % l.size == 0
  {
    if l.IsSlot(a) {
      SlotAligned(l, a);
    } else if l.base <= a < l.End() && (a - l.base) % l.size == 0 {
      AlignedSlot(l, a);
    }
  }

  // ---- Smallest bag ----

  /** Whether a bag has a free block of at least `size` bytes. */
  predicate Suits(sizes: seq<nat>, free: seq<bool>, k: nat, size: nat)
    requires k < |sizes| == |free|
  {
    free[k] && size <= sizes[k]
  }

  ghost predicate FirstSuited(sizes: seq<nat>, free: seq<bool>, k: nat, size: nat)
    requires k < |sizes| == |free|
  {
    Suits(sizes, free, k, size) && forall i | 0 <= i < k :: !Suits(sizes, free, i, size)
  }

  ghost predicate Ascending(sizes: seq<nat>)
  {
    forall i, k | 0 <= i < k < |sizes| :: sizes[i] <= sizes[k]
  }

  /** Whatever blocks are free, the first bag that suits is a smallest one that does. */
  ghost predicate TakesSmallest(sizes: seq<nat>)
  {
    forall free: seq<bool>, size: nat, k: nat, m: nat
      | |free| == |sizes| && k < |sizes| && m < |sizes| ::
      FirstSuited(sizes, free, k, size) && Suits(sizes, free, m, size) ==> sizes[k] <= sizes[m]
  }

  /** The allocation takes the smallest suitable bag in every state exactly if the block sizes
      are configured in ascending order. */
  lemma TakesSmallestIff(sizes: seq<nat>)
    ensures TakesSmallest(sizes) <==> Ascending(sizes)
  {
    if TakesSmallest(sizes) {
      forall i, k | 0 <= i < k < |sizes|
        ensures sizes[i] <= sizes[k]
      {
        var free := seq(|sizes|, n => n == i || n == k);
        assert sizes[k] < sizes[i] ==> FirstSuited(sizes, free, i, sizes[k]) && Suits(sizes, free, k, sizes[k]);
      }
    }
  }

  // ---- Bags ----

  datatype Config = Config(blockSize: uint32, numBlocks: uint32)

  /** Where the end of a physical pool is after it has supplied `count` blocks. */
  ghost function EndAfter(start: uint32, end: uint32, config: Config, order: nat): uint32
  {
    hide RoundUp; hide TopAddress;
    if Obtainable(start, end, config.numBlocks, config.blockSize, order)
    then TopAddress(end, config.numBlocks * RoundUp(config.blockSize, order), order)
    else end
  }

  class Bag {
    const blockSize: uint32
    const numBlocks: uint32
    const phys: PhysmemPool
    const pool: Pool
    var start: uint32
    var end: uint32
    var numFree: int

    constructor (mem: array<byte>, config: Config, phys: PhysmemPool)
      ensures pool.mem == mem && Settings() == config && this.phys == phys
      ensures fresh(pool) && Bounds() == Range(0, 0) && numFree == 0
    {
      blockSize, numBlocks, start, end, numFree := config.blockSize, config.numBlocks, 0, 0, 0;
      this.phys := phys;
      pool := new Pool(mem);
    }

    ghost function Settings(): Config { Config(blockSize, numBlocks) }

    ghost predicate Valid()
      reads this, pool, pool.mem
    {
      pool.Valid() && Counted()
    }

    /** The bounds and the count of free blocks are those of the pool. */
    ghost predicate Counted()
      reads this, pool
    {
      && start == pool.layout.base && end == pool.layout.End()
      && pool.layout.count == numBlocks && pool.layout.size >= blockSize
      && numFree == |pool.free|
    }

    ghost predicate Ready(m: seq<byte>, order: nat)
      requires order < 32
      reads this, pool
    {
      pool.ValidIn(m) && Counted() && SetUp(order)
    }

    /** All blocks are free, aligned, and as large as asked for. */
    ghost predicate SetUp(order: nat)
      requires order < 32
      reads pool
    {
      && pool.free == AllSlots(pool.layout)
      && pool.layout.size == RoundUp(blockSize, order) && pool.layout.base % Pow2(order) == 0
    }

    method InitPhysmem(order: nat)
      requires phys.Valid() && phys.end <= pool.mem.Length <= WORD
      requires Obtainable(phys.start, phys.end, numBlocks, blockSize, order)
      modifies this, pool, pool.mem, phys
      ensures Valid() && phys.Valid() && SetUp(order)
      ensures phys.start == old(phys.start) && phys.low <= phys.end == start <= end <= old(phys.end) <= phys.high
      ensures phys.end == EndAfter(old(phys.start), old(phys.end), Settings(), order)
      ensures AgreeOutside(old(pool.mem[..]), pool.mem[..], start, end - start)
    {
      hide Chain;
      hide RoundUp;
      hide TopAddress;
      hide AgreeOutside;
      ObtainedCarves(phys.start, phys.end, numBlocks, blockSize, order);
      RoundUpBounds(blockSize, order);
      var size := RoundUp(blockSize, order);
      var poolSize := numBlocks * size;
      TopFits(phys.end, poolSize, order);
      var poolAddr := phys.Alloc(poolSize, order);
      pool.Init(poolAddr, poolSize, blockSize, order);
      start := poolAddr;
      end := poolAddr + poolSize;
      numFree := numBlocks;
    }

    /** Takes a block of this bag, if there is one, and counts it. */
    method Take() returns (ptr: uint32)
      requires Valid()
      modifies this`numFree, pool
      ensures Valid() && Bounds() == old(Bounds()) && pool.layout == old(pool.layout)
      ensures if old(pool.free) == [] then ptr == NULL && unchanged(this) && unchanged(pool)
              else ptr != NULL && old(pool.free) == [ptr] + pool.free
      ensures ptr != NULL ==> ptr !in old(pool.Live()) && pool.Live() == old(pool.Live()) + {ptr}
      ensures ptr != NULL ==> numFree == old(numFree) - 1
    {
      hide Pool.ValidIn;
      hide Pool.Live;
      ptr := pool.Alloc();
      if ptr != NULL {
        numFree := numFree - 1;
      }
    }

    /** Puts a block on the bag's list and counts it. */
    method GiveBack(ptr: uint32)
      requires ptr != NULL && ptr + PTR_SIZE <= pool.mem.Length
      modifies this`numFree, pool`freelist, pool`free, pool.mem
      ensures numFree == old(numFree) + 1 && pool.freelist == ptr && pool.free == [ptr] + old(pool.free)
      ensures ReadPtr(pool.mem[..], ptr) == old(pool.freelist)
      ensures AgreeOutside(old(pool.mem[..]), pool.mem[..], ptr, PTR_SIZE)
      ensures old(Valid()) && ptr in old(pool.Live()) ==> Valid() && pool.Live() == old(pool.Live()) - {ptr}
    {
      hide Pool.ValidIn;
      hide Pool.Live;
      pool.Free(ptr);
      numFree := numFree + 1;
    }

    /** Changes outside of the bag's blocks do not concern it. */
    lemma KeptElsewhere(m: seq<byte>, a: nat, size: nat)
      requires pool.ValidIn(m) && Counted() && AgreeOutside(m, pool.mem[..], a, size)
      requires a + size <= start || end <= a
      ensures Valid()
    {
      hide Pool.ValidIn;
      hide Layout.End;
      pool.KeptElsewhere(m, pool.mem[..], a, size);
    }

    lemma ReadyElsewhere(m: seq<byte>, m': seq<byte>, a: nat, size: nat, order: nat)
      requires order < 32 && Ready(m, order) && AgreeOutside(m, m', a, size)
      requires a + size <= start || end <= a
      ensures Ready(m', order)
    {
      hide Pool.ValidIn;
      hide Layout.End;
      pool.KeptElsewhere(m, m', a, size);
    }

    function Bounds(): Range
      reads this
    {
      Range(start, end)
    }
  }

  lemma RoundUpBounds(x: uint32, order: nat)
    requires order < 32 && x + Pow2(order) <= WORD
    ensures x <= RoundUp(x, order)
  {
  }

  lemma SizesAdd(size: nat, f: nat, l: nat)
    ensures size * f + size * l == size * (f + l)
  {
  }

  class MemBag {
    const mem: array<byte>
    const bags: seq<Bag>

    constructor (mem: array<byte>, bags: seq<Bag>)
      ensures this.mem == mem && this.bags == bags
    {
      this.mem, this.bags := mem, bags;
    }

    ghost function Pools(): set<Pool>
    {
      set b | b in bags :: b.pool
    }

    /** All bags use the same memory, and each has a pool of its own. */
    ghost predicate Wired()
    {
      && (forall i | 0 <= i < |bags| :: bags[i].pool.mem == mem)
      && forall i, j | 0 <= i < j < |bags| :: bags[i] != bags[j] && bags[i].pool != bags[j].pool
    }

    ghost predicate Valid()
      reads bags, Pools(), mem
    {
      && Wired()
      && (forall i | 0 <= i < |bags| :: bags[i].Valid())
      && forall i, j | 0 <= i < j < |bags| :: bags[j].end <= bags[i].start || bags[i].end <= bags[j].start
    }

    ghost function Physes(): set<PhysmemPool>
    {
      set b | b in bags :: b.phys
    }

    /** Different physical pools lie apart. */
    ghost predicate PhysesApart()
    {
      forall i, j | 0 <= i < |bags| && 0 <= j < |bags| && bags[i].phys != bags[j].phys ::
        bags[i].phys.high <= bags[j].phys.low || bags[j].phys.high <= bags[i].phys.low
    }

    /** Where the end of a physical pool that reaches from `start` to `end` is once the first
        `i` bags have their memory. */
    ghost function EndBefore(i: nat, p: PhysmemPool, start: uint32, end: uint32, order: nat): uint32
      requires i <= |bags|
    {
      if i == 0 then end
      else if bags[i - 1].phys != p then EndBefore(i - 1, p, start, end, order)
      else EndAfter(start, EndBefore(i - 1, p, start, end, order), bags[i - 1].Settings(), order)
    }

    ghost predicate Supplying(k: nat)
      requires k < |bags|
      reads bags[k].phys
    {
      bags[k].phys.Valid() && bags[k].phys.end <= mem.Length
    }

    /** What the bags before leave of the physical pool is enough for bag `k`. */
    ghost predicate SuppliedAt(k: nat, start: uint32, end: uint32, order: nat)
      requires k < |bags|
    {
      var left := EndBefore(k, bags[k].phys, start, end, order);
      Obtainable(start, left, bags[k].numBlocks, bags[k].blockSize, order)
    }

    /** The physical pools have memory for all bags. */
    ghost predicate Supplied(order: nat)
      reads Physes()
    {
      forall i | 0 <= i < |bags| :: Supplying(i) && SuppliedAt(i, bags[i].phys.start, bags[i].phys.end, order)
    }

    ghost function Ranges(): seq<Range>
      reads bags
    {
      seq(|bags|, i requires 0 <= i < |bags| reads bags => bags[i].Bounds())
    }

    /** A block somebody holds lies inside its bag. */
    lemma InsideBag(b: nat, ptr: nat)
      requires Valid() && b < |bags| && ptr in bags[b].pool.Live()
      ensures ptr != NULL && bags[b].pool.layout.size >= PTR_SIZE
      ensures bags[b].start <= ptr && ptr + bags[b].pool.layout.size <= bags[b].end
    {
      hide Chain;
      hide Distinct;
      hide Layout.Slots;
      hide Layout.IsSlot;
      IsInSlots(bags[b].pool.layout, ptr);
      SlotInside(bags[b].pool.layout, ptr);
    }

    /** The other bags lie elsewhere. */
    lemma OtherBags(b: nat, ptr: nat)
      requires Valid() && b < |bags| && ptr in bags[b].pool.Live()
      ensures ptr != NULL && bags[b].pool.layout.size >= PTR_SIZE
      ensures forall k | 0 <= k < |bags| && k != b ::
        && bags[k].pool.ValidIn(mem[..]) && bags[k].Counted()
        && (ptr + bags[b].pool.layout.size <= bags[k].start || bags[k].end <= ptr)
    {
      hide Pool.ValidIn;
      hide Pool.Live;
      hide Layout.End;
      InsideBag(b, ptr);
      forall k | 0 <= k < |bags| && k != b
        ensures bags[k].pool.ValidIn(mem[..]) && bags[k].Counted()
        ensures ptr + bags[b].pool.layout.size <= bags[k].start || bags[k].end <= ptr
      {
        assert bags[k].Valid() && bags[b].Valid();
        assert bags[k].end <= bags[b].start || bags[b].end <= bags[k].start;
      }
    }

    /** The search by address finds the bag that issued a block, and no other, if the bags are
        laid out so that it can. */
    lemma Owners(ptr: nat)
      requires Valid() && FindsOwners(Ranges())
      ensures forall b | 0 <= b < |bags| && ptr in bags[b].pool.Live() :: Find(Ranges(), ptr, 0) == b
    {
      hide Pool.ValidIn;
      hide Pool.Live;
      forall b | 0 <= b < |bags| && ptr in bags[b].pool.Live()
        ensures Find(Ranges(), ptr, 0) == b
      {
        InsideBag(b, ptr);
        assert Ranges()[b].Holds(ptr);
      }
    }

    /** Sets up all bags. Those of one physical pool get descending addresses, so that the
        search by address finds every owner if there is only one such pool. */
    method Init(order: nat)
      requires order < 32 && Wired() && mem.Length <= WORD && PhysesApart() && Supplied(order)
      modifies bags, Pools(), mem, Physes()
      ensures Valid() && forall i | 0 <= i < |bags| :: bags[i].SetUp(order) && bags[i].phys.Valid()
      ensures forall k | 0 <= k < |bags| :: StartsAt(k, old(bags[k].phys.start), old(bags[k].phys.end), order)
      ensures forall j, k | 0 <= j < k < |bags| && bags[j].phys == bags[k].phys :: bags[k].end <= bags[j].start
      ensures (forall b | b in bags :: b.phys == bags[0].phys) ==> FindsOwners(Ranges())
    {
      hide Bag.Ready;
      hide PhysmemPool.Valid;
      hide SuppliedAt;
      hide LeftAfter;
      hide StartsAt;
      hide EndBefore;
      hide PhysesApart;
      hide Wired;
      hide MemBag.Valid;
      hide Placed;
      hide PlacedApart;
      hide FindsOwners;
      hide InitDone;
      ghost var starts := map p | p in Physes() :: p.start;
      ghost var ends := map p | p in Physes() :: p.end;
      NoneDone(starts, ends, order);
      for i := 0 to |bags|
        invariant InitDone(i, starts, ends, order)
      {
        InitStep(i, starts, ends, order);
      }
      AllSetUp(starts, ends, order);
    }

    /** The first `i` bags are set up, with memory from physical pools that had these bounds. */
    ghost predicate InitDone(i: nat, starts: map<PhysmemPool, uint32>, ends: map<PhysmemPool, uint32>, order: nat)
      requires i <= |bags| && order < 32
      reads bags, Pools(), mem, Physes()
    {
      && starts.Keys == ends.Keys == Physes()
      && (forall k | 0 <= k < |bags| ::
            && Supplying(k) && bags[k].phys.start == starts[bags[k].phys]
            && LeftAfter(i, bags[k].phys, ends[bags[k].phys], order))
      && (forall k | 0 <= k < i ::
            && bags[k].Ready(mem[..], order) && Placed(k)
            && StartsAt(k, starts[bags[k].phys], ends[bags[k].phys], order))
      && forall j, k | 0 <= j < k < i :: PlacedApart(j, k)
    }

    lemma NoneDone(starts: map<PhysmemPool, uint32>, ends: map<PhysmemPool, uint32>, order: nat)
      requires order < 32 && Supplied(order) && starts.Keys == ends.Keys == Physes()
      requires forall p | p in Physes() :: starts[p] == p.start && ends[p] == p.end
      ensures InitDone(0, starts, ends, order)
    {
      hide PhysmemPool.Valid;
      hide SuppliedAt;
    }

    method InitStep(i: nat, ghost starts: map<PhysmemPool, uint32>, ghost ends: map<PhysmemPool, uint32>, order: nat)
      requires i < |bags| && order < 32 && Wired() && mem.Length <= WORD && PhysesApart()
      requires InitDone(i, starts, ends, order)
      requires SuppliedAt(i, starts[bags[i].phys], ends[bags[i].phys], order)
      modifies bags, Pools(), mem, Physes()
      ensures InitDone(i + 1, starts, ends, order)
    {
      hide Bag.Ready;
      hide PhysmemPool.Valid;
      hide SuppliedAt;
      hide LeftAfter;
      hide StartsAt;
      hide PhysesApart;
      hide Wired;
      hide Placed;
      hide PlacedApart;
      InitNext(i, order, ends[bags[i].phys]);
      forall k | 0 <= k < |bags|
        ensures LeftAfter(i + 1, bags[k].phys, ends[bags[k].phys], order)
      {
        LeftForOthers(i, bags[k].phys, ends[bags[k].phys], order);
      }
    }

    /** Sets up one more bag. */
    method InitNext(i: nat, order: nat, ghost end: uint32)
      requires i < |bags| && order < 32 && Wired() && mem.Length <= WORD && PhysesApart() && Supplying(i)
      requires SuppliedAt(i, bags[i].phys.start, end, order) && LeftAfter(i, bags[i].phys, end, order)
      requires forall k | 0 <= k < i :: bags[k].Ready(mem[..], order) && Placed(k)
      modifies bags[i], bags[i].pool, mem, bags[i].phys
      ensures Supplying(i) && bags[i].phys.start == old(bags[i].phys.start)
      ensures LeftAfter(i + 1, bags[i].phys, end, order) && StartsAt(i, bags[i].phys.start, end, order)
      ensures forall k | 0 <= k <= i :: bags[k].Ready(mem[..], order) && Placed(k)
      ensures forall k | 0 <= k < i :: PlacedApart(k, i) && unchanged(bags[k])
    {
      hide Pool.ValidIn;
      hide Bag.Counted;
      hide PhysmemPool.Valid;
      hide Obtainable;
      hide EndAfter;
      hide Bag.SetUp;
      hide AgreeOutside;
      ghost var before := mem[..];
      bags[i].InitPhysmem(order);
      forall k | 0 <= k < i
        ensures bags[k].Ready(mem[..], order) && Placed(k) && PlacedApart(k, i)
      {
        bags[k].ReadyElsewhere(before, mem[..], bags[i].start, bags[i].end - bags[i].start, order);
      }
    }

    /** The other physical pools still have what they had. */
    lemma LeftForOthers(i: nat, p: PhysmemPool, end: uint32, order: nat)
      requires i < |bags|
      ensures LeftAfter(i, p, end, order) && p != bags[i].phys ==> LeftAfter(i + 1, p, end, order)
    {
    }

    lemma AllSetUp(starts: map<PhysmemPool, uint32>, ends: map<PhysmemPool, uint32>, order: nat)
      requires order < 32 && Wired() && InitDone(|bags|, starts, ends, order)
      ensures forall k | 0 <= k < |bags| :: StartsAt(k, starts[bags[k].phys], ends[bags[k].phys], order)
      ensures Valid() && forall i | 0 <= i < |bags| :: bags[i].SetUp(order) && bags[i].phys.Valid()
      ensures forall j, k | 0 <= j < k < |bags| && bags[j].phys == bags[k].phys :: bags[k].end <= bags[j].start
      ensures (forall b | b in bags :: b.phys == bags[0].phys) ==> FindsOwners(Ranges())
    {
      hide Pool.ValidIn;
      hide Bag.Counted;
      hide PhysmemPool.Valid;
      hide Bag.SetUp;
      hide FindsOwners;
      hide StartsAt;
      hide LeftAfter;
      hide Placed;
      forall j, k | 0 <= j < k < |bags|
        ensures bags[k].end <= bags[j].start || bags[j].end <= bags[k].start
        ensures bags[j].phys == bags[k].phys ==> bags[k].end <= bags[j].start
      {
        assert PlacedApart(j, k);
      }
      if forall b | b in bags :: b.phys == bags[0].phys {
        DescendingFindsOwners(Ranges());
      }
    }

    /** Bag `k` starts where its physical pool ended after it had supplied the bag. */
    ghost predicate StartsAt(k: nat, start: uint32, end: uint32, order: nat)
      requires k < |bags|
      reads bags[k]
    {
      bags[k].start == EndBefore(k + 1, bags[k].phys, start, end, order)
    }

    /** What a physical pool has left once the first `i` bags have their memory. */
    ghost predicate LeftAfter(i: nat, p: PhysmemPool, end: uint32, order: nat)
      requires i <= |bags|
      reads p
    {
      p.end == EndBefore(i, p, p.start, end, order)
    }

    /** A bag's blocks come from its physical pool. */
    ghost predicate Placed(k: nat)
      requires k < |bags|
      reads bags[k], bags[k].phys
    {
      && bags[k].phys.low <= bags[k].start && bags[k].phys.end <= bags[k].start
      && bags[k].start <= bags[k].end <= bags[k].phys.high
    }

    ghost predicate PlacedApart(j: nat, k: nat)
      requires j < |bags| && k < |bags|
      reads bags[j], bags[k]
    {
      && (bags[k].end <= bags[j].start || bags[j].end <= bags[k].start)
      && (bags[j].phys == bags[k].phys ==> bags[k].end <= bags[j].start)
    }

    ghost function BlockSizes(): (sizes: seq<nat>)
      ensures |sizes| == |bags|
    {
      seq(|bags|, i requires 0 <= i < |bags| => bags[i].blockSize)
    }

    /** Which bags have free blocks. */
    ghost function Available(): (free: seq<bool>)
      reads bags, Pools()
      ensures |free| == |bags|
    {
      seq(|bags|, i requires 0 <= i < |bags| reads bags, Pools() => bags[i].pool.free != [])
    }

    /** Takes a block of the first bag, `bag`, whose blocks are large enough and that has one
        left. There is no such bag exactly when the result is NULL. */
    method Alloc(size: uint32) returns (ptr: uint32, ghost bag: nat)
      requires Valid()
      modifies bags, Pools()
      ensures Valid() && bag <= |bags| && (ptr == NULL <==> bag == |bags|)
      ensures Ranges() == old(Ranges()) && forall i | 0 <= i < |bags| :: bags[i].pool.layout == old(bags[i].pool.layout)
      ensures forall i | 0 <= i < bag && size <= bags[i].blockSize :: old(bags[i].pool.free) == []
      ensures bag < |bags| ==>
        && size <= bags[bag].blockSize
        && old(bags[bag].pool.free) == [ptr] + bags[bag].pool.free && bags[bag].numFree == old(bags[bag].numFree) - 1
        && bags[bag].pool.Live() == old(bags[bag].pool.Live()) + {ptr} && ptr !in old(bags[bag].pool.Live())
      ensures forall i | 0 <= i < |bags| && i != bag :: unchanged(bags[i]) && unchanged(bags[i].pool)
      ensures bag < |bags| ==> FirstSuited(BlockSizes(), old(Available()), bag, size)
    {
      hide MemBag.Valid;
      hide Pool.Live;
      ValidIsWired();
      ptr := NULL;
      bag := |bags|;
      var i := 0;
      while i < |bags|
        invariant 0 <= i <= |bags| && ptr == NULL && bag == |bags| && Valid() && Wired()
        invariant forall k | 0 <= k < i && size <= bags[k].blockSize :: old(bags[k].pool.free) == []
        invariant forall k | 0 <= k < |bags| :: unchanged(bags[k]) && unchanged(bags[k].pool)
      {
        if bags[i].blockSize < size {
          i := i + 1;
          continue;
        }
        ptr := TakeFrom(i);
        if ptr == NULL {
          i := i + 1;
          continue;
        }
        bag := i;
        break;
      }
    }

    /** Takes a block of bag `b`, if it has one left. */
    method TakeFrom(b: nat) returns (ptr: uint32)
      requires Valid() && b < |bags|
      modifies bags[b], bags[b].pool
      ensures Valid() && bags[b].Bounds() == old(bags[b].Bounds()) && bags[b].pool.layout == old(bags[b].pool.layout)
      ensures if old(bags[b].pool.free) == [] then ptr == NULL && unchanged(bags[b]) && unchanged(bags[b].pool)
              else ptr != NULL && old(bags[b].pool.free) == [ptr] + bags[b].pool.free
      ensures ptr != NULL ==>
        && ptr !in old(bags[b].pool.Live()) && bags[b].pool.Live() == old(bags[b].pool.Live()) + {ptr}
        && bags[b].numFree == old(bags[b].numFree) - 1
    {
      hide Bag.Valid;
      hide Pool.Live;
      ptr := bags[b].Take();
    }

    lemma ValidIsWired()
      requires Valid()
      ensures Wired()
    {
    }

    /** Puts a block on the list of the first bag that accepts its address; addresses that no
        bag accepts are ignored. If the search finds all owners, a block that was handed out
        goes back to the bag it came from. */
    method Free(ptr: uint32)
      requires Valid() && (Find(Ranges(), ptr, 0) < |bags| ==> ptr + PTR_SIZE <= mem.Length)
      modifies bags, Pools(), mem
      ensures var k := Find(old(Ranges()), ptr, 0);
        && (forall i | 0 <= i < |bags| && i != k :: unchanged(bags[i]) && unchanged(bags[i].pool))
        && if k == |bags| then mem[..] == old(mem[..])
           else
             && bags[k].numFree == old(bags[k].numFree) + 1
             && bags[k].pool.freelist == ptr && bags[k].pool.free == [ptr] + old(bags[k].pool.free)
             && bags[k].pool.layout == old(bags[k].pool.layout) && Ranges() == old(Ranges())
             && ReadPtr(mem[..], ptr) == old(bags[k].pool.freelist)
             && AgreeOutside(old(mem[..]), mem[..], ptr, PTR_SIZE)
      ensures var k := Find(old(Ranges()), ptr, 0);
        k == |bags| || ptr in old(bags[k].pool.Live()) ==>
          Valid() && (k < |bags| ==> bags[k].pool.Live() == old(bags[k].pool.Live()) - {ptr})
      ensures old(FindsOwners(Ranges())) ==>
        forall b | 0 <= b < |bags| && ptr in old(bags[b].pool.Live()) :: b == Find(old(Ranges()), ptr, 0)
    {
      hide Pool.ValidIn;
      hide Pool.Live;
      hide Bag.Valid;
      hide Bag.Counted;
      hide Find;
      hide FindsOwners;
      hide AgreeOutside;
      hide Layout.End;
      if FindsOwners(Ranges()) {
        Owners(ptr);
      }
      ghost var ranges := Ranges();
      var i := 0;
      while i < |bags|
        invariant 0 <= i <= |bags| && Ranges() == ranges
        invariant Find(ranges, ptr, i) == Find(ranges, ptr, 0)
        invariant unchanged(mem) && forall k | 0 <= k < |bags| :: unchanged(bags[k]) && unchanged(bags[k].pool)
      {
        FindStep(ranges, ptr, i);
        if bags[i].start <= ptr && ptr <= bags[i].end {
          assert mem[..] == old(mem[..]);
          FreeIn(i, ptr);
          return;
        }
        i := i + 1;
      }
      FindEnds(ranges, ptr);
    }

    /** Puts a block on the list of bag `b`. */
    method FreeIn(b: nat, ptr: uint32)
      requires Valid() && b < |bags| && bags[b].start <= ptr && ptr + PTR_SIZE <= mem.Length
      modifies bags[b], bags[b].pool, mem
      ensures bags[b].numFree == old(bags[b].numFree) + 1 && bags[b].Bounds() == old(bags[b].Bounds())
      ensures bags[b].pool.freelist == ptr && bags[b].pool.free == [ptr] + old(bags[b].pool.free)
      ensures bags[b].pool.layout == old(bags[b].pool.layout)
      ensures ReadPtr(mem[..], ptr) == old(bags[b].pool.freelist)
      ensures AgreeOutside(old(mem[..]), mem[..], ptr, PTR_SIZE)
      ensures ptr in old(bags[b].pool.Live()) ==> Valid() && bags[b].pool.Live() == old(bags[b].pool.Live()) - {ptr}
    {
      hide Pool.ValidIn;
      hide Pool.Live;
      hide Bag.Valid;
      hide Bag.Counted;
      hide AgreeOutside;
      hide Layout.End;
      StartNotNull(b);
      ghost var before := mem[..];
      ghost var live := ptr in bags[b].pool.Live();
      if live {
        OtherBags(b, ptr);
      }
      bags[b].GiveBack(ptr);
      if live {
        forall k | 0 <= k < |bags| && k != b
          ensures bags[k].Valid()
        {
          bags[k].KeptElsewhere(before, ptr, PTR_SIZE);
        }
      }
    }

    lemma StartNotNull(k: nat)
      requires Valid() && k < |bags|
      ensures bags[k].start != NULL
    {
      hide Chain;
      hide Layout.End;
    }

    /** A client stores a byte in a block it holds. */
    method ClientWrite(ghost b: nat, ptr: nat, offset: nat, value: byte)
      requires Valid() && b < |bags| && ptr in bags[b].pool.Live()
      requires offset < bags[b].pool.layout.size && ptr + offset < mem.Length
      modifies mem
      ensures Valid() && mem[..] == old(mem[..])[ptr + offset := value]
    {
      hide Bag.Counted;
      hide Pool.ValidIn;
      hide Pool.Live;
      ghost var before := mem[..];
      OthersKept(b, ptr, offset, value);
      bags[b].pool.KeptInLive(before, ptr, offset, value);
      mem[ptr + offset] := value;
      assert mem[..] == before[ptr + offset := value];
    }

    lemma OthersKept(b: nat, ptr: nat, offset: nat, value: byte)
      requires Valid() && b < |bags| && ptr in bags[b].pool.Live()
      requires offset < bags[b].pool.layout.size && ptr + offset < mem.Length
      ensures forall k | 0 <= k < |bags| && k != b :: bags[k].pool.ValidIn(mem[..][ptr + offset := value])
    {
      hide Pool.ValidIn;
      hide Pool.Live;
      hide Layout.End;
      OtherBags(b, ptr);
      forall k | 0 <= k < |bags| && k != b
        ensures bags[k].pool.ValidIn(mem[..][ptr + offset := value])
      {
        bags[k].pool.KeptElsewhere(mem[..], mem[..][ptr + offset := value], ptr, bags[b].pool.layout.size);
      }
    }

    // ---- Runs ----

    /** What each bag has handed out. */
    ghost function Lives(): (lives: seq<set<nat>>)
      reads bags, Pools()
      ensures |lives| == |bags| && forall b | 0 <= b < |bags| :: lives[b] == bags[b].pool.Live()
    {
      seq(|bags|, b requires 0 <= b < |bags| reads bags, Pools() => bags[b].pool.Live())
    }

    /** What an allocation did is undone by giving the block back. */
    method AllocAndFree(size: uint32)
      requires Valid() && FindsOwners(Ranges())
      modifies bags, Pools(), mem
      ensures Valid() && Ranges() == old(Ranges())
      ensures forall b | 0 <= b < |bags| ::
        bags[b].pool.free == old(bags[b].pool.free) && bags[b].numFree == old(bags[b].numFree)
    {
      hide MemBag.Valid;
      hide Pool.Live;
      hide Find;
      hide FindsOwners;
      hide FirstSuited;
      hide AgreeOutside;
      hide ReadPtr;
      ghost var bag;
      var ptr;
      ptr, bag := Alloc(size);
      if ptr != NULL {
        Owners(ptr);
        InsideMemory(bag, ptr);
        Free(ptr);
      }
    }

    /** The free lists of all bags. */
    ghost function Frees(): (free: seq<seq<nat>>)
      reads bags, Pools()
      ensures |free| == |bags| && forall b | 0 <= b < |bags| :: free[b] == bags[b].pool.free
    {
      seq(|bags|, b requires 0 <= b < |bags| reads bags, Pools() => bags[b].pool.free)
    }

    /** Different blocks that are handed out do not overlap. */
    lemma BlocksApart(b: nat, p: nat, c: nat, q: nat)
      requires Valid() && b < |bags| && c < |bags| && p != q
      requires p in bags[b].pool.Live() && q in bags[c].pool.Live()
      ensures p + bags[b].pool.layout.size <= q || q + bags[c].pool.layout.size <= p
    {
      hide Chain;
      hide Distinct;
      hide Layout.Slots;
      hide Layout.IsSlot;
      hide Layout.End;
      if b == c {
        IsInSlots(bags[b].pool.layout, p);
        IsInSlots(bags[b].pool.layout, q);
        DistinctSlotsApart(bags[b].pool.layout, p, q);
      } else {
        InsideBag(b, p);
        InsideBag(c, q);
      }
    }

    lemma InsideMemory(b: nat, ptr: nat)
      requires Valid() && b < |bags| && ptr in bags[b].pool.Live()
      ensures ptr + PTR_SIZE <= mem.Length && ptr + bags[b].pool.layout.size <= mem.Length <= WORD
      ensures bags[b].blockSize <= bags[b].pool.layout.size
    {
      hide Chain;
      hide Pool.Live;
      hide Layout.End;
      InsideBag(b, ptr);
    }

    /** The bytes in free blocks. */
    method GetFree() returns (free: nat)
      requires Valid()
      ensures free == FreeBytes(|bags|)
    {
      free := 0;
      var i := 0;
      while i < |bags|
        invariant 0 <= i <= |bags| && free == FreeBytes(i)
      {
        free := free + bags[i].blockSize * bags[i].numFree;
        i := i + 1;
      }
    }

    ghost function FreeBytes(n: nat): nat
      requires n <= |bags|
      reads bags, Pools()
    {
      if n == 0 then 0 else FreeBytes(n - 1) + bags[n - 1].blockSize * |bags[n - 1].pool.free|
    }

    ghost function LiveBytes(n: nat): nat
      requires n <= |bags|
      reads bags, Pools()
    {
      if n == 0 then 0 else LiveBytes(n - 1) + bags[n - 1].blockSize * |bags[n - 1].pool.Live()|
    }

    ghost function TotalBytes(n: nat): nat
      requires n <= |bags|
    {
      if n == 0 then 0 else TotalBytes(n - 1) + bags[n - 1].blockSize * bags[n - 1].numBlocks
    }

    /** No block is ever lost or made up: what is free and what is handed out is all there is. */
    lemma {:induction false} BytesConserved(n: nat)
      requires Valid() && n <= |bags|
      ensures FreeBytes(n) + LiveBytes(n) == TotalBytes(n)
    {
      hide Pool.ValidIn;
      hide Pool.Live;
      hide Layout.End;
      if n > 0 {
        BytesConserved(n - 1);
        bags[n - 1].pool.Accounted();
        var b := bags[n - 1];
        SizesAdd(b.blockSize, |b.pool.free|, |b.pool.Live()|);
      }
    }
  }
}
