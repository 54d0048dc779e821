/** Any run of a client that takes blocks, gives them back and stores bytes in them: a model of
    what each call does, the proof that the allocator does exactly that, and what follows. */
module BagRuns {
  import opened Util
  import opened Physmem
  import opened MemPool
  import opened MemBag

  /** What a client does: take a block, give back the `k`-th one it holds, or store a byte in it. */
  datatype Call = Alloc(size: uint32) | Free(k: nat) | Store(k: nat, offset: nat, value: byte)

  /** A block a client holds, with the size it asked for. */
  datatype Block = Block(ptr: nat, size: nat)

  /** The free lists of the bags, the blocks held, which bag issued them, and the bytes stored in
      them. */
  datatype Heap = Heap(free: seq<seq<nat>>, held: seq<Block>, owner: map<nat, nat>, data: map<nat, byte>)

  // ---- The model ----

  /** The first bag from `i` on with large enough blocks of which one is free. */
  ghost function FirstFit(free: seq<seq<nat>>, sizes: seq<nat>, size: nat, i: nat): (k: nat)
    requires |sizes| == |free| && i <= |free|
    ensures i <= k <= |free| && (k < |free| ==> size <= sizes[k] && free[k] != [])
    ensures forall j | i <= j < k :: sizes[j] < size || free[j] == []
    decreases |free| - i
  {
    if i == |free| || (size <= sizes[i] && free[i] != []) then i else FirstFit(free, sizes, size, i + 1)
  }

  ghost function WithBlock(h: Heap, sizes: seq<nat>, size: uint32): Heap
    requires |sizes| == |h.free|
  {
    var k := FirstFit(h.free, sizes, size, 0);
    if k == |h.free| then h
    else
      Heap(h.free[k := h.free[k][1..]], h.held + [Block(h.free[k][0], size)], h.owner[h.free[k][0] := k], h.data)
  }

  /** Giving back puts a block in front of the free list of the bag that issued it, and what was
      stored in it is lost. */
  ghost function WithoutBlock(h: Heap, k: nat): Heap
    requires k < |h.held|
  {
    var b := h.held[k];
    if b.ptr !in h.owner || h.owner[b.ptr] >= |h.free| then h
    else
      var bag := h.owner[b.ptr];
      Heap(h.free[bag := [b.ptr] + h.free[bag]], h.held[..k] + h.held[k + 1..], h.owner - {b.ptr},
           Rest(h.data, b))
  }

  ghost function Rest(data: map<nat, byte>, b: Block): map<nat, byte>
  {
    map a | a in data && !(b.ptr <= a < b.ptr + b.size) :: data[a]
  }

  ghost function After(h: Heap, sizes: seq<nat>, c: Call): (h': Heap)
    requires |sizes| == |h.free|
    ensures |h'.free| == |h.free|
  {
    match c
    case Alloc(size) => WithBlock(h, sizes, size)
    case Free(k) => if k < |h.held| then WithoutBlock(h, k) else h
    case Store(k, offset, value) =>
      if k < |h.held| && offset < h.held[k].size then h.(data := h.data[h.held[k].ptr + offset := value]) else h
  }

  ghost function AfterAll(h: Heap, sizes: seq<nat>, calls: seq<Call>): Heap
    requires |sizes| == |h.free|
    decreases calls
  {
    if calls == [] then h else AfterAll(After(h, sizes, calls[0]), sizes, calls[1..])
  }

  // ---- Heaps and bags ----

  /** The blocks that bag `b` issued. */
  ghost function IssuedBy(owner: map<nat, nat>, b: nat): set<nat>
  {
    set p | p in owner && owner[p] == b
  }

  /** Every bag has handed out the blocks recorded for it and no others. */
  ghost predicate Recorded(owner: map<nat, nat>, lives: seq<set<nat>>)
  {
    && (forall p | p in owner :: owner[p] < |lives|)
    && forall b | 0 <= b < |lives| :: lives[b] == IssuedBy(owner, b)
  }

  lemma RecordedFor(owner: map<nat, nat>, lives: seq<set<nat>>, p: nat)
    requires Recorded(owner, lives) && p in owner
    ensures owner[p] < |lives| && p in lives[owner[p]]
  {
  }

  /** The blocks held are different ones, exactly those on record, and large enough. */
  ghost predicate Holds(held: seq<Block>, owner: map<nat, nat>, sizes: seq<nat>)
  {
    && (forall i, j | 0 <= i < j < |held| :: held[i].ptr != held[j].ptr)
    && (forall i | 0 <= i < |held| :: OnRecord(held[i], owner, sizes))
    && forall p: nat | p in owner :: exists i :: 0 <= i < |held| && held[i].ptr == p
  }

  ghost predicate OnRecord(b: Block, owner: map<nat, nat>, sizes: seq<nat>)
  {
    b.ptr in owner && owner[b.ptr] < |sizes| && b.size <= sizes[owner[b.ptr]]
  }

  /** Bytes are stored only in blocks that are held. */
  ghost predicate InBlocks(data: map<nat, byte>, held: seq<Block>)
  {
    forall a: nat | a in data :: exists i :: 0 <= i < |held| && InBlock(a, held[i])
  }

  ghost predicate InBlock(a: nat, b: Block)
  {
    b.ptr <= a < b.ptr + b.size
  }

  /** Memory holds what was stored. */
  ghost predicate Stores(m: seq<byte>, data: map<nat, byte>)
  {
    forall a: nat | a in data :: a < |m| && m[a] == data[a]
  }

  /** The bags are in the state that the heap describes. */
  ghost predicate IsHeap(m: MemBag, h: Heap)
    reads m.bags, m.Pools(), m.mem
  {
    && m.Valid() && h.free == m.Frees() && Recorded(h.owner, m.Lives())
    && Holds(h.held, h.owner, m.BlockSizes())
    && InBlocks(h.data, h.held) && Stores(m.mem[..], h.data)
  }

  // ---- Single calls ----

  method AllocOne(m: MemBag, size: uint32, ghost h: Heap) returns (ptr: uint32, ghost h': Heap)
    requires IsHeap(m, h) && FindsOwners(m.Ranges())
    modifies m.bags, m.Pools()
    ensures IsHeap(m, h') && m.Ranges() == old(m.Ranges()) && h' == After(h, m.BlockSizes(), Alloc(size))
    ensures h'.held == if ptr == NULL then h.held else h.held + [Block(ptr, size)]
  {
    hide MemBag.Valid;
    hide Pool.Live;
    hide Find;
    hide FindsOwners;
    hide Recorded;
    hide Holds;
    hide InBlocks;
    hide Stores;
    ghost var before, frees, sizes, bag := m.Lives(), m.Frees(), m.BlockSizes(), |m.bags|;
    ptr, bag := m.Alloc(size);
    FitIs(frees, sizes, size, bag);
    h' := After(h, sizes, Alloc(size));
    if ptr != NULL {
      m.Owners(ptr);
      AllocRecords(h.owner, before, m.Lives(), ptr, bag);
      HoldsMore(h.held, h.owner, sizes, Block(ptr, size), bag);
      InMoreBlocks(h.data, h.held, Block(ptr, size));
    } else {
      assert m.Lives() == before;
    }
    assert m.Frees() == h'.free;
  }

  /** The bag that the allocation takes is the first that fits. */
  lemma FitIs(free: seq<seq<nat>>, sizes: seq<nat>, size: nat, k: nat)
    requires |sizes| == |free| && k <= |free| && (k < |free| ==> size <= sizes[k] && free[k] != [])
    requires forall j | 0 <= j < k :: sizes[j] < size || free[j] == []
    ensures FirstFit(free, sizes, size, 0) == k
  {
    assert k < |free| ==> size <= sizes[k] && free[k] != [];
  }

  method FreeOne(m: MemBag, k: nat, b: Block, ghost h: Heap) returns (ghost h': Heap)
    requires IsHeap(m, h) && FindsOwners(m.Ranges()) && k < |h.held| && b == h.held[k]
    modifies m.bags, m.Pools(), m.mem
    ensures IsHeap(m, h') && m.Ranges() == old(m.Ranges()) && h' == After(h, m.BlockSizes(), Free(k))
    ensures h'.held == h.held[..k] + h.held[k + 1..]
  {
    hide MemBag.Valid;
    hide Pool.Live;
    hide Find;
    hide FindsOwners;
    hide AgreeOutside;
    hide ReadPtr;
    hide Holds;
    hide InBlocks;
    hide Stores;
    hide Recorded;
    hide After;
    hide Elsewhere;
    HoldsLess(h.held, h.owner, m.BlockSizes(), k);
    RecordedFor(h.owner, m.Lives(), b.ptr);
    ghost var before, frees, bag, mem := m.Lives(), m.Frees(), h.owner[b.ptr], m.mem[..];
    m.InsideMemory(bag, b.ptr);
    OthersElsewhere(m, h, k);
    m.Free(b.ptr);
    FreeRecords(h.owner, before, m.Lives(), b.ptr);
    DataKept(mem, m.mem[..], h, k);
    FreeIs(h, m.BlockSizes(), k, m.Frees());
    h' := After(h, m.BlockSizes(), Free(k));
  }

  /** The heap after a block has come to the front of its bag's free list. */
  lemma FreeIs(h: Heap, sizes: seq<nat>, k: nat, free: seq<seq<nat>>)
    requires |sizes| == |h.free| == |free| && k < |h.held|
    requires h.held[k].ptr in h.owner && h.owner[h.held[k].ptr] < |free|
    requires var bag := h.owner[h.held[k].ptr];
             && free[bag] == [h.held[k].ptr] + h.free[bag]
             && forall b | 0 <= b < |free| && b != bag :: free[b] == h.free[b]
    ensures After(h, sizes, Free(k)) ==
            Heap(free, h.held[..k] + h.held[k + 1..], h.owner - {h.held[k].ptr}, Rest(h.data, h.held[k]))
  {
    assert free == h.free[h.owner[h.held[k].ptr] := free[h.owner[h.held[k].ptr]]];
  }

  method StoreOne(m: MemBag, k: nat, b: Block, offset: nat, value: byte, ghost h: Heap) returns (ghost h': Heap)
    requires IsHeap(m, h) && k < |h.held| && b == h.held[k] && offset < b.size
    modifies m.mem
    ensures IsHeap(m, h') && m.Ranges() == old(m.Ranges())
    ensures h' == After(h, m.BlockSizes(), Store(k, offset, value)) && h'.held == h.held
  {
    hide MemBag.Valid;
    hide Pool.Live;
    hide Holds;
    hide InBlocks;
    hide Stores;
    HoldsLess(h.held, h.owner, m.BlockSizes(), k);
    ghost var before, bag, mem := m.Lives(), h.owner[b.ptr], m.mem[..];
    assert b.ptr in before[bag];
    m.InsideMemory(bag, b.ptr);
    m.ClientWrite(bag, b.ptr, offset, value);
    h' := After(h, m.BlockSizes(), Store(k, offset, value));
    DataStored(mem, h.data, h.held, k, offset, value);
    assert m.Lives() == before && m.Frees() == h.free;
  }

  // ---- Runs ----

  /** The allocator does exactly what the model says, whatever the calls and their order: every
      block comes from the first bag that fits and goes back to the bag that issued it, the
      blocks held are different ones, and every byte stored stays as it is until its block is
      given back. */
  method Serve(m: MemBag, calls: seq<Call>, held0: seq<Block>, ghost h0: Heap)
    returns (held: seq<Block>, ghost h: Heap)
    requires IsHeap(m, h0) && FindsOwners(m.Ranges()) && held0 == h0.held
    modifies m.bags, m.Pools(), m.mem
    ensures IsHeap(m, h) && m.Ranges() == old(m.Ranges())
    ensures h == AfterAll(h0, m.BlockSizes(), calls) && held == h.held
  {
    hide IsHeap;
    hide After;
    hide FindsOwners;
    held, h := held0, h0;
    SameLengths(m, h);
    for i := 0 to |calls|
      invariant IsHeap(m, h) && m.Ranges() == old(m.Ranges()) && held == h.held && |h.free| == |m.bags|
      invariant AfterAll(h, m.BlockSizes(), calls[i..]) == AfterAll(h0, m.BlockSizes(), calls)
    {
      assert calls[i..][1..] == calls[i + 1..];
      held, h := ServeOne(m, calls[i], held, h);
    }
  }

  lemma SameLengths(m: MemBag, h: Heap)
    requires IsHeap(m, h)
    ensures |h.free| == |m.bags| == |m.BlockSizes()|
  {
    hide MemBag.Valid;
  }

  method ServeOne(m: MemBag, call: Call, held0: seq<Block>, ghost h0: Heap) returns (held: seq<Block>, ghost h: Heap)
    requires IsHeap(m, h0) && FindsOwners(m.Ranges()) && held0 == h0.held && |h0.free| == |m.bags|
    modifies m.bags, m.Pools(), m.mem
    ensures IsHeap(m, h) && m.Ranges() == old(m.Ranges())
    ensures h == After(h0, m.BlockSizes(), call) && held == h.held
  {
    hide IsHeap;
    hide FindsOwners;
    hide WithBlock;
    hide WithoutBlock;
    held, h := held0, h0;
    match call {
      case Alloc(size) =>
        var ptr;
        ptr, h := AllocOne(m, size, h0);
        if ptr != NULL {
          held := held0 + [Block(ptr, size)];
        }
      case Free(k) =>
        if k < |held0| {
          h := FreeOne(m, k, held0[k], h0);
          held := held0[..k] + held0[k + 1..];
        }
      case Store(k, offset, value) =>
        if k < |held0| && offset < held0[k].size {
          h := StoreOne(m, k, held0[k], offset, value, h0);
        }
    }
  }

  /** All blocks are free, lowest address first, and none is held. */
  ghost predicate IsFull(h: Heap, bags: seq<Bag>, ranges: seq<Range>, order: nat)
    requires |ranges| == |bags| && order < 32
  {
    && |h.free| == |bags| && h.held == [] && h.owner == map[] && h.data == map[]
    && forall b | 0 <= b < |bags| ::
         h.free[b] == AllSlots(Layout(ranges[b].start, RoundUp(bags[b].blockSize, order), bags[b].numBlocks))
  }

  lemma FullHeap(m: MemBag, order: nat, h: Heap)
    requires order < 32 && m.Valid() && forall b | 0 <= b < |m.bags| :: m.bags[b].SetUp(order)
    requires h == Heap(m.Frees(), [], map[], map[])
    ensures IsHeap(m, h) && IsFull(h, m.bags, m.Ranges(), order)
  {
    hide Pool.ValidIn;
    hide Pool.Live;
    hide Layout.End;
    hide RoundUp;
    NothingIssued(m, order);
    hide Recorded;
    forall b | 0 <= b < |m.bags|
      ensures h.free[b] ==
        AllSlots(Layout(m.Ranges()[b].start, RoundUp(m.bags[b].blockSize, order), m.bags[b].numBlocks))
    {
      var l := m.bags[b].pool.layout;
      assert l == Layout(m.bags[b].start, RoundUp(m.bags[b].blockSize, order), m.bags[b].numBlocks);
    }
  }

  lemma HeapIs(m: MemBag, h: Heap)
    requires IsHeap(m, h)
    ensures m.Valid() && Recorded(h.owner, m.Lives()) && Holds(h.held, h.owner, m.BlockSizes())
  {
  }

  /** The same from the set-up on, with one physical pool for all bags. Once the client has
      given everything back, every bag has all its blocks again. */
  method InitAndServe(m: MemBag, order: nat, calls: seq<Call>) returns (held: seq<Block>, ghost h0: Heap, ghost h: Heap)
    requires order < 32 && m.Wired() && m.mem.Length <= WORD && m.PhysesApart() && m.Supplied(order)
    requires forall b | b in m.bags :: b.phys == m.bags[0].phys
    modifies m.bags, m.Pools(), m.mem, m.Physes()
    ensures IsFull(h0, m.bags, m.Ranges(), order)
    ensures IsHeap(m, h) && h == AfterAll(h0, m.BlockSizes(), calls) && held == h.held
    ensures held == [] ==> forall b | 0 <= b < |m.bags| :: m.bags[b].numFree == m.bags[b].numBlocks
  {
    hide MemBag.Valid;
    hide MemBag.Wired;
    hide MemBag.PhysesApart;
    hide MemBag.Supplied;
    hide MemBag.StartsAt;
    hide FindsOwners;
    hide PhysmemPool.Valid;
    hide IsHeap;
    hide IsFull;
    m.Init(order);
    h0 := Heap(m.Frees(), [], map[], map[]);
    FullHeap(m, order, h0);
    held, h := Serve(m, calls, [], h0);
    HeapIs(m, h);
    if held == [] {
      NothingHeld(h.owner, m.BlockSizes());
      AllBack(m);
    }
  }

  /** A set-up with all blocks free has nothing handed out. */
  lemma NothingIssued(m: MemBag, order: nat)
    requires order < 32 && m.Valid() && forall b | 0 <= b < |m.bags| :: m.bags[b].SetUp(order)
    ensures Recorded(map[], m.Lives())
  {
    hide Chain;
    hide Layout.Slots;
    hide Layout.End;
    forall b | 0 <= b < |m.bags|
      ensures m.bags[b].pool.Live() == {}
    {
      AllSlotsAre(m.bags[b].pool.layout);
    }
  }

  /** Once everything is given back every bag has all its blocks again. */
  lemma AllBack(m: MemBag)
    requires m.Valid() && Recorded(map[], m.Lives())
    ensures forall b | 0 <= b < |m.bags| :: m.bags[b].numFree == m.bags[b].numBlocks
  {
    hide Pool.ValidIn;
    hide Pool.Live;
    hide Layout.End;
    forall b | 0 <= b < |m.bags|
      ensures m.bags[b].numFree == m.bags[b].numBlocks
    {
      assert m.Lives()[b] == {};
      m.bags[b].pool.Accounted();
    }
  }

  /** No other block reaches into the one that is given back. */
  lemma OthersElsewhere(m: MemBag, h: Heap, k: nat)
    requires IsHeap(m, h) && k < |h.held|
    ensures forall i | 0 <= i < |h.held| && i != k :: Elsewhere(h.held[k], h.held[i])
  {
    hide MemBag.Valid;
    hide Pool.Live;
    hide InBlocks;
    hide Stores;
    forall i | 0 <= i < |h.held| && i != k
      ensures Elsewhere(h.held[k], h.held[i])
    {
      var p, q := h.held[k].ptr, h.held[i].ptr;
      assert OnRecord(h.held[k], h.owner, m.BlockSizes()) && OnRecord(h.held[i], h.owner, m.BlockSizes());
      assert p in m.Lives()[h.owner[p]] && q in m.Lives()[h.owner[q]];
      m.BlocksApart(h.owner[p], p, h.owner[q], q);
      m.InsideMemory(h.owner[p], p);
      m.InsideMemory(h.owner[q], q);
      m.InsideBag(h.owner[p], p);
    }
  }

  /** The first four bytes of a block, where its list pointer is, and the block itself are no part
      of another one. */
  ghost predicate Elsewhere(b: Block, other: Block)
  {
    (b.ptr + b.size <= other.ptr && b.ptr + PTR_SIZE <= other.ptr) || other.ptr + other.size <= b.ptr
  }

  lemma DataKept(m: seq<byte>, m': seq<byte>, h: Heap, k: nat)
    requires k < |h.held| && InBlocks(h.data, h.held) && Stores(m, h.data)
    requires AgreeOutside(m, m', h.held[k].ptr, PTR_SIZE)
    requires forall i | 0 <= i < |h.held| && i != k :: Elsewhere(h.held[k], h.held[i])
    ensures InBlocks(Rest(h.data, h.held[k]), h.held[..k] + h.held[k + 1..]) && Stores(m', Rest(h.data, h.held[k]))
  {
    var b, less := h.held[k], h.held[..k] + h.held[k + 1..];
    var rest := Rest(h.data, b);
    forall a: nat | a in rest
      ensures a < |m'| && m'[a] == rest[a]
      ensures exists i :: 0 <= i < |less| && InBlock(a, less[i])
    {
      var i :| 0 <= i < |h.held| && InBlock(a, h.held[i]);
      assert Elsewhere(h.held[k], h.held[i]);
      assert less[if i < k then i else i - 1] == h.held[i];
    }
  }

  lemma DataStored(m: seq<byte>, data: map<nat, byte>, held: seq<Block>, k: nat, offset: nat, value: byte)
    requires k < |held| && offset < held[k].size && held[k].ptr + offset < |m|
    requires InBlocks(data, held) && Stores(m, data)
    ensures InBlocks(data[held[k].ptr + offset := value], held)
    ensures Stores(m[held[k].ptr + offset := value], data[held[k].ptr + offset := value])
  {
    assert InBlock(held[k].ptr + offset, held[k]);
  }

  lemma InMoreBlocks(data: map<nat, byte>, held: seq<Block>, b: Block)
    requires InBlocks(data, held)
    ensures InBlocks(data, held + [b])
  {
    forall a: nat | a in data
      ensures exists i :: 0 <= i < |held + [b]| && InBlock(a, (held + [b])[i])
    {
      var i :| 0 <= i < |held| && InBlock(a, held[i]);
      assert (held + [b])[i] == held[i];
    }
  }

  lemma NothingHeld(owner: map<nat, nat>, sizes: seq<nat>)
    requires Holds([], owner, sizes)
    ensures owner == map[]
  {
  }

  lemma HoldsMore(held: seq<Block>, owner: map<nat, nat>, sizes: seq<nat>, b: Block, bag: nat)
    requires Holds(held, owner, sizes) && b.ptr !in owner && bag < |sizes| && b.size <= sizes[bag]
    ensures Holds(held + [b], owner[b.ptr := bag], sizes)
  {
    var more := held + [b];
    assert more[|held|] == b && forall i | 0 <= i < |held| :: more[i] == held[i] && OnRecord(held[i], owner, sizes);
  }

  lemma HoldsLess(held: seq<Block>, owner: map<nat, nat>, sizes: seq<nat>, k: nat)
    requires Holds(held, owner, sizes) && k < |held|
    ensures OnRecord(held[k], owner, sizes) && Holds(held[..k] + held[k + 1..], owner - {held[k].ptr}, sizes)
  {
    hide OnRecord;
    var rest, owner' := held[..k] + held[k + 1..], owner - {held[k].ptr};
    forall i | 0 <= i < |rest|
      ensures OnRecord(rest[i], owner', sizes)
    {
      StillOnRecord(held[if i < k then i else i + 1], owner, sizes, held[k].ptr);
    }
    forall p: nat | p in owner'
      ensures exists i :: 0 <= i < |rest| && rest[i].ptr == p
    {
      var i :| 0 <= i < |held| && held[i].ptr == p;
      assert rest[if i < k then i else i - 1].ptr == p;
    }
  }

  lemma StillOnRecord(b: Block, owner: map<nat, nat>, sizes: seq<nat>, ptr: nat)
    requires OnRecord(b, owner, sizes) && b.ptr != ptr
    ensures OnRecord(b, owner - {ptr}, sizes)
  {
  }

  lemma AllocRecords(owner: map<nat, nat>, lives: seq<set<nat>>, lives': seq<set<nat>>, ptr: nat, bag: nat)
    requires Recorded(owner, lives) && bag < |lives| == |lives'|
    requires ptr !in lives[bag] && lives'[bag] == lives[bag] + {ptr}
    requires forall b | 0 <= b < |lives| && b != bag :: lives'[b] == lives[b] && ptr !in lives'[b]
    ensures ptr !in owner && Recorded(owner[ptr := bag], lives')
  {
    forall p | p in owner
      ensures p != ptr
    {
      assert p in lives[owner[p]];
    }
    forall b | 0 <= b < |lives|
      ensures lives'[b] == IssuedBy(owner[ptr := bag], b)
    {
    }
  }

  lemma FreeRecords(owner: map<nat, nat>, lives: seq<set<nat>>, lives': seq<set<nat>>, ptr: nat)
    requires Recorded(owner, lives) && |lives| == |lives'| && ptr in owner
    requires lives'[owner[ptr]] == lives[owner[ptr]] - {ptr}
    requires forall b | 0 <= b < |lives| && b != owner[ptr] :: lives'[b] == lives[b]
    ensures Recorded(owner - {ptr}, lives')
  {
    forall b | 0 <= b < |lives|
      ensures lives'[b] == IssuedBy(owner - {ptr}, b)
    {
    }
  }
}
