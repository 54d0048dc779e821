/** Pools of fixed-size objects whose list of free objects lives in the free objects
    themselves. Memory is an array of bytes, and a pointer to the next free object takes the
    first four bytes of an object, least significant byte first. */
module MemPool {
  import opened Bits
  import opened Util
  import opened Physmem

  type byte = x: nat | x < 256

  const PTR_SIZE := 4
  const NULL: uint32 := 0

  function ReadPtr(m: seq<byte>, a: nat): nat
    requires a + PTR_SIZE <= |m|
  {
    (m[a] as nat) + 0x100 * (m[a + 1] as nat) + 0x1_0000 * (m[a + 2] as nat) + 0x100_0000 * (m[a + 3] as nat)
  }

  /** The bytes of a pointer give the pointer back. */
  lemma PointerBytes(p: uint32)
    ensures p % 0x100 + 0x100 * (p / 0x100 % 0x100) + 0x1_0000 * (p / 0x1_0000 % 0x100)
            + 0x100_0000 * (p / 0x100_0000) == p
    ensures p / 0x100_0000 < 0x100
  {
    var a, b := p / 0x100, p / 0x1_0000;
    assert p == 0x100 * a + p % 0x100;
    assert b == a / 0x100 && a == 0x100 * b + a % 0x100;
    assert p / 0x100_0000 == b / 0x100 && b == 0x100 * (b / 0x100) + b % 0x100;
  }

  /** `free` is the list of objects threaded through memory from `head` on. */
  ghost predicate Chain(m: seq<byte>, head: nat, free: seq<nat>)
  {
    && head == (if free == [] then NULL else free[0])
    && forall i | 0 <= i < |free| :: PointsOn(m, free, i)
  }

  /** The `i`-th free object points to the one after it, the last one to nothing. */
  ghost predicate PointsOn(m: seq<byte>, free: seq<nat>, i: nat)
    requires i < |free|
  {
    && 0 < free[i] && free[i] + PTR_SIZE <= |m|
    && ReadPtr(m, free[i]) == (if i + 1 < |free| then free[i + 1] else NULL)
  }

  /** The objects of a pool: `count` places of `size` bytes each from `base` on. */
  datatype Layout = Layout(base: nat, size: nat, count: nat)
  {
    function Slot(k: nat): nat { base + k * size }

    ghost predicate IsSlot(a: nat) { IsSlotBelow(a, count) }

    ghost predicate IsSlotBelow(a: nat, n: nat) { exists k: nat :: k < n && a == Slot(k) }

    ghost function Slots(): set<nat> { SlotsBelow(count) }

    ghost function SlotsBelow(n: nat): set<nat>
    {
      if n == 0 then {} else SlotsBelow(n - 1) + {Slot(n - 1)}
    }

    function Extent(): nat { count * size }

    function End(): nat { base + Extent() }
  }

  /** Different objects do not overlap. */
  lemma SlotsApart(l: Layout, j: nat, k: nat)
    requires j < k
    ensures l.Slot(j) + l.size <= l.Slot(k)
  {
    assert (k - j) * l.size >= l.size by {
      if l.size > 0 {
        MulAtLeast(k - j, l.size);
      }
    }
    assert l.Slot(k) == l.Slot(j) + (k - j) * l.size;
  }

  lemma {:induction false} SlotsAre(l: Layout, n: nat)
    requires l.size > 0
    ensures |l.SlotsBelow(n)| == n
    ensures forall a: nat :: a in l.SlotsBelow(n) <==> l.IsSlotBelow(a, n)
  {
    hide Layout.Slot;
    hide Layout.IsSlotBelow;
    if n == 0 {
      NoSlotBelow(l);
    } else {
      SlotsAre(l, n - 1);
      SlotsDiffer(l, n - 1);
      OneSlotMore(l, n - 1);
      assert l.Slot(n - 1) !in l.SlotsBelow(n - 1);
    }
  }

  lemma NoSlotBelow(l: Layout)
    ensures forall a: nat :: !l.IsSlotBelow(a, 0)
  {
  }

  lemma OneSlotMore(l: Layout, n: nat)
    ensures forall a: nat :: l.IsSlotBelow(a, n + 1) <==> l.IsSlotBelow(a, n) || a == l.Slot(n)
  {
    hide Layout.Slot;
    forall a: nat
      ensures l.IsSlotBelow(a, n + 1) <==> l.IsSlotBelow(a, n) || a == l.Slot(n)
    {
      if a == l.Slot(n) {
        assert l.IsSlotBelow(a, n + 1);
      }
    }
  }

  lemma SlotsDiffer(l: Layout, n: nat)
    requires l.size > 0
    ensures !l.IsSlotBelow(l.Slot(n), n)
  {
    if k: nat :| k < n && l.Slot(n) == l.Slot(k) {
      SlotsApart(l, k, n);
    }
  }

  lemma DistinctSlotsApart(l: Layout, a: nat, b: nat)
    requires l.IsSlot(a) && l.IsSlot(b) && a != b
    ensures a + l.size <= b || b + l.size <= a
  {
    var j: nat :| j < l.count && a == l.Slot(j);
    var k: nat :| k < l.count && b == l.Slot(k);
    if j < k {
      SlotsApart(l, j, k);
    } else {
      SlotsApart(l, k, j);
    }
  }

  lemma SlotInside(l: Layout, a: nat)
    requires l.IsSlot(a)
    ensures l.base <= a && a + l.size <= l.End()
  {
    var k: nat :| k < l.count && a == l.Slot(k);
    SlotsApart(l, k, l.count);
    MulNonNegative(k, l.size);
  }

  /** Two memories that agree outside `size` bytes from `a` on. */
  ghost predicate AgreeOutside(m: seq<byte>, m': seq<byte>, a: nat, size: nat)
  {
    && |m'| == |m|
    && forall k | 0 <= k < |m| && !(a <= k < a + size) :: m'[k] == m[k]
  }

  /** Changes inside a part already given up change nothing outside of it. */
  lemma AgreeWithin(m0: seq<byte>, m1: seq<byte>, m2: seq<byte>, a: nat, size: nat, b: nat, n: nat)
    requires AgreeOutside(m0, m1, a, size) && AgreeOutside(m1, m2, b, n)
    requires a <= b && b + n <= a + size
    ensures AgreeOutside(m0, m2, a, size)
  {
  }

  lemma AgreeSelf(m: seq<byte>, a: nat, size: nat)
    ensures AgreeOutside(m, m, a, size)
  {
  }

  lemma PointerKept(m: seq<byte>, m': seq<byte>, a: nat, size: nat, b: nat)
    requires AgreeOutside(m, m', a, size) && b + PTR_SIZE <= |m|
    requires b + PTR_SIZE <= a || a + size <= b
    ensures ReadPtr(m', b) == ReadPtr(m, b)
  {
    assert m'[b] == m[b] && m'[b + 1] == m[b + 1] && m'[b + 2] == m[b + 2] && m'[b + 3] == m[b + 3];
  }

  /** Whatever happens inside an object that is not free, the free list stays as it is. */
  lemma ChainKept(l: Layout, m: seq<byte>, m': seq<byte>, head: nat, free: seq<nat>, a: nat)
    requires Chain(m, head, free) && AgreeOutside(m, m', a, l.size) && l.size >= PTR_SIZE
    requires l.IsSlot(a) && a !in free && forall i | 0 <= i < |free| :: l.IsSlot(free[i])
    ensures Chain(m', head, free)
  {
    hide Layout.IsSlot;
    forall i | 0 <= i < |free|
      ensures PointsOn(m', free, i)
    {
      assert PointsOn(m, free, i);
      DistinctSlotsApart(l, free[i], a);
      PointerKept(m, m', a, l.size, free[i]);
    }
  }

  /** Whatever happens outside of a pool's objects, its free list stays as it is. */
  lemma ChainKeptElsewhere(l: Layout, m: seq<byte>, m': seq<byte>, head: nat, free: seq<nat>, a: nat, size: nat)
    requires Chain(m, head, free) && AgreeOutside(m, m', a, size) && l.size >= PTR_SIZE
    requires forall i | 0 <= i < |free| :: l.IsSlot(free[i])
    requires a + size <= l.base || l.End() <= a
    ensures Chain(m', head, free)
  {
    hide Layout.IsSlot;
    forall i | 0 <= i < |free|
      ensures PointsOn(m', free, i)
    {
      assert PointsOn(m, free, i);
      SlotInside(l, free[i]);
      PointerKept(m, m', a, size, free[i]);
    }
  }

  /** The first `n` objects, each but the last pointing to the next one. */
  ghost predicate Linked(m: seq<byte>, l: Layout, n: nat)
  {
    && n >= 1 && l.size >= PTR_SIZE && l.Slot(n - 1) + l.size <= |m|
    && forall i | 0 <= i < n - 1 ::
         l.Slot(i) + PTR_SIZE <= |m| && ReadPtr(m, l.Slot(i)) == l.Slot(i + 1)
  }

  lemma LinkFirst(m: seq<byte>, l: Layout)
    requires l.size >= PTR_SIZE && l.base + l.size <= |m|
    ensures Linked(m, l, 1)
  {
  }

  /** Setting the last object's pointer keeps the links before it. */
  lemma LinksKept(m: seq<byte>, m': seq<byte>, l: Layout, n: nat)
    requires Linked(m, l, n) && AgreeOutside(m, m', l.Slot(n - 1), PTR_SIZE)
    ensures Linked(m', l, n)
  {
    forall i | 0 <= i < n - 1
      ensures l.Slot(i) + PTR_SIZE <= |m| && ReadPtr(m', l.Slot(i)) == l.Slot(i + 1)
    {
      SlotsApart(l, i, n - 1);
      PointerKept(m, m', l.Slot(n - 1), PTR_SIZE, l.Slot(i));
    }
  }

  lemma LinkNext(m: seq<byte>, m': seq<byte>, l: Layout, n: nat)
    requires Linked(m, l, n) && AgreeOutside(m, m', l.Slot(n - 1), PTR_SIZE)
    requires l.Slot(n) + l.size <= |m| && ReadPtr(m', l.Slot(n - 1)) == l.Slot(n)
    ensures Linked(m', l, n + 1)
  {
    LinksKept(m, m', l, n);
  }

  /** With a NULL in the last object the links are a free list of all objects. */
  lemma LinkLast(m: seq<byte>, m': seq<byte>, l: Layout, n: nat)
    requires Linked(m, l, n) && AgreeOutside(m, m', l.Slot(n - 1), PTR_SIZE) && l.base > 0
    requires ReadPtr(m', l.Slot(n - 1)) == NULL
    ensures l.count == n ==> Chain(m', l.Slot(0), AllSlots(l))
  {
    LinksKept(m, m', l, n);
    forall i | 0 <= i < n && l.count == n
      ensures PointsOn(m', AllSlots(l), i)
    {
      MulNonNegative(i, l.size);
    }
  }

  method WritePtr(mem: array<byte>, a: nat, p: uint32)
    requires a + PTR_SIZE <= mem.Length
    modifies mem
    ensures ReadPtr(mem[..], a) == p
    ensures AgreeOutside(old(mem[..]), mem[..], a, PTR_SIZE)
  {
    PointerBytes(p);
    mem[a] := p % 0x100;
    mem[a + 1] := p / 0x100 % 0x100;
    mem[a + 2] := p / 0x1_0000 % 0x100;
    mem[a + 3] := p / 0x100_0000;
  }

  /** A memory area that has room for at least one object, with no overflow on the way. */
  ghost predicate Carvable(start: nat, size: nat, objsize: nat, order: nat)
  {
    && order < 32 && 0 < start < WORD && size < WORD && objsize < WORD
    && start + Pow2(order) <= WORD && objsize + Pow2(order) <= WORD
    && RoundUp(objsize, order) >= PTR_SIZE
    && RoundUp(start, order) + RoundUp(objsize, order) <= start + size
  }

  /** The objects the area holds: as many as fit between its first boundary and its end. */
  ghost function Carved(start: nat, size: nat, objsize: nat, order: nat): Layout
    requires Carvable(start, size, objsize, order)
  {
    var base, step := RoundUp(start, order), RoundUp(objsize, order);
    Layout(base, step, (start + size - base) / step)
  }

  lemma CarvedFits(start: nat, size: nat, objsize: nat, order: nat)
    requires Carvable(start, size, objsize, order)
    ensures var l := Carved(start, size, objsize, order);
            && start <= l.base && l.size >= PTR_SIZE && l.count > 0
            && l.base + l.size <= start + size && l.base <= l.End() <= start + size
            && start + size < l.base + (l.count + 1) * l.size
            && l.base % Pow2(order) == 0 && l.base < start + Pow2(order)
            && l.size % Pow2(order) == 0 && objsize <= l.size < objsize + Pow2(order)
  {
    var l := Carved(start, size, objsize, order);
    var room := start + size - l.base;
    RemainderOf(room, l.size);
    MulNonNegative(l.count, l.size);
  }

  /** What a caller that takes its memory from a physical pool has to see to: enough memory,
      and object sizes that do not overflow. */
  ghost predicate Obtainable(start: uint32, end: uint32, count: nat, objsize: uint32, order: nat)
  {
    && order < 32 && count > 0 && objsize + Pow2(order) <= WORD
    && RoundUp(objsize, order) >= PTR_SIZE
    && count * RoundUp(objsize, order) <= end
    && TopAddress(end, count * RoundUp(objsize, order), order) >= start
    && TopAddress(end, count * RoundUp(objsize, order), order) > 0
  }

  /** The memory taken from the top of a physical pool holds exactly the objects asked for:
      its address is aligned already and nothing is left over. */
  lemma ObtainedCarves(start: uint32, end: uint32, count: nat, objsize: uint32, order: nat)
    requires Obtainable(start, end, count, objsize, order)
    ensures var step := RoundUp(objsize, order);
            var addr := TopAddress(end, count * step, order);
            && Carvable(addr, count * step, objsize, order)
            && Carved(addr, count * step, objsize, order) == Layout(addr, step, count)
            && addr + count * step <= end
  {
    hide TopAddress;
    hide RoundUp;
    var step := RoundUp(objsize, order);
    var addr := TopAddress(end, count * step, order);
    TopFits(end, count * step, order);
    RoundUpAligned(addr, order);
    MulAtLeast(count, step);
    DivModUnique(count * step, step, count, 0);
  }

  /** All objects of a pool, lowest address first. */
  ghost function AllSlots(l: Layout): seq<nat>
  {
    seq(l.count, i requires 0 <= i => l.Slot(i))
  }

  lemma ChainPrepend(m: seq<byte>, head: nat, free: seq<nat>, a: nat)
    requires Chain(m, head, free) && 0 < a && a + PTR_SIZE <= |m| && ReadPtr(m, a) == head
    ensures Chain(m, a, [a] + free)
  {
    forall i | 0 <= i < |free| + 1
      ensures PointsOn(m, [a] + free, i)
    {
      if i > 0 {
        assert PointsOn(m, free, i - 1);
      }
    }
  }

  lemma ChainTail(m: seq<byte>, head: nat, free: seq<nat>)
    requires Chain(m, head, free) && head != NULL
    ensures free != [] && head == free[0] && head + PTR_SIZE <= |m| && Chain(m, ReadPtr(m, head), free[1..])
  {
    assert PointsOn(m, free, 0);
    forall i | 0 <= i < |free| - 1
      ensures PointsOn(m, free[1..], i)
    {
      assert PointsOn(m, free, i + 1);
    }
  }

  class Pool {
    const mem: array<byte>
    var freelist: uint32
    ghost var layout: Layout
    ghost var free: seq<nat>    // the free objects, in the order of the list

    constructor (mem: array<byte>)
      ensures this.mem == mem && freelist == NULL && free == []
    {
      this.mem, freelist, layout, free := mem, 0, Layout(0, 0, 0), [];
    }

    ghost predicate Valid()
      reads this, mem
    {
      ValidIn(mem[..])
    }

    /** The pool is intact if memory holds `m`. */
    ghost predicate ValidIn(m: seq<byte>)
      reads this
    {
      && layout.base > 0 && layout.size >= PTR_SIZE && layout.End() <= |m| <= WORD
      && Chain(m, freelist, free)
      && (forall i | 0 <= i < |free| :: layout.IsSlot(free[i]))
      && Distinct(free)
    }

    /** The objects that are handed out. */
    ghost function Live(): set<nat>
      reads this
    {
      layout.Slots() - Elements(free)
    }

    /** Changes outside of the pool's objects do not concern it. */
    lemma KeptElsewhere(m: seq<byte>, m': seq<byte>, a: nat, size: nat)
      requires ValidIn(m) && AgreeOutside(m, m', a, size)
      requires a + size <= layout.base || layout.End() <= a
      ensures ValidIn(m')
    {
      hide Chain;
      hide Layout.IsSlot;
      ChainKeptElsewhere(layout, m, m', freelist, free, a, size);
    }

    /** Every object is either free or handed out. */
    lemma Accounted()
      requires Valid()
      ensures |free| + |Live()| == layout.count
    {
      hide Chain;
      hide Distinct;
      hide Elements;
      hide Layout.IsSlot;
      hide Layout.Slots;
      FreeAndRest(layout, free);
    }

    /** Carves a memory area into objects, all of them free, lowest address first. */
    method Init(start: uint32, size: uint32, objsize: uint32, order: nat)
      requires Carvable(start, size, objsize, order) && start + size <= mem.Length <= WORD
      modifies this, mem
      ensures Valid() && layout == Carved(start, size, objsize, order)
      ensures free == AllSlots(layout)
      ensures AgreeOutside(old(mem[..]), mem[..], layout.base, start + size - layout.base)
    {
      hide AgreeOutside;
      hide RoundUp;
      hide Chain;
      hide Linked;
      hide Layout.Slot;
      CarvedFits(start, size, objsize, order);
      var alignedStart := RoundUp(start, order);
      var room := size - (alignedStart - start);
      var step := RoundUp(objsize, order);
      ghost var l := Carved(start, size, objsize, order);

      var obj := alignedStart;
      var prevObj := obj;
      freelist := obj;
      var offset := step;
      ghost var n := 1;
      SlotNext(l, 0);
      LinkFirst(mem[..], l);
      AgreeSelf(mem[..], alignedStart, room);
      while offset + step <= room
        invariant n >= 1 && obj == prevObj == l.Slot(n - 1) && alignedStart + offset == l.Slot(n) && offset <= room
        invariant l.base <= prevObj && prevObj + step == l.Slot(n) && freelist == l.Slot(0)
        invariant Linked(mem[..], l, n)
        invariant AgreeOutside(old(mem[..]), mem[..], alignedStart, room)
        decreases room - offset
      {
        ghost var before := mem[..];
        obj := alignedStart + offset;
        WritePtr(mem, prevObj, obj);
        LinkNext(before, mem[..], l, n);
        AgreeWithin(old(mem[..]), before, mem[..], alignedStart, room, l.Slot(n - 1), PTR_SIZE);
        SlotNext(l, n);
        prevObj := obj;
        offset := offset + step;
        n := n + 1;
      }
      ghost var before := mem[..];
      WritePtr(mem, obj, NULL);
      LinkLast(before, mem[..], l, n);
      AgreeWithin(old(mem[..]), before, mem[..], alignedStart, room, l.Slot(n - 1), PTR_SIZE);
      CountReached(l, n, room);
      layout := l;
      free := AllSlots(l);
      SlotsDistinct(l);
    }

    /** Takes memory for `nrObjects` objects from a physical pool. */
    method InitPhysmem(phys: PhysmemPool, nrObjects: uint32, objsize: uint32, order: nat)
      requires phys.Valid() && phys.end <= mem.Length <= WORD
      requires Obtainable(phys.start, phys.end, nrObjects, objsize, order)
      modifies this, mem, phys
      ensures Valid() && phys.Valid() && free == AllSlots(layout)
      ensures layout.size == RoundUp(objsize, order) && layout.count == nrObjects && layout.base % Pow2(order) == 0
      ensures phys.end == layout.base && phys.start == old(phys.start)
      ensures phys.regions == old(phys.regions) + [Region(layout.base, layout.Extent())]
      ensures layout.End() <= old(phys.end)
      ensures AgreeOutside(old(mem[..]), mem[..], layout.base, layout.Extent())
    {
      hide Chain;
      hide RoundUp;
      hide TopAddress;
      hide AgreeOutside;
      ObtainedCarves(phys.start, phys.end, nrObjects, objsize, order);
      var blockSize := RoundUp(objsize, order);
      var poolSize := nrObjects * blockSize;
      TopFits(phys.end, poolSize, order);
      var poolAddr := phys.Alloc(poolSize, order);
      Init(poolAddr, poolSize, objsize, order);
    }

    /** The first free object, or NULL exactly when all objects are handed out. */
    method Alloc() returns (obj: uint32)
      requires Valid()
      modifies this`freelist, this`free
      ensures Valid()
      ensures if old(free) == [] then obj == NULL && free == [] && freelist == old(freelist)
              else obj != NULL && old(free) == [obj] + free
      ensures obj != NULL ==> obj !in old(Live()) && Live() == old(Live()) + {obj}
    {
      hide Chain;
      hide Layout.IsSlot;
      hide Layout.Slots;
      ChainHead(mem[..], freelist, free);
      obj := freelist;
      if obj != NULL {
        ChainTail(mem[..], obj, free);
        PointerFits(mem[..], obj);
        SlotsAre(layout, layout.count);
        IsInSlots(layout, obj);
        assert free == [obj] + free[1..];
        freelist := ReadPtr(mem[..], obj);
        free := free[1..];
      }
    }

    /** Puts an object at the front of the list; NULL is ignored. If the object was handed out
        by this pool the pool stays intact. */
    method Free(obj: uint32)
      requires obj != NULL ==> obj + PTR_SIZE <= mem.Length
      modifies this`freelist, this`free, mem
      ensures obj == NULL ==> freelist == old(freelist) && free == old(free) && mem[..] == old(mem[..])
      ensures obj != NULL ==> freelist == obj && free == [obj] + old(free) && ReadPtr(mem[..], obj) == old(freelist)
      ensures obj != NULL ==> AgreeOutside(old(mem[..]), mem[..], obj, PTR_SIZE)
      ensures old(Valid()) && obj in old(Live()) ==> Valid() && Live() == old(Live()) - {obj}
    {
      if obj == NULL {
        if Valid() {
          NullIsNoSlot();
        }
        return;
      }
      ghost var before, head, list := mem[..], freelist, free;
      WritePtr(mem, obj, freelist);
      freelist := obj;
      free := [obj] + free;
      if old(Valid() && obj in Live()) {
        FreeKeeps(layout, before, mem[..], head, list, obj);
      }
    }

    lemma NullIsNoSlot()
      requires Valid()
      ensures NULL !in Live()
    {
      hide Chain;
      hide Layout.IsSlot;
      hide Layout.Slots;
      IsInSlots(layout, NULL);
      if layout.IsSlot(NULL) {
        SlotInside(layout, NULL);
      }
    }

    /** A client stores a byte in an object it holds. */
    method ClientWrite(obj: nat, offset: nat, value: byte)
      requires Valid() && obj in Live() && offset < layout.size
      requires obj + offset < mem.Length
      modifies mem
      ensures Valid() && mem[..] == old(mem[..])[obj + offset := value]
    {
      hide Pool.ValidIn;
      KeptInLive(mem[..], obj, offset, value);
      ghost var before := mem[..];
      mem[obj + offset] := value;
      assert mem[..] == before[obj + offset := value];
    }

    /** Nothing a client stores in an object it holds can harm the free list. */
    lemma KeptInLive(m: seq<byte>, obj: nat, offset: nat, value: byte)
      requires ValidIn(m) && obj in Live() && offset < layout.size && obj + offset < |m|
      ensures ValidIn(m[obj + offset := value])
    {
      hide Chain;
      hide Layout.IsSlot;
      hide Layout.Slots;
      IsInSlots(layout, obj);
      ChainKept(layout, m, m[obj + offset := value], freelist, free, obj);
    }
  }

  ghost predicate Distinct(s: seq<nat>)
  {
    forall i, j | 0 <= i < j < |s| :: s[i] != s[j]
  }

  ghost function Elements(s: seq<nat>): set<nat>
  {
    set a | a in s
  }

  lemma DistinctRest(first: nat, rest: seq<nat>)
    requires Distinct([first] + rest)
    ensures Distinct(rest) && first !in rest
  {
    var s := [first] + rest;
    assert forall i | 0 <= i < |rest| :: rest[i] == s[i + 1] && s[i + 1] != s[0];
  }

  lemma ElementsOf(first: nat, rest: seq<nat>)
    ensures Elements([first] + rest) == Elements(rest) + {first}
    ensures first in Elements(rest) <==> first in rest
  {
  }

  lemma NoElements()
    ensures Elements([]) == {}
  {
    assert forall a: nat :: a !in [];
  }

  lemma {:induction false} DistinctElements(s: seq<nat>)
    requires Distinct(s)
    ensures |Elements(s)| == |s|
  {
    hide Distinct;
    hide Elements;
    if s == [] {
      NoElements();
    } else {
      var first, rest := s[0], s[1..];
      assert s == [first] + rest;
      DistinctRest(first, rest);
      ElementsOf(first, rest);
      DistinctElements(rest);
    }
  }

  lemma FreeAndRest(l: Layout, free: seq<nat>)
    requires l.size > 0 && Distinct(free) && forall i | 0 <= i < |free| :: l.IsSlot(free[i])
    ensures |free| + |l.Slots() - Elements(free)| == l.count
  {
    hide Distinct;
    SlotsAre(l, l.count);
    DistinctElements(free);
    assert Elements(free) <= l.Slots();
    assert |l.Slots()| == |Elements(free)| + |l.Slots() - Elements(free)|;
  }

  /** A list of all objects leaves none handed out. */
  lemma AllSlotsAre(l: Layout)
    requires l.size > 0
    ensures l.Slots() <= Elements(AllSlots(l))
  {
    SlotsAre(l, l.count);
    forall a | a in l.Slots()
      ensures a in AllSlots(l)
    {
      var k: nat :| k < l.count && a == l.Slot(k);
      assert AllSlots(l)[k] == a;
    }
  }

  /** Freeing an object that was handed out leaves a free list of different objects. */
  lemma FreeKeeps(l: Layout, m: seq<byte>, m': seq<byte>, head: nat, free: seq<nat>, a: nat)
    requires l.base > 0 && l.size >= PTR_SIZE && l.End() <= |m|
    requires Chain(m, head, free) && Distinct(free) && forall i | 0 <= i < |free| :: l.IsSlot(free[i])
    requires a in l.Slots() - Elements(free) && a + PTR_SIZE <= |m|
    requires AgreeOutside(m, m', a, PTR_SIZE) && ReadPtr(m', a) == head
    ensures Chain(m', a, [a] + free) && Distinct([a] + free)
    ensures forall i | 0 <= i < |free| + 1 :: l.IsSlot(([a] + free)[i])
    ensures l.Slots() - Elements([a] + free) == l.Slots() - Elements(free) - {a}
  {
    hide Chain;
    hide Layout.IsSlot;
    hide Layout.Slots;
    IsInSlots(l, a);
    SlotInside(l, a);
    ChainKept(l, m, m', head, free, a);
    ChainPrepend(m', head, free, a);
    assert Elements([a] + free) == Elements(free) + {a};
  }

  lemma IsInSlots(l: Layout, a: nat)
    requires l.size > 0
    ensures a in l.Slots() <==> l.IsSlot(a)
  {
    SlotsAre(l, l.count);
  }

  lemma ChainHead(m: seq<byte>, head: nat, free: seq<nat>)
    requires Chain(m, head, free)
    ensures head == NULL <==> free == []
  {
    if free != [] {
      assert PointsOn(m, free, 0);
    }
  }

  lemma PointerFits(m: seq<byte>, a: nat)
    requires a + PTR_SIZE <= |m|
    ensures ReadPtr(m, a) < WORD
  {
  }

  lemma CountReached(l: Layout, n: nat, room: nat)
    requires l.size > 0 && l.Slot(n) <= l.base + room < l.Slot(n) + l.size
    ensures n == room / l.size
  {
    DivModUnique(room, l.size, n, room - n * l.size);
  }

  lemma SlotNext(l: Layout, n: nat)
    ensures l.Slot(0) == l.base && l.Slot(n + 1) == l.Slot(n) + l.size && l.base <= l.Slot(n)
  {
    MulNonNegative(n, l.size);
  }

  lemma SlotsDistinct(l: Layout)
    ensures forall i, j | 0 <= i < j < l.count :: l.Slot(i) + l.size <= l.Slot(j)
  {
    forall i, j | 0 <= i < j < l.count
      ensures l.Slot(i) + l.size <= l.Slot(j)
    {
      SlotsApart(l, i, j);
    }
  }
}
