/** The lock-free ring buffer's index arithmetic: free-running unsigned indices that
    overflow, and the exclusive-or test that tells whether the used part wraps. */
module Ring {
  import opened Bits

  function Min(a: int, b: int): int
  {
    if a < b then a else b
  }

  /** A ring size the header file allows for indices of `bits` bits: a power of two, at
      most half of the index range. */
  ghost predicate RingSize(size: nat, bits: nat)
  {
    exists k: nat :: k < bits && size == Pow2(k)
  }

  ghost function SizeOrder(size: nat, bits: nat): (k: nat)
    requires RingSize(size, bits)
    ensures k < bits && size == Pow2(k)
  {
    var k: nat :| k < bits && size == Pow2(k);
    k
  }

  /** Remainders after a step of at most half the divisor. */
  lemma StepMod(tail: nat, used: nat, k: nat, bits: nat)
    requires k < bits && used <= Pow2(k)
    ensures var base, twice := tail % Pow2(k + 1) + used, Pow2(k + 1);
            ((tail + used) % Pow2(bits)) % twice == if base >= twice then base - twice else base
  {
    var twice := Pow2(k + 1);
    var base := tail % twice + used;
    WrapThenMod(tail + used, k + 1, bits);
    assert tail + used == base + (tail / twice) * twice;
    ModAddMultiple(base, tail / twice, twice);
    if base >= twice {
      DivModUnique(base, twice, 1, base - twice);
    } else {
      DivModUnique(base, twice, 0, base);
    }
  }

  /** Where `used` entries after `tail` lead: the offsets wrap and bit `k` of the index
      flips exactly when the used part reaches the end of the buffer. */
  lemma HeadFromTail(tail: nat, used: nat, k: nat, bits: nat)
    requires k < bits && used <= Pow2(k)
    ensures var head, size := (tail + used) % Pow2(bits), Pow2(k);
            && (Bit(head, k) != Bit(tail, k) <==> tail % size + used >= size)
            && head % size == tail % size + used - (if tail % size + used >= size then size else 0)
  {
    BitMod(tail, k);
    BitMod((tail + used) % Pow2(bits), k);
    StepMod(tail, used, k, bits);
  }

  /** The test `(head ^ tail) & size` asks whether the used part wraps. */
  lemma WrapTest(head: nat, tail: nat, k: nat)
    ensures And(Xor(head, tail), Pow2(k)) != 0 <==> Bit(head, k) != Bit(tail, k)
  {
    AndPow2(Xor(head, tail), k);
    XorBit(head, tail, k);
  }

  /** The unsigned difference of two indices. */
  function Distance(head: nat, tail: nat, bits: nat): (n: nat)
    ensures n < Pow2(bits)
  {
    (head - tail) % Pow2(bits)
  }

  /** `head` is as far ahead of `tail` as the wrapped difference says. */
  lemma DifferenceReaches(head: nat, tail: nat, bits: nat)
    requires head < Pow2(bits)
    ensures (tail + Distance(head, tail, bits)) % Pow2(bits) == head
  {
    hide Pow2;
    WrappedSum(head - tail, tail, Pow2(bits));
    SmallMod(head, Pow2(bits));
  }

  lemma NoDifference(n: nat, bits: nat)
    ensures Distance(n, n, bits) == 0
  {
    hide Pow2;
    SmallMod(0, Pow2(bits));
  }

  lemma NoDistance(head: nat, tail: nat, bits: nat)
    requires head < Pow2(bits) && tail < Pow2(bits)
    ensures Distance(head, tail, bits) == 0 <==> head == tail
  {
    hide Pow2;
    DifferenceReaches(head, tail, bits);
    hide Distance;
    if Distance(head, tail, bits) == 0 {
      SmallMod(tail, Pow2(bits));
    } else if head == tail {
      NoDifference(head, bits);
    }
  }

  /** The distance from an index to the one `n` steps on is `n`. */
  lemma DistanceIs(tail: nat, n: nat, bits: nat)
    requires n < Pow2(bits)
    ensures Distance((tail + n) % Pow2(bits), tail, bits) == n
  {
    hide Pow2;
    WrappedSum(tail + n, 0 - tail, Pow2(bits));
    SmallMod(n, Pow2(bits));
  }

  class RingHead {
    const bits: nat  // width of `unsigned int`
    var head: nat
    var tail: nat

    constructor (bits: nat)
      ensures this.bits == bits && Valid() && EntriesUsed() == 0
    {
      DivModUnique(0, Pow2(bits), 0, 0);
      this.bits := bits;
      head, tail := 0, 0;
    }

    predicate Valid()
      reads this
    {
      head < Pow2(bits) && tail < Pow2(bits)
    }

    /** The state a ring of `size` entries is in between any two operations. */
    ghost predicate InUse(size: nat)
      reads this
    {
      Valid() && RingSize(size, bits) && EntriesUsed() <= size
    }

    function GetHead(size: nat): (offset: nat)
      requires InUse(size)
      reads this
      ensures offset == head % size < size
    {
      AndLowMask(head, SizeOrder(size, bits));
      And(head, size - 1)
    }

    function GetTail(size: nat): (offset: nat)
      requires InUse(size)
      reads this
      ensures offset == tail % size < size
    {
      AndLowMask(tail, SizeOrder(size, bits));
      And(tail, size - 1)
    }

    /** The unsigned difference, which is right even after `head` has overflowed. */
    function EntriesUsed(): (n: nat)
      requires Valid()
      reads this
    {
      Distance(head, tail, bits)
    }

    /** Entries that can be extracted before the buffer is empty or wraps. */
    function EntriesUsedBeforeEnd(size: nat): (n: nat)
      requires InUse(size)
      reads this
      ensures n == Min(EntriesUsed(), size - GetTail(size))
    {
      var k := SizeOrder(size, bits);
      DifferenceReaches(head, tail, bits);
      HeadFromTail(tail, EntriesUsed(), k, bits);
      WrapTest(head, tail, k);
      if And(Xor(head, tail), size) != 0 then size - GetTail(size)
      else EntriesUsed()
    }

    function EntriesUnused(size: nat): (n: nat)
      requires InUse(size)
      reads this
      ensures n == size - EntriesUsed()
    {
      Smaller(size, bits);
      DivModUnique(size - EntriesUsed(), Pow2(bits), 0, size - EntriesUsed());
      (size - EntriesUsed()) % Pow2(bits)
    }

    /** Entries that can be inserted before the buffer is full or wraps. */
    function EntriesUnusedBeforeEnd(size: nat): (n: nat)
      requires InUse(size)
      reads this
      ensures n == Min(size - EntriesUsed(), size - GetHead(size))
    {
      var k := SizeOrder(size, bits);
      DifferenceReaches(head, tail, bits);
      HeadFromTail(tail, EntriesUsed(), k, bits);
      WrapTest(head, tail, k);
      UnusedDifference(head, tail, size, bits);
      if And(Xor(head, tail), size) != 0 then (size + tail - head) % Pow2(bits)
      else size - GetHead(size)
    }

    predicate IsEmpty()
      requires Valid()
      reads this
      ensures IsEmpty() <==> EntriesUsed() == 0
    {
      NoDistance(head, tail, bits);
      head == tail
    }

    predicate IsFull(size: nat)
      requires InUse(size)
      reads this
      ensures IsFull(size) <==> EntriesUnused(size) == 0
    {
      EntriesUsed() == size
    }

    method InsertEntries(n: nat, ghost size: nat)
      requires InUse(size) && n <= EntriesUnused(size)
      modifies this`head
      ensures InUse(size) && EntriesUsed() == old(EntriesUsed()) + n
      ensures head == (old(head) + n) % Pow2(bits)
    {
      hide Pow2;
      hide Distance;
      hide EntriesUnused;
      hide RingSize;
      Smaller(size, bits);
      Advance(head, tail, n, bits);
      head := (head + n) % Pow2(bits);
    }

    method ExtractEntries(n: nat, ghost size: nat)
      requires InUse(size) && n <= EntriesUsed()
      modifies this`tail
      ensures InUse(size) && EntriesUsed() == old(EntriesUsed()) - n
      ensures tail == (old(tail) + n) % Pow2(bits)
    {
      hide Pow2;
      hide Distance;
      hide RingSize;
      Retreat(head, tail, n, bits);
      tail := (tail + n) % Pow2(bits);
    }

    method Reset()
      modifies this
      ensures Valid() && EntriesUsed() == 0
    {
      DivModUnique(0, Pow2(bits), 0, 0);
      head, tail := 0, 0;
    }
  }

  lemma Smaller(size: nat, bits: nat)
    requires RingSize(size, bits)
    ensures 0 < size && 2 * size <= Pow2(bits)
  {
    Pow2Monotone(SizeOrder(size, bits) + 1, bits);
  }

  /** Moving an index on changes the distance by as much. */
  lemma Advance(head: nat, tail: nat, n: nat, bits: nat)
    requires Distance(head, tail, bits) + n < Pow2(bits)
    ensures Distance((head + n) % Pow2(bits), tail, bits) == Distance(head, tail, bits) + n
  {
    hide Pow2;
    WrappedSum(head + n, 0 - tail, Pow2(bits));
    WrappedSum(head - tail, n, Pow2(bits));
    SmallMod((head - tail) % Pow2(bits) + n, Pow2(bits));
  }

  lemma Retreat(head: nat, tail: nat, n: nat, bits: nat)
    requires head < Pow2(bits) && n <= Distance(head, tail, bits)
    ensures Distance(head, (tail + n) % Pow2(bits), bits) == Distance(head, tail, bits) - n
  {
    hide Pow2;
    SmallMod(head, Pow2(bits));
    WrappedDifference(head, tail + n, Pow2(bits));
    WrappedSum(head - tail, 0 - n, Pow2(bits));
    SmallMod((head - tail) % Pow2(bits) - n, Pow2(bits));
  }

  lemma UnusedDifference(head: nat, tail: nat, size: nat, bits: nat)
    requires RingSize(size, bits) && Distance(head, tail, bits) <= size
    ensures (size + tail - head) % Pow2(bits) == size - Distance(head, tail, bits)
  {
    hide Pow2;
    Smaller(size, bits);
    WrappedDifference(size, head - tail, Pow2(bits));
    SmallMod(size, Pow2(bits));
    SmallMod(size - (head - tail) % Pow2(bits), Pow2(bits));
  }
}
