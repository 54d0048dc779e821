/** Character streams: a ring buffer of characters, used by one producer and one consumer
    that may interrupt each other at any point. */
module Stream {
  import opened Bits
  import opened Ring

  class Stream {
    const ring: RingHead
    const ringMask: nat
    const data: array<char>

    constructor (bits: nat, size: nat)
      requires RingSize(size, bits)
      ensures Valid() && Contents() == [] && BufSize() == size && fresh(ring) && fresh(data)
    {
      Smaller(size, bits);
      ring := new RingHead(bits);
      ringMask := size - 1;
      data := new char[size](_ => '\0');
    }

    function BufSize(): nat
    {
      ringMask + 1
    }

    ghost predicate Valid()
      reads this, ring
    {
      data.Length == BufSize() && ring.InUse(BufSize())
    }

    /** The characters waiting to be extracted, oldest first. */
    ghost function Contents(): (s: seq<char>)
      requires Valid()
      reads this, ring, data
      ensures |s| == ring.EntriesUsed()
    {
      seq(ring.EntriesUsed(), i requires 0 <= i reads this, ring, data requires Valid() =>
        data[SlotAfter(ring.tail, i, ring.bits, BufSize())])
    }

    predicate HasData()
      requires Valid()
      reads this, ring, data
      ensures HasData() <==> Contents() != []
    {
      !ring.IsEmpty()
    }

    predicate IsFull()
      requires Valid()
      reads this, ring, data
      ensures IsFull() <==> |Contents()| == BufSize()
    {
      ring.IsFull(BufSize())
    }

    method InsertChar(c: char) returns (r: char)
      requires Valid() && !IsFull()
      modifies ring`head, data
      ensures Valid() && Contents() == old(Contents()) + [c] && r == c
    {
      hide And;
      hide Pow2;
      hide Distance;
      DifferenceReaches(ring.head, ring.tail, ring.bits);
      SlotsDistinct(ring.tail, ring.EntriesUsed(), ring.bits, BufSize());
      data[ring.GetHead(BufSize())] := c;
      ring.InsertEntries(1, BufSize());
      r := c;
    }

    method ExtractChar() returns (c: char)
      requires Valid() && HasData()
      modifies ring`tail
      ensures Valid() && old(Contents()) == [c] + Contents()
    {
      hide And;
      hide Pow2;
      hide Distance;
      SmallMod(ring.tail, Pow2(ring.bits));
      c := data[ring.GetTail(BufSize())];
      NextSlots(ring.tail, ring.bits, BufSize());
      ring.ExtractEntries(1, BufSize());
    }
  }

  /** The place in the buffer of the `n`-th entry from index `base` on. */
  function SlotAfter(base: nat, n: nat, bits: nat, size: nat): (slot: nat)
    requires size > 0
    ensures slot < size
  {
    (base + n) % Pow2(bits) % size
  }

  /** Steps can be taken from an index that has already overflowed. */
  lemma WrapThenStep(x: nat, n: nat, bits: nat)
    ensures (x % Pow2(bits) + n) % Pow2(bits) == (x + n) % Pow2(bits)
  {
    var w := Pow2(bits);
    RemainderOf(x, w);
    ModAddMultiple(x % w + n, x / w, w);
  }

  /** Moving an index one on moves every place one on. */
  lemma NextSlots(base: nat, bits: nat, size: nat)
    requires size > 0
    ensures forall n | 1 <= n :: SlotAfter(base, n, bits, size) == SlotAfter((base + 1) % Pow2(bits), n - 1, bits, size)
  {
    forall n | 1 <= n
      ensures SlotAfter(base, n, bits, size) == SlotAfter((base + 1) % Pow2(bits), n - 1, bits, size)
    {
      WrapThenStep(base + 1, n - 1, bits);
    }
  }

  /** The slot after the used ones is none of them. */
  lemma SlotsDistinct(base: nat, used: nat, bits: nat, size: nat)
    requires RingSize(size, bits) && used < size
    ensures forall n | 0 <= n < used :: SlotAfter(base, n, bits, size) != SlotAfter(base, used, bits, size)
  {
    var k := SizeOrder(size, bits);
    forall n | 0 <= n < used
      ensures SlotAfter(base, n, bits, size) != SlotAfter(base, used, bits, size)
    {
      WrapThenMod(base + n, k, bits);
      WrapThenMod(base + used, k, bits);
      ResiduesDiffer(base + n, base + used, size);
    }
  }

  /** Numbers less than `size` apart have different remainders. */
  lemma ResiduesDiffer(x: nat, y: nat, size: nat)
    requires x < y < x + size
    ensures x % size != y % size
  {
    if x % size == y % size {
      RemainderOf(x, size);
      RemainderOf(y, size);
      MulDistributes(y / size, x / size, size);
      if y / size > x / size {
        MulAtLeast(y / size - x / size, size);
      }
    }
  }

  // ---- One producer and one consumer, interleaved ----

  datatype Producer = Resting | Filling(room: nat, written: seq<char>)

  datatype Consumer = Waiting | Draining(available: nat, taken: seq<char>)

  /** The shared ring, where each side stands, and what has gone in and come out since
      the ring was empty. Both sides work on snapshots of the other side's index. */
  datatype State = State(
    bits: nat, size: nat, head: nat, tail: nat, data: seq<char>,
    producer: Producer, consumer: Consumer,
    inserted: seq<char>, extracted: seq<char>)

  /** One atomic action: read the other side's index, access one character, or publish
      one's own index. */
  datatype Action = ProducerLooks | ProducerWrites(c: char) | ProducerPublishes
                  | ConsumerLooks | ConsumerReads | ConsumerPublishes

  function Slot(s: State, index: nat): nat
    requires s.size > 0
  {
    And(index % Pow2(s.bits), s.size - 1)
  }

  /** The next state; an action that is not due leaves everything as it is. */
  function Next(s: State, a: Action): (t: State)
    requires RingSize(s.size, s.bits) && |s.data| == s.size
    ensures t.size == s.size == |t.data| && t.bits == s.bits
  {
    Smaller(s.size, s.bits);
    match a
    case ProducerLooks =>
      if !s.producer.Resting? then s
      else s.(producer := Filling((s.size - (s.head - s.tail) % Pow2(s.bits)) % Pow2(s.bits), []))
    case ProducerWrites(c) =>
      if s.producer.Filling? && |s.producer.written| < s.producer.room then
        AndLowMask((s.head + |s.producer.written|) % Pow2(s.bits), SizeOrder(s.size, s.bits));
        s.(data := s.data[Slot(s, s.head + |s.producer.written|) := c],
           producer := s.producer.(written := s.producer.written + [c]))
      else s
    case ProducerPublishes =>
      if !s.producer.Filling? then s
      else s.(head := (s.head + |s.producer.written|) % Pow2(s.bits),
              producer := Resting, inserted := s.inserted + s.producer.written)
    case ConsumerLooks =>
      if !s.consumer.Waiting? then s
      else s.(consumer := Draining((s.head - s.tail) % Pow2(s.bits), []))
    case ConsumerReads =>
      if s.consumer.Draining? && |s.consumer.taken| < s.consumer.available then
        AndLowMask((s.tail + |s.consumer.taken|) % Pow2(s.bits), SizeOrder(s.size, s.bits));
        s.(consumer := s.consumer.(taken := s.consumer.taken + [s.data[Slot(s, s.tail + |s.consumer.taken|)]]))
      else s
    case ConsumerPublishes =>
      if !s.consumer.Draining? then s
      else s.(tail := (s.tail + |s.consumer.taken|) % Pow2(s.bits),
              consumer := Waiting, extracted := s.extracted + s.consumer.taken)
  }

  /** Whether a side has come to the point of an action. */
  predicate Due(s: State, a: Action)
  {
    match a
    case ProducerLooks => s.producer.Resting?
    case ProducerWrites(_) => s.producer.Filling? && |s.producer.written| < s.producer.room
    case ProducerPublishes => s.producer.Filling?
    case ConsumerLooks => s.consumer.Waiting?
    case ConsumerReads => s.consumer.Draining? && |s.consumer.taken| < s.consumer.available
    case ConsumerPublishes => s.consumer.Draining?
  }

  lemma OnlyWhenDue(s: State, a: Action)
    requires RingSize(s.size, s.bits) && |s.data| == s.size
    ensures !Due(s, a) ==> Next(s, a) == s
    ensures a.ProducerLooks? || a.ProducerWrites? || a.ProducerPublishes? ==> Next(s, a).consumer == s.consumer
    ensures a.ConsumerLooks? || a.ConsumerReads? || a.ConsumerPublishes? ==> Next(s, a).producer == s.producer
  {
  }

  ghost predicate Initial(s: State)
  {
    && RingSize(s.size, s.bits) && |s.data| == s.size
    && s.head == s.tail == 0 && s.producer.Resting? && s.consumer.Waiting?
    && s.inserted == [] && s.extracted == []
  }

  /** Everything the producer has written, published or not. */
  ghost function Written(s: State): seq<char>
  {
    s.inserted + if s.producer.Filling? then s.producer.written else []
  }

  ghost predicate Inv(s: State)
  {
    && RingSize(s.size, s.bits) && |s.data| == s.size > 0
    && s.head == |s.inserted| % Pow2(s.bits) && s.tail == |s.extracted| % Pow2(s.bits)
    && |s.extracted| <= |s.inserted| <= |s.extracted| + s.size
    && s.extracted == s.inserted[..|s.extracted|]
    && (s.producer.Filling? ==>
          |s.producer.written| <= s.producer.room <= |s.extracted| + s.size - |s.inserted|)
    && (s.consumer.Draining? ==>
          && |s.consumer.taken| <= s.consumer.available <= |s.inserted| - |s.extracted|
          && s.consumer.taken == s.inserted[|s.extracted|..][..|s.consumer.taken|])
    && Stored(s.data, Written(s), |s.extracted|)
  }

  /** The characters from number `from` on are in the places their numbers give them. */
  ghost predicate Stored(data: seq<char>, chars: seq<char>, from: nat)
  {
    |data| > 0 && forall i | from <= i < |chars| :: data[i % |data|] == chars[i]
  }

  lemma SlotIs(s: State, base: nat, n: nat)
    requires RingSize(s.size, s.bits)
    ensures s.size > 0 && Slot(s, base % Pow2(s.bits) + n) == (base + n) % s.size
  {
    Smaller(s.size, s.bits);
    var k := SizeOrder(s.size, s.bits);
    WrapThenStep(base, n, s.bits);
    WrapThenMod(base + n, k, s.bits);
    AndLowMask((base % Pow2(s.bits) + n) % Pow2(s.bits), k);
  }

  lemma UsedIs(s: State)
    requires Inv(s)
    ensures (s.head - s.tail) % Pow2(s.bits) == |s.inserted| - |s.extracted|
    ensures (s.size - (s.head - s.tail) % Pow2(s.bits)) % Pow2(s.bits) == s.size - (|s.inserted| - |s.extracted|)
  {
    hide Pow2;
    hide Stored;
    Smaller(s.size, s.bits);
    var used := |s.inserted| - |s.extracted|;
    WrapThenStep(|s.extracted|, used, s.bits);
    DistanceIs(s.tail, used, s.bits);
    SmallMod(s.size - used, Pow2(s.bits));
  }

  /** The slot the producer writes next holds none of the characters that are still to be
      extracted, also while the consumer is reading them. */
  lemma WriteMissesUnread(s: State)
    requires Inv(s) && s.producer.Filling? && |s.producer.written| < s.producer.room
    ensures forall i | |s.extracted| <= i < |Written(s)| ::
      i % s.size != Slot(s, s.head + |s.producer.written|)
  {
    SlotIs(s, |s.inserted|, |s.producer.written|);
    forall i | |s.extracted| <= i < |Written(s)|
      ensures i % s.size != |Written(s)| % s.size
    {
      ResiduesDiffer(i, |Written(s)|, s.size);
    }
  }

  lemma WriteKeepsInv(s: State, c: char)
    requires Inv(s) && s.producer.Filling? && |s.producer.written| < s.producer.room
    ensures Inv(Next(s, ProducerWrites(c)))
  {
    hide Slot;
    hide Pow2;
    WriteMissesUnread(s);
    SlotIs(s, |s.inserted|, |s.producer.written|);
    assert Written(Next(s, ProducerWrites(c))) == Written(s) + [c];
  }

  lemma ReadKeepsInv(s: State)
    requires Inv(s) && s.consumer.Draining? && |s.consumer.taken| < s.consumer.available
    ensures Inv(Next(s, ConsumerReads))
  {
    hide Slot;
    hide Pow2;
    var i := |s.extracted| + |s.consumer.taken|;
    SlotIs(s, |s.extracted|, |s.consumer.taken|);
    assert s.data[i % s.size] == Written(s)[i] == s.inserted[i];
  }

  lemma ProducerPublishKeepsInv(s: State)
    requires Inv(s) && s.producer.Filling?
    ensures Inv(Next(s, ProducerPublishes))
  {
    hide Pow2;
    hide Stored;
    hide RingSize;
    var n := |s.producer.written|;
    WrapThenStep(|s.inserted|, n, s.bits);
    var t := Next(s, ProducerPublishes);
    assert Written(t) == Written(s) == t.inserted;
    assert s.inserted <= t.inserted;
  }

  lemma ConsumerPublishKeepsInv(s: State)
    requires Inv(s) && s.consumer.Draining?
    ensures Inv(Next(s, ConsumerPublishes))
  {
    hide Pow2;
    hide RingSize;
    hide Stored;
    var n := |s.consumer.taken|;
    WrapThenStep(|s.extracted|, n, s.bits);
    var t := Next(s, ConsumerPublishes);
    assert Written(t) == Written(s);
    assert t.extracted == s.inserted[..|t.extracted|];
    StoredLater(s.data, Written(s), |s.extracted|, n);
  }

  lemma StoredLater(data: seq<char>, chars: seq<char>, from: nat, n: nat)
    requires Stored(data, chars, from)
    ensures Stored(data, chars, from + n)
  {
  }

  lemma LookKeepsInv(s: State, a: Action)
    requires Inv(s) && (a.ProducerLooks? || a.ConsumerLooks?)
    ensures Inv(Next(s, a))
  {
    hide Slot;
    hide Pow2;
    UsedIs(s);
    assert Written(Next(s, a)) == Written(s);
  }

  lemma ActionKeepsInv(s: State, a: Action)
    requires Inv(s)
    ensures Inv(Next(s, a))
  {
    hide Inv;
    match a
    case ProducerWrites(c) =>
      if s.producer.Filling? && |s.producer.written| < s.producer.room {
        WriteKeepsInv(s, c);
      }
    case ConsumerReads =>
      if s.consumer.Draining? && |s.consumer.taken| < s.consumer.available {
        ReadKeepsInv(s);
      }
    case ProducerPublishes =>
      if s.producer.Filling? {
        ProducerPublishKeepsInv(s);
      }
    case ConsumerPublishes =>
      if s.consumer.Draining? {
        ConsumerPublishKeepsInv(s);
      }
    case ProducerLooks => LookKeepsInv(s, a);
    case ConsumerLooks => LookKeepsInv(s, a);
  }

  function Run(s: State, actions: seq<Action>): (t: State)
    requires RingSize(s.size, s.bits) && |s.data| == s.size
    ensures t.size == s.size == |t.data| && t.bits == s.bits
    decreases |actions|
  {
    if actions == [] then s
    else
      var t := Next(s, actions[0]);
      Run(t, actions[1..])
  }

  lemma {:induction false} RunKeepsInv(s: State, actions: seq<Action>)
    requires Inv(s)
    ensures Inv(Run(s, actions))
    decreases |actions|
  {
    if actions != [] {
      ActionKeepsInv(s, actions[0]);
      RunKeepsInv(Next(s, actions[0]), actions[1..]);
    }
  }

  /** However producer and consumer are interleaved and however often the indices
      overflow, what comes out is a prefix of what went in, and the used entries, as
      either side computes them, are those that went in but did not come out. */
  lemma StreamIsFifo(s: State, actions: seq<Action>)
    requires Initial(s)
    ensures var t := Run(s, actions);
            && t.extracted <= t.inserted
            && (t.head - t.tail) % Pow2(t.bits) == |t.inserted| - |t.extracted| <= t.size
            && (t.consumer.Draining? ==> t.extracted + t.consumer.taken <= t.inserted)
  {
    Smaller(s.size, s.bits);
    DivModUnique(0, Pow2(s.bits), 0, 0);
    RunKeepsInv(s, actions);
    UsedIs(Run(s, actions));
  }

  lemma InsertOne(s: State, c: char)
    requires Inv(s) && s.producer.Resting? && |s.inserted| < |s.extracted| + s.size
    ensures var t := Run(s, [ProducerLooks, ProducerWrites(c), ProducerPublishes]);
            && Inv(t) && t.inserted == s.inserted + [c] && t.extracted == s.extracted && t.producer.Resting?
            && t.consumer == s.consumer && t.bits == s.bits && t.size == s.size
  {
    hide Slot;
    hide Stored;
    var looks, write, publish := ProducerLooks, ProducerWrites(c), ProducerPublishes;
    RunThree(s, looks, write, publish);
    UsedIs(s);
    LookKeepsInv(s, looks);
    var s1 := Next(s, looks);
    WriteKeepsInv(s1, c);
    ProducerPublishKeepsInv(Next(s1, write));
  }

  lemma ExtractOne(s: State)
    requires Inv(s) && s.consumer.Waiting? && |s.extracted| < |s.inserted|
    ensures var t := Run(s, [ConsumerLooks, ConsumerReads, ConsumerPublishes]);
            t.extracted == s.extracted + [s.inserted[|s.extracted|]] && t.inserted == s.inserted
  {
    hide Slot;
    hide Stored;
    RunThree(s, ConsumerLooks, ConsumerReads, ConsumerPublishes);
    UsedIs(s);
    LookKeepsInv(s, ConsumerLooks);
    var s1 := Next(s, ConsumerLooks);
    ReadKeepsInv(s1);
    assert Next(s1, ConsumerReads).consumer.taken == [s.inserted[|s.extracted|]];
  }

  /** With room in the buffer, a look, a write and a publication insert a character; with
      a character in the buffer, a look, a read and a publication extract the oldest. */
  lemma InsertThenExtract(s: State, c: char)
    requires Inv(s) && s.producer.Resting? && s.consumer.Waiting?
    requires |s.inserted| < |s.extracted| + s.size
    ensures var t := Run(s, [ProducerLooks, ProducerWrites(c), ProducerPublishes]);
            && t.inserted == s.inserted + [c] && t.extracted == s.extracted && t.producer.Resting?
            && var u := Run(t, [ConsumerLooks, ConsumerReads, ConsumerPublishes]);
               && u.extracted == s.extracted + [t.inserted[|s.extracted|]] && u.inserted == t.inserted
  {
    assert |s.extracted| <= |s.inserted|;
    InsertOne(s, c);
    hide Run;
    ExtractOne(Run(s, [ProducerLooks, ProducerWrites(c), ProducerPublishes]));
  }

  lemma RunThree(s: State, a: Action, b: Action, c: Action)
    requires RingSize(s.size, s.bits) && |s.data| == s.size
    ensures Run(s, [a, b, c]) == Next(Next(Next(s, a), b), c)
  {
    assert [a, b, c][1..] == [b, c] && [b, c][1..] == [c] && [c][1..] == [];
    var s1 := Next(s, a);
    var s2 := Next(s1, b);
    assert Run(s, [a, b, c]) == Run(s1, [b, c]);
    assert Run(s1, [b, c]) == Run(s2, [c]);
    assert Run(s2, [c]) == Run(Next(s2, c), []);
  }
}
