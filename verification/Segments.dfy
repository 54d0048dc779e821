/** Buffer lists and the way a block request is cut into page segments. */
module Segments {
  import opened Bits
  import opened At45Chip

  const BLOCK_SIZE := 512

  /** A data buffer: where its data area is, and what it holds. */
  datatype Buffer = Buffer(addr: nat, data: seq<byte>)

  /** The bytes of a buffer list, in list order. */
  function Bytes(bufs: seq<Buffer>): seq<byte>
  {
    if bufs == [] then [] else Bytes(bufs[..|bufs| - 1]) + bufs[|bufs| - 1].data
  }

  function Flatten(lists: seq<seq<Buffer>>): seq<Buffer>
  {
    if lists == [] then [] else lists[0] + Flatten(lists[1..])
  }

  ghost predicate NonEmpty(lists: seq<seq<Buffer>>)
  {
    forall i | 0 <= i < |lists| :: lists[i] != []
  }

  /** The same buffers, whatever they hold. */
  ghost predicate SameShape(a: seq<Buffer>, b: seq<Buffer>)
  {
    && |a| == |b|
    && forall i | 0 <= i < |a| :: a[i].addr == b[i].addr && |a[i].data| == |b[i].data|
  }

  lemma {:induction false} BytesAppend(a: seq<Buffer>, b: seq<Buffer>)
    ensures Bytes(a + b) == Bytes(a) + Bytes(b)
  {
    hide Bytes;
    if b == [] {
      BytesNone();
      assert a + b == a;
    } else {
      var init, last := b[..|b| - 1], b[|b| - 1];
      BytesAppend(a, init);
      BytesLast(init, last);
      BytesLast(a + init, last);
      assert init + [last] == b && (a + init) + [last] == a + b;
    }
  }

  lemma BytesLast(init: seq<Buffer>, last: Buffer)
    ensures Bytes(init + [last]) == Bytes(init) + last.data
  {
    assert (init + [last])[..|init|] == init;
  }

  lemma BytesNone()
    ensures Bytes([]) == []
  {
  }

  lemma BytesOne(b: Buffer)
    ensures Bytes([b]) == b.data
  {
    BytesNone();
    BytesLast([], b);
  }

  lemma {:induction false} ShapeBytes(a: seq<Buffer>, b: seq<Buffer>)
    requires SameShape(a, b)
    ensures |Bytes(a)| == |Bytes(b)|
  {
    if a != [] {
      ShapeBytes(a[..|a| - 1], b[..|b| - 1]);
    }
  }

  lemma OneMore(a: seq<Buffer>, b: seq<Buffer>, bytes: seq<byte>, last: Buffer)
    requires SameShape(a, b) && |bytes| == |last.data|
    ensures SameShape(a + [last.(data := bytes)], b + [last])
    ensures Bytes(a + [last.(data := bytes)]) == Bytes(a) + bytes
  {
    BytesAppend(a, [last.(data := bytes)]);
    BytesOne(last.(data := bytes));
  }

  /** The buffers of a list with the bytes of a transfer stored in them in order. */
  function Fill(bufs: seq<Buffer>, bytes: seq<byte>): (r: seq<Buffer>)
    requires |bytes| == |Bytes(bufs)|
    ensures SameShape(r, bufs) && Bytes(r) == bytes
  {
    hide Bytes;
    BytesNone();
    if bufs == [] then []
    else
      var init, last := bufs[..|bufs| - 1], bufs[|bufs| - 1];
      assert init + [last] == bufs;
      BytesLast(init, last);
      var cut := |Bytes(init)|;
      var filled := Fill(init, bytes[..cut]);
      OneMore(filled, init, bytes[cut..], last);
      filled + [last.(data := bytes[cut..])]
  }

  /** Taking the first waiting buffer moves one buffer of the plan from the waiting ones,
      which `rest` begins and `tail` continues, to those already taken. */
  lemma TakeOne(moved: seq<Buffer>, rest: seq<Buffer>, tail: seq<Buffer>, plan: seq<Buffer>)
    requires |moved| <= |plan| && SameShape(moved, plan[..|moved|])
    requires rest != [] && rest + tail == plan[|moved|..]
    ensures |moved| < |plan| && rest[0] == plan[|moved|]
    ensures SameShape(moved + [rest[0]], plan[..|moved| + 1])
    ensures rest[1..] + tail == plan[|moved| + 1..]
    ensures moved == plan[..|moved|] ==> moved + [rest[0]] == plan[..|moved| + 1]
    ensures Bytes(moved + [rest[0]]) == Bytes(moved) + rest[0].data
    ensures |Bytes(moved)| == |Bytes(plan[..|moved|])|
  {
    assert (rest + tail)[0] == plan[|moved|..][0];
    assert (rest + tail)[1..] == rest[1..] + tail;
    assert plan[..|moved| + 1] == plan[..|moved|] + [plan[|moved|]];
    assert (moved + [rest[0]])[..|moved|] == moved;
    ShapeBytes(moved, plan[..|moved|]);
  }

  /** Whether `len` bytes from `addr` on are a non-empty piece of one page. */
  predicate WithinPage(addr: nat, len: nat)
  {
    len > 0 && addr / PAGE_SIZE == (addr + len - 1) / PAGE_SIZE
  }

  /** Whether consecutive buffers, the first one placed at `addr`, are non-empty, do not
      cross a page boundary and end no later than `end`. */
  ghost predicate Fits(bufs: seq<Buffer>, addr: nat, end: nat)
  {
    forall k | 0 <= k < |bufs| :: FitsAt(bufs, k, addr, end)
  }

  ghost predicate FitsAt(bufs: seq<Buffer>, k: nat, addr: nat, end: nat)
    requires k < |bufs|
  {
    var at := addr + |Bytes(bufs[..k])|;
    WithinPage(at, |bufs[k].data|) && at + |bufs[k].data| <= end
  }

  /** Bytes the current page can still take or give, for a page of
      `512 * 2^shift` bytes, 256 for a negative shift. */
  function RemainingPageSize(shift: int, lba: nat, remaining: nat): nat
    requires -1 <= shift <= 1
  {
    if shift == 0 then 512
    else if shift == 1 then
      if lba % 2 == 0 && remaining >= 2 then 1024 else 512
    else 256
  }

  predicate IsPageAligned(shift: int, lba: nat, remaining: nat)
  {
    if shift == 0 then true
    else if shift == 1 then lba % 2 == 0 && remaining >= 2
    else true
  }

  /** A segment is as much of the request as the page holds from its position on, and it is
      aligned exactly if that is the whole page. */
  lemma SegmentIs(shift: int, lba: nat, remaining: nat)
    requires -1 <= shift <= 1 && remaining > 0
    ensures
      var pageSize := if shift < 0 then 256 else if shift == 0 then 512 else 1024;
      var left := pageSize - (BLOCK_SIZE * lba) % pageSize;
      && RemainingPageSize(shift, lba, remaining)
         == (if left < BLOCK_SIZE * remaining then left else BLOCK_SIZE * remaining)
      && (IsPageAligned(shift, lba, remaining) <==> RemainingPageSize(shift, lba, remaining) == pageSize)
  {
    DivModUnique(BLOCK_SIZE * lba, 256, 2 * lba, 0);
    DivModUnique(BLOCK_SIZE * lba, 512, lba, 0);
    DivModUnique(BLOCK_SIZE * lba, 1024, lba / 2, BLOCK_SIZE * (lba % 2));
  }

  /** A completed page brings the request closer to its end exactly when pages are not
      smaller than blocks: with 256-byte pages a page counts for no block at all. */
  lemma PageProgress(shift: int, lba: nat, remaining: nat)
    requires -1 <= shift <= 1 && remaining > 0
    ensures remaining - RemainingPageSize(shift, lba, remaining) / BLOCK_SIZE < remaining <==> shift >= 0
  {
  }

  /** The driver addresses `lba / 2` as the page and `512 * (lba % 2)` as the position
      in it; that is block `lba` of a memory with pages of `size` bytes for every block
      exactly when pages have 1024 bytes. */
  lemma PageAddressing(size: nat)
    ensures (forall lba: nat :: (lba / 2) * size + (lba % 2) * BLOCK_SIZE == lba * BLOCK_SIZE) <==> size == PAGE_SIZE
  {
    var lba := 2;
    assert (lba / 2) * size + (lba % 2) * BLOCK_SIZE == size;
    if size == PAGE_SIZE {
      forall lba: nat
        ensures (lba / 2) * size + (lba % 2) * BLOCK_SIZE == lba * BLOCK_SIZE
      {
      }
    }
  }

  /** With 1024-byte pages the segments are the pages cut down to the request, so a
      buffer that stays within its page and within the request never runs past the end
      of the segment it starts in. */
  lemma SegmentHoldsBuffer(lba: nat, remaining: nat, pos: nat, len: nat)
    requires remaining > 0
    requires pos < RemainingPageSize(1, lba, remaining)
    requires WithinPage(BLOCK_SIZE * lba + pos, len)
    requires BLOCK_SIZE * lba + pos + len <= BLOCK_SIZE * (lba + remaining)
    ensures 0 < len && pos + len <= RemainingPageSize(1, lba, remaining)
  {
    var page := lba / 2;
    var at := BLOCK_SIZE * lba + pos;
    assert at == page * PAGE_SIZE + (lba % 2) * BLOCK_SIZE + pos;
    assert at / PAGE_SIZE == page;
    assert at + len - 1 < (page + 1) * PAGE_SIZE;
  }

  /** The next waiting buffer is the next one of a plan that fits the request, and it does
      not run past the segment. */
  lemma NextFits(moved: seq<Buffer>, rest: seq<Buffer>, tail: seq<Buffer>, plan: seq<Buffer>, start: nat, end: nat,
                 lba: nat, remaining: nat, pos: nat)
    requires |moved| <= |plan| && SameShape(moved, plan[..|moved|])
    requires rest != [] && rest + tail == plan[|moved|..] && Fits(plan, start, end)
    requires remaining > 0 && pos < RemainingPageSize(1, lba, remaining)
    requires start + |Bytes(moved)| == BLOCK_SIZE * lba + pos && end == BLOCK_SIZE * (lba + remaining)
    ensures |moved| < |plan| && rest[0] == plan[|moved|]
    ensures 0 < |rest[0].data| <= RemainingPageSize(1, lba, remaining) - pos
    ensures start + |Bytes(moved)| + |rest[0].data| <= end
  {
    var k := |moved|;
    TakeOne(moved, rest, tail, plan);
    hide WithinPage;
    hide Bytes;
    hide SameShape;
    hide RemainingPageSize;
    assert FitsAt(plan, k, start, end);
    SegmentHoldsBuffer(lba, remaining, pos, |rest[0].data|);
  }

  /** A plan that fits has no buffers beyond its end. */
  lemma PlanFilled(plan: seq<Buffer>, k: nat, start: nat, end: nat)
    requires k <= |plan| && Fits(plan, start, end) && start + |Bytes(plan[..k])| == end
    ensures k == |plan|
  {
    assert k < |plan| ==> FitsAt(plan, k, start, end);
  }

  /** Programming a page from a buffer that holds the segment's new bytes and, around
      them, the page's old bytes extends the written range by the segment. */
  lemma ProgramSegment(flash0: seq<byte>, start: nat, data: seq<byte>, done: nat,
                       buffer: seq<byte>, page: nat, off: nat, size: nat)
    requires done + size <= |data| && start + |data| <= |flash0|
    requires |buffer| == PAGE_SIZE && off + size <= PAGE_SIZE
    requires start + done == page * PAGE_SIZE + off && (page + 1) * PAGE_SIZE <= |flash0|
    requires forall j | 0 <= j < PAGE_SIZE ::
      buffer[j] == if off <= j < off + size then data[done + (j - off)]
                   else Replace(flash0, start, data[..done])[page * PAGE_SIZE + j]
    ensures Replace(Replace(flash0, start, data[..done]), page * PAGE_SIZE, buffer)
         == Replace(flash0, start, data[..done + size])
  {
    var before := Replace(flash0, start, data[..done]);
    var after := Replace(before, page * PAGE_SIZE, buffer);
    var wanted := Replace(flash0, start, data[..done + size]);
    forall i | 0 <= i < |flash0|
      ensures after[i] == wanted[i]
    {
      if page * PAGE_SIZE <= i < (page + 1) * PAGE_SIZE {
        assert after[i] == buffer[i - page * PAGE_SIZE];
      }
    }
  }
}
